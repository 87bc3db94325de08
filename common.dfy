/** Failure-carrying wrappers shared by the job manager modules. */
module Common {

  datatype Option<+T> = None | Some(value: T)

  /** The outcome of an operation that the source lets raise an exception;
      `error` carries the exception's message. */
  datatype Result<+T> = Success(value: T) | Failure(error: string)

  /** Every element of `s` occurs once: the head is not repeated in the
      tail, and so on down the sequence. */
  predicate Distinct<T(==)>(s: seq<T>) {
    s != [] ==> s[0] !in s[1..] && Distinct(s[1..])
  }

  /** The same, stated on positions. */
  lemma {:induction false} DistinctPairwise<T>(s: seq<T>)
    ensures Distinct(s) <==> forall i, j :: 0 <= i < j < |s| ==> s[i] != s[j]
  {
    if s != [] {
      DistinctPairwise(s[1..]);
      if Distinct(s) {
        forall i, j | 0 <= i < j < |s| ensures s[i] != s[j] {
          if i > 0 {
            assert s[i] == s[1..][i - 1] && s[j] == s[1..][j - 1];
          } else {
            assert s[j] == s[1..][j - 1];
          }
        }
      }
      if forall i, j :: 0 <= i < j < |s| ==> s[i] != s[j] {
        forall i, j | 0 <= i < j < |s[1..]| ensures s[1..][i] != s[1..][j] {
          assert s[1..][i] == s[i + 1] && s[1..][j] == s[j + 1];
        }
        assert s[0] !in s[1..] by {
          forall k | 0 <= k < |s[1..]| ensures s[1..][k] != s[0] {
            assert s[1..][k] == s[k + 1];
          }
        }
      }
    }
  }

  /** Appending an element keeps a sequence distinct exactly when the
      element is new. */
  lemma {:induction false} DistinctSnoc<T>(s: seq<T>, x: T)
    ensures Distinct(s + [x]) <==> Distinct(s) && x !in s
  {
    if s != [] {
      assert (s + [x])[1..] == s[1..] + [x];
      DistinctSnoc(s[1..], x);
      assert x in s <==> x == s[0] || x in s[1..];
      assert s[0] in s[1..] + [x] <==> s[0] in s[1..] || s[0] == x;
    }
  }

  /** An element of a distinct sequence does not occur before its position. */
  lemma DistinctNotBefore<T>(s: seq<T>, i: int)
    requires Distinct(s) && 0 <= i < |s|
    ensures s[i] !in s[..i]
  {
    DistinctPairwise(s);
    forall k | 0 <= k < i ensures s[..i][k] != s[i] {
      assert s[..i][k] == s[k];
    }
  }
}
