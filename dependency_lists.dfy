/** A task's dependency list is a Python list of task ids: it keeps the order
    of the declaration and may name the same task more than once. These are
    the list operations the job state machine applies to it. */
module DependencyLists {

  /** A task's key in the job's task dictionary. */
  type TaskId = string

  /** Number of occurrences of `x` in `s`. */
  function Count(s: seq<TaskId>, x: TaskId): (n: nat)
    ensures n > 0 <==> x in s
    ensures n <= |s|
  {
    if s == [] then 0 else (if s[0] == x then 1 else 0) + Count(s[1..], x)
  }

  lemma {:induction false} CountConcat(a: seq<TaskId>, b: seq<TaskId>, x: TaskId)
    ensures Count(a + b, x) == Count(a, x) + Count(b, x)
  {
    if a == [] {
      assert a + b == b;
    } else {
      assert (a + b)[1..] == a[1..] + b;
      CountConcat(a[1..], b, x);
    }
  }

  /** Python's `list.remove(x)`: drops the first occurrence of `x`. */
  function RemoveFirst(s: seq<TaskId>, x: TaskId): (r: seq<TaskId>)
    requires x in s
    ensures |r| == |s| - 1
    ensures Count(r, x) == Count(s, x) - 1
    ensures forall y :: y != x ==> Count(r, y) == Count(s, y)
  {
    if s[0] == x then s[1..] else [s[0]] + RemoveFirst(s[1..], x)
  }

  /** `n` successive calls of `list.remove(x)`. */
  function DropFirst(s: seq<TaskId>, x: TaskId, n: nat): (r: seq<TaskId>)
    requires n <= Count(s, x)
    ensures Count(r, x) == Count(s, x) - n
    decreases n
  {
    if n == 0 then s else DropFirst(RemoveFirst(s, x), x, n - 1)
  }


  /** `s` with every element of `R` taken out, order kept. */
  function Without(s: seq<TaskId>, R: set<TaskId>): (r: seq<TaskId>)
    ensures forall y {:trigger y in r} :: y in r <==> y in s && y !in R
  {
    if s == [] then [] else (if s[0] in R then [] else [s[0]]) + Without(s[1..], R)
  }

  /** Taking out elements that are not there anyway changes nothing. */
  lemma {:induction false} WithoutAbsent(s: seq<TaskId>, R: set<TaskId>)
    requires forall y :: y in s ==> y !in R
    ensures Without(s, R) == s
  {
    if s != [] {
      WithoutAbsent(s[1..], R);
      assert [s[0]] + s[1..] == s;
    }
  }

  /** Removing the first `x` is invisible once every `x` is taken out. */
  lemma {:induction false} WithoutRemoveFirst(s: seq<TaskId>, x: TaskId, R: set<TaskId>)
    requires x in s && x in R
    ensures Without(RemoveFirst(s, x), R) == Without(s, R)
  {
    if s[0] != x {
      var r := RemoveFirst(s[1..], x);
      assert ([s[0]] + r)[0] == s[0] && ([s[0]] + r)[1..] == r;
      WithoutRemoveFirst(s[1..], x, R);
    }
  }

  /** Removing every occurrence of `x`, one `list.remove` at a time, leaves
      the list with `x` filtered out. */
  lemma {:induction false} DropAllIsWithout(s: seq<TaskId>, x: TaskId)
    ensures DropFirst(s, x, Count(s, x)) == Without(s, {x})
  {
    DropKeepsWithout(s, x, Count(s, x));
    var d := DropFirst(s, x, Count(s, x));
    WithoutAbsent(d, {x});
  }

  lemma {:induction false} DropKeepsWithout(s: seq<TaskId>, x: TaskId, n: nat)
    requires n <= Count(s, x)
    ensures Without(DropFirst(s, x, n), {x}) == Without(s, {x})
    decreases n
  {
    if n > 0 {
      DropKeepsWithout(RemoveFirst(s, x), x, n - 1);
      WithoutRemoveFirst(s, x, {x});
    }
  }


  /** Filtering in two rounds is filtering once by the union. */
  lemma {:induction false} WithoutTwice(s: seq<TaskId>, R: set<TaskId>, Q: set<TaskId>)
    ensures Without(Without(s, R), Q) == Without(s, R + Q)
  {
    if s != [] {
      WithoutTwice(s[1..], R, Q);
      var head := if s[0] in R then [] else [s[0]];
      WithoutConcat(head, Without(s[1..], R), Q);
    }
  }

  lemma {:induction false} WithoutConcat(a: seq<TaskId>, b: seq<TaskId>, Q: set<TaskId>)
    ensures Without(a + b, Q) == Without(a, Q) + Without(b, Q)
  {
    if a == [] {
      assert a + b == b;
    } else {
      assert (a + b)[1..] == a[1..] + b;
      WithoutConcat(a[1..], b, Q);
    }
  }

  /** Filtering out other elements keeps every occurrence of `x`. */
  lemma {:induction false} CountWithout(s: seq<TaskId>, R: set<TaskId>, x: TaskId)
    requires x !in R
    ensures Count(Without(s, R), x) == Count(s, x)
  {
    if s != [] {
      CountWithout(s[1..], R, x);
      var head := if s[0] in R then [] else [s[0]];
      CountConcat(head, Without(s[1..], R), x);
    }
  }
}
