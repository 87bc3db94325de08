/** How a task's raw `dependency` field becomes its dependency list
    (src/master/jobmgr.py:33-35): the string is stripped of surrounding
    whitespace, every space is deleted, and the rest is split at commas; a
    lone empty field means "no dependencies". */
module DependencyParsing {
  import opened DependencyLists

  /** The characters Python's `str.isspace()` accepts, which `str.strip()`
      removes from both ends. */
  predicate IsSpace(c: char) {
    || c == ' ' || c == '\t' || c == '\n' || c == '\r' || c == '\U{B}' || c == '\U{C}'
    || ('\U{1C}' <= c <= '\U{1F}') || c == '\U{85}' || c == '\U{A0}' || c == '\U{1680}'
    || ('\U{2000}' <= c <= '\U{200A}') || c == '\U{2028}' || c == '\U{2029}'
    || c == '\U{202F}' || c == '\U{205F}' || c == '\U{3000}'
  }

  function StripLeft(s: string): string {
    if s != [] && IsSpace(s[0]) then StripLeft(s[1..]) else s
  }

  /** What StripLeft leaves is a suffix of `s` that does not start with
      whitespace. */
  lemma {:induction false} StripLeftSuffix(s: string)
    ensures var r := StripLeft(s);
      |r| <= |s| && r == s[|s| - |r|..] && (r == [] || !IsSpace(r[0]))
  {
    if s != [] && IsSpace(s[0]) {
      StripLeftSuffix(s[1..]);
    }
  }

  function StripRight(s: string): string {
    if s != [] && IsSpace(s[|s| - 1]) then StripRight(s[..|s| - 1]) else s
  }

  /** What StripRight leaves is a prefix of `s` that does not end with
      whitespace. */
  lemma {:induction false} StripRightPrefix(s: string)
    ensures var r := StripRight(s);
      |r| <= |s| && r == s[..|r|] && (r == [] || !IsSpace(r[|r| - 1]))
  {
    if s != [] && IsSpace(s[|s| - 1]) {
      StripRightPrefix(s[..|s| - 1]);
    }
  }

  /** Python's `str.strip()` with no argument. */
  function Strip(s: string): string {
    StripRight(StripLeft(s))
  }

  /** Stripping leaves nothing exactly when the string is all whitespace. */
  lemma StripEmptyIff(s: string)
    ensures Strip(s) == [] <==> forall i :: 0 <= i < |s| ==> IsSpace(s[i])
  {
    StripLeftEmptyIff(s);
    StripLeftSuffix(s);
    var l := StripLeft(s);
    if l != [] {
      assert !IsSpace(l[0]);
      StripRightKeepsHead(l);
      assert !IsSpace(s[|s| - |l|]);
    }
  }

  lemma {:induction false} StripLeftEmptyIff(s: string)
    ensures StripLeft(s) == [] <==> forall i :: 0 <= i < |s| ==> IsSpace(s[i])
  {
    if s != [] && IsSpace(s[0]) {
      StripLeftEmptyIff(s[1..]);
      assert forall i :: 1 <= i < |s| ==> s[i] == s[1..][i - 1];
    }
  }

  /** Stripping the right end of a string that starts with a non-space keeps
      that first character. */
  lemma {:induction false} StripRightKeepsHead(s: string)
    requires s != [] && !IsSpace(s[0])
    ensures StripRight(s) != [] && StripRight(s)[0] == s[0]
  {
    if IsSpace(s[|s| - 1]) {
      StripRightKeepsHead(s[..|s| - 1]);
    }
  }

  /** Python's `str.replace(' ', '')`. */
  function RemoveSpaces(s: string): string {
    if s == [] then [] else (if s[0] == ' ' then [] else [s[0]]) + RemoveSpaces(s[1..])
  }

  /** It keeps exactly the characters of `s` other than the space. */
  lemma {:induction false} RemoveSpacesChars(s: string)
    ensures forall c :: c in RemoveSpaces(s) <==> c in s && c != ' '
  {
    if s != [] {
      RemoveSpacesChars(s[1..]);
      assert forall c :: c in s <==> c == s[0] || c in s[1..];
    }
  }

  /** Python's `str.split(',')`: the fields between commas, at least one. */
  function Split(s: string): (parts: seq<string>)
    ensures |parts| >= 1
  {
    if s == [] then [""]
    else
      var rest := Split(s[1..]);
      if s[0] == ',' then [""] + rest else [[s[0]] + rest[0]] + rest[1..]
  }

  /** No field holds a comma, and every character of a field is one of `s`. */
  lemma {:induction false} SplitFields(s: string)
    ensures forall k :: 0 <= k < |Split(s)| ==> ',' !in Split(s)[k]
    ensures forall k, c :: 0 <= k < |Split(s)| && c in Split(s)[k] ==> c in s
  {
    if s != [] {
      SplitFields(s[1..]);
      var rest := Split(s[1..]);
      assert forall c :: c in s[1..] ==> c in s;
      if s[0] != ',' {
        assert forall c :: c in [s[0]] + rest[0] ==> c == s[0] || c in rest[0];
        assert forall k :: 1 <= k < |Split(s)| ==> Split(s)[k] == rest[k];
      } else {
        assert forall k :: 1 <= k < |Split(s)| ==> Split(s)[k] == rest[k - 1];
      }
    }
  }

  /** Python's `','.join(parts)`. */
  function Join(parts: seq<string>): string {
    if parts == [] then ""
    else if |parts| == 1 then parts[0]
    else parts[0] + "," + Join(parts[1..])
  }

  /** Joining the fields with commas gives back the split string. */
  lemma {:induction false} JoinSplit(s: string)
    ensures Join(Split(s)) == s
  {
    if s != [] {
      JoinSplit(s[1..]);
      var rest := Split(s[1..]);
      if s[0] == ',' {
        assert Join([""] + rest) == "" + "," + Join(rest);
      } else {
        var parts := [[s[0]] + rest[0]] + rest[1..];
        if |rest| == 1 {
          assert Join(parts) == [s[0]] + rest[0];
        } else {
          assert parts[1..] == rest[1..];
          assert Join(parts) == [s[0]] + (rest[0] + "," + Join(rest[1..]));
        }
      }
    }
  }

  /** Splitting comma-free fields joined with commas gives back the fields. */
  lemma {:induction false} SplitJoin(parts: seq<string>)
    requires |parts| >= 1
    requires forall k :: 0 <= k < |parts| ==> ',' !in parts[k]
    ensures Split(Join(parts)) == parts
  {
    if |parts| == 1 {
      SplitField(parts[0], "");
      assert parts[0] + "" == parts[0];
      assert parts == [parts[0]];
    } else {
      SplitJoin(parts[1..]);
      var tail := Join(parts[1..]);
      assert Split("," + tail) == [""] + Split(tail) by {
        assert ("," + tail)[1..] == tail;
      }
      SplitField(parts[0], "," + tail);
      assert Join(parts) == parts[0] + ("," + tail);
      assert ([""] + parts[1..])[1..] == parts[1..];
      assert parts[0] + "" == parts[0];
      assert [parts[0]] + parts[1..] == parts;
    }
  }

  /** A comma-free field in front of `s` glues onto the first field of `s`. */
  lemma {:induction false} SplitField(p: string, s: string)
    requires ',' !in p
    ensures Split(p + s) == [p + Split(s)[0]] + Split(s)[1..]
  {
    if p != [] {
      SplitField(p[1..], s);
      assert (p + s)[1..] == p[1..] + s;
      assert [p[0]] + (p[1..] + Split(s)[0]) == p + Split(s)[0];
    } else {
      assert p + s == s;
      assert p + Split(s)[0] == Split(s)[0];
      assert Split(s) == [Split(s)[0]] + Split(s)[1..];
    }
  }

  /** The dependency list parsed from a raw `dependency` field
      (src/master/jobmgr.py:33-35). */
  function Dependencies(raw: string): seq<TaskId> {
    var parts := Split(RemoveSpaces(Strip(raw)));
    if |parts| == 1 && parts[0] == "" then [] else parts
  }

  /** Each parsed dependency is free of commas and spaces, and joined back
      with commas they give the squeezed field. */
  lemma DependenciesFields(raw: string)
    ensures var deps := Dependencies(raw);
      && (forall k :: 0 <= k < |deps| ==> ',' !in deps[k] && ' ' !in deps[k])
      && (deps != [] ==> Join(deps) == RemoveSpaces(Strip(raw)))
  {
    var squeezed := RemoveSpaces(Strip(raw));
    JoinSplit(squeezed);
    SplitFields(squeezed);
    RemoveSpacesChars(Strip(raw));
    assert ' ' !in squeezed;
  }

  /** A task declares no dependencies exactly when its raw field is empty or
      all whitespace. */
  lemma NoDependenciesIff(raw: string)
    ensures Dependencies(raw) == [] <==> forall i :: 0 <= i < |raw| ==> IsSpace(raw[i])
  {
    var stripped := Strip(raw);
    var squeezed := RemoveSpaces(stripped);
    StripEmptyIff(raw);
    if stripped != [] {
      var l := StripLeft(raw);
      StripLeftSuffix(raw);
      StripRightKeepsHead(l);
      RemoveSpacesChars(stripped);
      assert stripped[0] != ' ' && stripped[0] in stripped;
      assert stripped[0] in squeezed;
      SplitNonEmpty(squeezed);
    }
  }

  /** Only the empty string splits into a single empty field. */
  lemma SplitNonEmpty(s: string)
    requires s != []
    ensures Split(s) != [""]
  {
    var rest := Split(s[1..]);
    if s[0] != ',' {
      assert |([s[0]] + rest[0])| > 0;
    }
  }
}
