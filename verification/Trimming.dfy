/** Cutting white space off both ends of a string. */
module Trimming {

  /** isspace in the default locale. */
  predicate IsSpace(c: char)
  {
    c == ' ' || c == '\t' || c == '\n' || c == '\U{0B}' || c == '\U{0C}' || c == '\r'
  }

  predicate AllSpace(s: string)
  {
    forall i :: 0 <= i < |s| ==> IsSpace(s[i])
  }

  /** Neither end is white space. */
  predicate Trimmed(s: string)
  {
    s == "" || (!IsSpace(s[0]) && !IsSpace(s[|s| - 1]))
  }

  function Trim(s: string): (r: string)
    ensures Trimmed(r)
  {
    if s == "" then ""
    else if IsSpace(s[0]) then Trim(s[1..])
    else if IsSpace(s[|s| - 1]) then Trim(s[..|s| - 1])
    else s
  }

  /** Only white space is cut off. */
  lemma {:induction false} TrimCutsSpace(s: string) returns (before: string, after: string)
    ensures s == before + Trim(s) + after && AllSpace(before) && AllSpace(after)
  {
    hide IsSpace;
    if s == "" || Trimmed(s) {
      before, after := "", "";
    } else if IsSpace(s[0]) {
      var inner;
      inner, after := TrimCutsSpace(s[1..]);
      before := [s[0]] + inner;
      assert s == [s[0]] + s[1..];
      assert before + Trim(s) + after == [s[0]] + (inner + Trim(s) + after);
    } else {
      var last, inner := [s[|s| - 1]], "";
      before, inner := TrimCutsSpace(s[..|s| - 1]);
      after := inner + last;
      assert s == s[..|s| - 1] + last;
      assert before + Trim(s) + after == before + Trim(s) + inner + last;
    }
  }

  lemma {:induction false} TrimAllSpace(s: string)
    requires AllSpace(s)
    ensures Trim(s) == ""
  {
    if s != "" {
      TrimAllSpace(s[1..]);
    }
  }

  lemma {:induction false} TrimAfter(r: string, after: string)
    requires r != "" && Trimmed(r) && AllSpace(after)
    ensures Trim(r + after) == r
    decreases |after|
  {
    var s := r + after;
    if after == "" {
      assert s == r;
    } else {
      assert s[0] == r[0] && s[|s| - 1] == after[|after| - 1];
      assert s[..|s| - 1] == r + after[..|after| - 1];
      TrimAfter(r, after[..|after| - 1]);
    }
  }

  /** There is only one way to cut white space off a string until neither end is white space. */
  lemma {:induction false} TrimIsUnique(s: string, before: string, r: string, after: string)
    requires s == before + r + after && AllSpace(before) && AllSpace(after) && Trimmed(r)
    ensures Trim(s) == r
    decreases |before|
  {
    if r == "" {
      TrimAllSpace(s);
    } else if before == "" {
      assert s == r + after;
      TrimAfter(r, after);
    } else {
      assert s[0] == before[0];
      assert s[1..] == before[1..] + r + after;
      TrimIsUnique(s[1..], before[1..], r, after);
    }
  }

  /** Codes of tab, line feed, vertical tab, form feed, carriage return and space. */
  lemma SpaceCodes(s: string)
    ensures AllSpace(s) <==> forall i :: 0 <= i < |s| ==> 9 <= s[i] as int <= 13 || s[i] as int == 32
    ensures Trimmed(s) <==> s == "" || (!(9 <= s[0] as int <= 13 || s[0] as int == 32)
                                        && !(9 <= s[|s| - 1] as int <= 13 || s[|s| - 1] as int == 32))
  {
    assert forall c: char :: IsSpace(c) <==> 9 <= c as int <= 13 || c as int == 32;
  }

  /** The two loops. */
  method TrimString(s0: string) returns (s: string)
    ensures s == Trim(s0)
  {
    s := s0;
    var i := 0;
    while i < |s|
      invariant 0 <= i <= |s| && AllSpace(s[..i])
    {
      if !IsSpace(s[i]) {
        break;
      }
      i := i + 1;
    }
    ghost var before := s[..i];
    s := s[i..];
    assert s0 == before + s;
    i := |s| - 1;
    while i >= 0
      invariant -1 <= i < |s| && AllSpace(s[i + 1..])
    {
      if !IsSpace(s[i]) {
        break;
      }
      i := i - 1;
    }
    ghost var after := s[i + 1..];
    if i + 1 < |s| {
      s := s[..i + 1];
    }
    assert s0 == before + s + after;
    TrimIsUnique(s0, before, s, after);
  }
}
