/** Occurrences of a pattern in a sequence, and the split at its leftmost, non-overlapping ones. */
module LeftmostSplit {
  import opened Sequences

  predicate At<T(==)>(s: seq<T>, d: seq<T>, i: nat)
  {
    i + |d| <= |s| && s[i..i + |d|] == d
  }

  /** The first occurrence of d in s at or behind from; -1 when there is none. */
  function First<T(==)>(s: seq<T>, d: seq<T>, from: nat): (r: int)
    ensures r == -1 || (from <= r && At(s, d, r))
    ensures forall k: nat :: from <= k && At(s, d, k) ==> 0 <= r <= k
    decreases |s| - from
  {
    if |s| < from + |d| then -1 else if At(s, d, from) then from else First(s, d, from + 1)
  }

  /** The pieces of s behind position from that the occurrences of d separate. */
  function SplitFrom<T(==)>(s: seq<T>, d: seq<T>, from: nat): (parts: seq<seq<T>>)
    requires d != [] && from <= |s|
    ensures parts != []
    decreases |s| - from
  {
    var i := First(s, d, from);
    if i < 0 then [s[from..]] else [s[from..i]] + SplitFrom(s, d, i + |d|)
  }

  function Split<T(==)>(s: seq<T>, d: seq<T>): (parts: seq<seq<T>>)
    requires d != []
  {
    SplitFrom(s, d, 0)
  }

  /** The parts with d between each two of them. */
  function Join<T>(parts: seq<seq<T>>, d: seq<T>): (s: seq<T>)
    requires parts != []
  {
    if |parts| == 1 then parts[0] else parts[0] + d + Join(parts[1..], d)
  }

  /** Cut exactly where d first occurs: no part holds d, and d does not begin inside a part either. */
  ghost predicate Leftmost<T>(parts: seq<seq<T>>, d: seq<T>)
  {
    && parts != []
    && First(parts[|parts| - 1], d, 0) == -1
    && forall k :: 0 <= k < |parts| - 1 ==> First(parts[k] + d, d, 0) == |parts[k]|
  }

  /** Looking in a suffix is looking from a later position. */
  lemma {:induction false} FirstInSuffix<T>(s: seq<T>, d: seq<T>, p: nat, from: nat)
    requires p + from <= |s|
    ensures First(s, d, p + from) == (if First(s[p..], d, from) < 0 then -1 else p + First(s[p..], d, from))
    decreases |s| - from
  {
    assert |s[p..]| == |s| - p;
    if p + from + |d| <= |s| {
      assert s[p..][from..from + |d|] == s[p + from..p + from + |d|];
      if !At(s, d, p + from) {
        if p + from < |s| {
          FirstInSuffix(s, d, p, from + 1);
        }
      }
    }
  }

  lemma EndsInside<T>(s: seq<T>, d: seq<T>, i: nat)
    requires At(s, d, i)
    ensures i + |d| <= |s|
  {
  }

  lemma {:induction false} SplitOfSuffix<T>(s: seq<T>, d: seq<T>, p: nat)
    requires d != [] && p <= |s|
    ensures SplitFrom(s, d, p) == Split(s[p..], d)
    decreases |s| - p
  {
    hide First, At;
    FirstInSuffix(s, d, p, 0);
    var i := First(s, d, p);
    if 0 <= i {
      assert At(s, d, i);
      EndsInside(s, d, i);
      SplitOfSuffix(s, d, i + |d|);
      SplitOfSuffix(s[p..], d, i - p + |d|);
      assert s[p..][i - p + |d|..] == s[i + |d|..];
      assert s[p..][..i - p] == s[p..i];
    }
  }

  lemma FirstIs<T>(s: seq<T>, d: seq<T>, from: nat, i: nat)
    requires from <= i && At(s, d, i)
    requires forall k: nat :: from <= k < i ==> !At(s, d, k)
    ensures First(s, d, from) == i
  {
    assert First(s, d, from) <= i;
  }

  /** Where d first occurs in the joined parts. */
  lemma FirstInJoin<T>(part: seq<T>, d: seq<T>, rest: seq<T>)
    requires d != [] && First(part + d, d, 0) == |part|
    ensures First(part + d + rest, d, 0) == |part|
  {
    hide First;
    var s := part + d + rest;
    assert s[|part|..|part| + |d|] == d;
    forall k: nat | 0 <= k < |part|
      ensures !At(s, d, k)
    {
      SliceLeft(part + d, rest, k, k + |d|);
      assert !At(part + d, d, k);
    }
    FirstIs(s, d, 0, |part|);
  }

  /** One cut of the split. */
  lemma SplitAtFirst<T>(part: seq<T>, d: seq<T>, rest: seq<T>)
    requires d != [] && First(part + d, d, 0) == |part|
    ensures Split(part + d + rest, d) == [part] + Split(rest, d)
  {
    hide First;
    var s := part + d + rest;
    FirstInJoin(part, d, rest);
    SplitOfSuffix(s, d, |part| + |d|);
    assert s[|part| + |d|..] == rest;
    assert s[0..|part|] == part;
  }

  /** Splitting inverts joining: a leftmost list of parts is the split of what it joins to. */
  lemma {:induction false} SplitOfJoin<T>(parts: seq<seq<T>>, d: seq<T>)
    requires d != [] && Leftmost(parts, d)
    ensures Split(Join(parts, d), d) == parts
  {
    hide First;
    if |parts| == 1 {
      assert parts[0][0..] == parts[0];
    } else {
      LeftmostRest(parts, d);
      SplitOfJoin(parts[1..], d);
      SplitAtFirst(parts[0], d, Join(parts[1..], d));
      assert parts == [parts[0]] + parts[1..];
    }
  }

  lemma LeftmostRest<T>(parts: seq<seq<T>>, d: seq<T>)
    requires Leftmost(parts, d) && |parts| > 1
    ensures Leftmost(parts[1..], d) && First(parts[0] + d, d, 0) == |parts[0]|
  {
    hide First;
  }

  lemma LeftmostMore<T>(part: seq<T>, parts: seq<seq<T>>, d: seq<T>)
    requires Leftmost(parts, d) && First(part + d, d, 0) == |part|
    ensures Leftmost([part] + parts, d)
  {
    hide First;
    forall k | 0 <= k < |parts|
      ensures First(([part] + parts)[k] + d, d, 0) == |([part] + parts)[k]|
    {
      if k != 0 {
        assert ([part] + parts)[k] == parts[k - 1];
      }
    }
  }

  /** Joining inverts splitting, and the parts of a split are leftmost. */
  lemma {:induction false} JoinOfSplit<T>(s: seq<T>, d: seq<T>, from: nat)
    requires d != [] && from <= |s|
    ensures Join(SplitFrom(s, d, from), d) == s[from..]
    ensures Leftmost(SplitFrom(s, d, from), d)
    decreases |s| - from
  {
    hide First, Leftmost;
    var i := First(s, d, from);
    if 0 <= i {
      JoinOfSplit(s, d, i + |d|);
      var parts := SplitFrom(s, d, i + |d|);
      CutAtFirst(s, d, from, i);
      LeftmostMore(s[from..i], parts, d);
      assert ([s[from..i]] + parts)[1..] == parts;
      assert s[from..] == s[from..i] + d + s[i + |d|..];
    } else {
      WholeRest(s, d, from);
    }
  }

  lemma WholeRest<T>(s: seq<T>, d: seq<T>, from: nat)
    requires from <= |s| && First(s, d, from) < 0
    ensures Leftmost([s[from..]], d)
  {
    FirstInSuffix(s, d, from, 0);
  }

  lemma AtInSlice<T>(s: seq<T>, d: seq<T>, lo: nat, hi: nat, k: nat)
    requires lo <= hi <= |s| && k + |d| <= hi - lo
    ensures At(s[lo..hi], d, k) <==> At(s, d, lo + k)
  {
    SliceOfSlice(s, lo, hi, k, k + |d|);
  }

  lemma UpToOccurrence<T>(s: seq<T>, d: seq<T>, from: nat, i: nat)
    requires from <= i && At(s, d, i)
    ensures s[from..i + |d|] == s[from..i] + d
  {
    SlicesJoin(s, from, i, i + |d|);
  }

  lemma CutAtFirst<T>(s: seq<T>, d: seq<T>, from: nat, i: nat)
    requires d != [] && First(s, d, from) == i
    ensures from <= i && At(s, d, i) && First(s[from..i] + d, d, 0) == i - from
  {
    hide First;
    UpToOccurrence(s, d, from, i);
    FirstOfSlice(s, d, from, i);
  }

  lemma FirstOfSlice<T>(s: seq<T>, d: seq<T>, from: nat, i: nat)
    requires from <= i && i + |d| <= |s| && At(s, d, i)
    requires forall k: nat :: from <= k < i ==> !At(s, d, k)
    ensures First(s[from..i + |d|], d, 0) == i - from
  {
    hide First, At;
    var t := s[from..i + |d|];
    forall k: nat | 0 <= k < i - from
      ensures !At(t, d, k)
    {
      AtInSlice(s, d, from, i + |d|, k);
    }
    AtInSlice(s, d, from, i + |d|, i - from);
    FirstIs(t, d, 0, i - from);
  }
}
