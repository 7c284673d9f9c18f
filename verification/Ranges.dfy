/** Half-open ranges of indices, and lists of them as sets. */
module Ranges {

  datatype Range = Range(startElement: nat, numElements: nat) {
    function EndElement(): nat { startElement + numElements }

    predicate Contains(x: nat) { startElement <= x < EndElement() }

    predicate Empty() { numElements == 0 }

    predicate ContainsAll(start: nat, count: nat)
    {
      count == 0 || (Contains(start) && Contains(start + count - 1))
    }

    predicate Overlaps(rhs: Range)
    {
      EndElement() > rhs.startElement && startElement < rhs.EndElement()
    }

    predicate Touches(rhs: Range)
    {
      !Empty() && !rhs.Empty() && (startElement == rhs.EndElement() || rhs.startElement == EndElement())
    }

    /** The range that two overlapping ranges share. */
    function Overlap(rhs: Range): (r: Range)
      requires Overlaps(rhs)
      ensures forall x: nat :: r.Contains(x) <==> Contains(x) && rhs.Contains(x)
    {
      var start := Max(startElement, rhs.startElement);
      Range(start, Min(EndElement(), rhs.EndElement()) - start)
    }

    ghost function Points(): (s: set<nat>)
      ensures forall x :: x in s <==> Contains(x)
    {
      set x: nat | x < EndElement() && Contains(x)
    }
  }

  function Min(a: nat, b: nat): nat { if b < a then b else a }

  function Max(a: nat, b: nat): nat { if a < b then b else a }

  /** Some range from index lo up to hi contains the point. */
  ghost predicate Has(ranges: seq<Range>, lo: int, hi: int, x: nat)
  {
    exists k :: 0 <= lo <= k < hi <= |ranges| && ranges[k].Contains(x)
  }

  /** Ranges in ascending order with a gap between any two, and none of them empty. */
  predicate Canonical(ranges: seq<Range>)
  {
    && (forall i :: 0 <= i < |ranges| ==> !ranges[i].Empty())
    && (forall i, j :: 0 <= i < j < |ranges| ==> ranges[i].EndElement() < ranges[j].startElement)
  }

  /** The set that a list of ranges stands for. */
  ghost function Elements(ranges: seq<Range>): (s: set<nat>)
    ensures forall x :: x in s <==> Has(ranges, 0, |ranges|, x)
  {
    if ranges == [] then {}
    else
      var n := |ranges| - 1;
      var before := Elements(ranges[..n]);
      assert forall x: nat :: Has(ranges, 0, |ranges|, x) ==> Has(ranges[..n], 0, n, x) || ranges[n].Contains(x) by {
        forall x: nat | Has(ranges, 0, |ranges|, x)
          ensures Has(ranges[..n], 0, n, x) || ranges[n].Contains(x)
        {
          var k :| 0 <= k < |ranges| && ranges[k].Contains(x);
          if k < n {
            assert ranges[..n][k].Contains(x);
          }
        }
      }
      assert forall x: nat :: Has(ranges[..n], 0, n, x) ==> Has(ranges, 0, |ranges|, x) by {
        forall x: nat | Has(ranges[..n], 0, n, x)
          ensures Has(ranges, 0, |ranges|, x)
        {
          var k :| 0 <= k < n && ranges[..n][k].Contains(x);
          assert ranges[k].Contains(x);
        }
      }
      before + ranges[n].Points()
  }

  function TotalNumElements(ranges: seq<Range>): nat
  {
    if ranges == [] then 0 else TotalNumElements(ranges[..|ranges| - 1]) + ranges[|ranges| - 1].numElements
  }

  lemma {:induction false} PointsCount(r: Range)
    ensures |r.Points()| == r.numElements
    decreases r.numElements
  {
    if r.numElements == 0 {
      assert r.Points() == {};
    } else {
      var fewer := Range(r.startElement, r.numElements - 1);
      PointsCount(fewer);
      var last := r.EndElement() - 1;
      assert last !in fewer.Points();
      forall x: nat
        ensures x in r.Points() <==> x in fewer.Points() + {last}
      {
        assert r.Contains(x) <==> fewer.Contains(x) || x == last;
      }
      assert r.Points() == fewer.Points() + {last};
    }
  }

  /** The ranges of a canonical list share no points: the sum of their lengths is the size of the set. */
  lemma {:induction false} ElementsCount(ranges: seq<Range>)
    requires Canonical(ranges)
    ensures |Elements(ranges)| == TotalNumElements(ranges)
  {
    if ranges != [] {
      var n := |ranges| - 1;
      ElementsCount(ranges[..n]);
      PointsCount(ranges[n]);
      forall x | x in Elements(ranges[..n])
        ensures x !in ranges[n].Points()
      {
        var k :| 0 <= k < n && ranges[..n][k].Contains(x);
        assert ranges[k].EndElement() < ranges[n].startElement;
      }
    }
  }

  /** The last point of a canonical list. */
  lemma LastPoint(ranges: seq<Range>)
    requires Canonical(ranges) && ranges != []
    ensures ranges[|ranges| - 1].EndElement() - 1 in Elements(ranges)
    ensures forall x :: x in Elements(ranges) ==> x <= ranges[|ranges| - 1].EndElement() - 1
  {
    var n := |ranges| - 1;
    assert ranges[n].Contains(ranges[n].EndElement() - 1);
    forall x | x in Elements(ranges)
      ensures x <= ranges[n].EndElement() - 1
    {
      var k :| 0 <= k <= n && ranges[k].Contains(x);
    }
  }

  /** Where the last range of a canonical list begins: just behind a gap. */
  lemma LastGap(ranges: seq<Range>, x: nat)
    requires Canonical(ranges) && ranges != []
    ensures var last := ranges[|ranges| - 1];
            && (last.startElement <= x < last.EndElement() ==> x in Elements(ranges))
            && (x + 1 == last.startElement ==> x !in Elements(ranges))
  {
    var n := |ranges| - 1;
    if ranges[n].Contains(x) {
      assert Has(ranges, 0, |ranges|, x);
    }
    if x + 1 == ranges[n].startElement {
      forall k | 0 <= k < |ranges|
        ensures !ranges[k].Contains(x)
      {
        assert k < n ==> ranges[k].EndElement() < ranges[n].startElement;
      }
    }
  }

  lemma LastPoints(ranges: seq<Range>)
    requires Canonical(ranges) && ranges != []
    ensures Elements(ranges[..|ranges| - 1]) == Elements(ranges) - ranges[|ranges| - 1].Points()
  {
    var n := |ranges| - 1;
    forall x | x in Elements(ranges[..n])
      ensures x !in ranges[n].Points()
    {
      var k :| 0 <= k < n && ranges[..n][k].Contains(x);
      assert ranges[k].EndElement() < ranges[n].startElement;
    }
  }

  /** Canonical lists of the same set end with the same range. */
  lemma LastRangeSame(a: seq<Range>, b: seq<Range>)
    requires Canonical(a) && Canonical(b) && Elements(a) == Elements(b) && a != [] && b != []
    ensures a[|a| - 1] == b[|b| - 1]
  {
    hide Elements, Canonical;
    var x, y := a[|a| - 1], b[|b| - 1];
    LastPoint(a);
    LastPoint(b);
    NotEmpty(a);
    NotEmpty(b);
    assert x.EndElement() == y.EndElement();
    if x.startElement < y.startElement {
      var gap: nat := y.startElement - 1;
      LastGap(a, gap);
      LastGap(b, gap);
    } else if y.startElement < x.startElement {
      var gap: nat := x.startElement - 1;
      LastGap(a, gap);
      LastGap(b, gap);
    }
  }

  lemma NotEmpty(ranges: seq<Range>)
    requires Canonical(ranges) && ranges != []
    ensures 0 < ranges[|ranges| - 1].numElements && Elements(ranges) != {} && Canonical(ranges[..|ranges| - 1])
  {
    LastPoint(ranges);
  }

  /** A set has only one canonical list. */
  lemma {:induction false} CanonicalIsUnique(a: seq<Range>, b: seq<Range>)
    requires Canonical(a) && Canonical(b) && Elements(a) == Elements(b)
    ensures a == b
    decreases |a|
  {
    hide Elements, Canonical;
    if a == [] || b == [] {
      BothEmpty(a, b);
    } else {
      NotEmpty(a);
      NotEmpty(b);
      LastRangeSame(a, b);
      LastPoints(a);
      LastPoints(b);
      CanonicalIsUnique(a[..|a| - 1], b[..|b| - 1]);
      assert a == a[..|a| - 1] + [a[|a| - 1]];
      assert b == b[..|b| - 1] + [b[|b| - 1]];
    }
  }

  lemma BothEmpty(a: seq<Range>, b: seq<Range>)
    requires Canonical(a) && Canonical(b) && Elements(a) == Elements(b) && (a == [] || b == [])
    ensures a == b
  {
    if a != [] {
      NotEmpty(a);
    } else if b != [] {
      NotEmpty(b);
    }
  }
}
