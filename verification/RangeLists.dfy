/** A set of indices kept as the sorted list of its ranges. */
module RangeLists {
  import opened Ranges

  // ----- Facts about lists that grow at the back or lose their front -----

  lemma ElementsPush(ranges: seq<Range>, r: Range)
    ensures Elements(ranges + [r]) == Elements(ranges) + r.Points()
  {
    assert (ranges + [r])[..|ranges|] == ranges;
  }

  lemma ElementsNext(ranges: seq<Range>, i: nat)
    requires i < |ranges|
    ensures Elements(ranges[..i + 1]) == Elements(ranges[..i]) + ranges[i].Points()
  {
    assert ranges[..i + 1] == ranges[..i] + [ranges[i]];
    ElementsPush(ranges[..i], ranges[i]);
  }

  lemma ElementsFront(ranges: seq<Range>, i: nat)
    requires i < |ranges|
    ensures Elements(ranges[i..]) == ranges[i].Points() + Elements(ranges[i + 1..])
  {
    forall x: nat
      ensures x in Elements(ranges[i..]) <==> ranges[i].Contains(x) || x in Elements(ranges[i + 1..])
    {
      if x in Elements(ranges[i..]) {
        var k :| 0 <= k < |ranges| - i && ranges[i..][k].Contains(x);
        if k != 0 {
          assert ranges[i + 1..][k - 1].Contains(x);
        }
      }
      if ranges[i].Contains(x) {
        assert ranges[i..][0].Contains(x);
      } else if x in Elements(ranges[i + 1..]) {
        var k :| 0 <= k < |ranges| - (i + 1) && ranges[i + 1..][k].Contains(x);
        assert ranges[i..][k + 1].Contains(x);
      }
    }
  }

  /** All ranges of a canonical list behind index i lie behind range i. */
  lemma Behind(ranges: seq<Range>, i: nat, x: nat)
    requires Canonical(ranges) && i < |ranges| && x in Elements(ranges[i + 1..])
    ensures ranges[i].EndElement() < x
  {
    var k :| 0 <= k < |ranges| - (i + 1) && ranges[i + 1..][k].Contains(x);
    assert ranges[i].EndElement() < ranges[i + 1 + k].startElement;
  }

  /** Every range ends before the bound. */
  predicate Below(ranges: seq<Range>, bound: int)
  {
    forall k :: 0 <= k < |ranges| ==> ranges[k].EndElement() < bound
  }

  lemma CanonicalPush(ranges: seq<Range>, r: Range)
    requires Canonical(ranges) && Below(ranges, r.startElement) && !r.Empty()
    ensures Canonical(ranges + [r])
  {
  }

  /** Two ranges that overlap or touch make one range of all their points. */
  lemma MergedPoints(a: Range, b: Range)
    requires a.Overlaps(b) || a.Touches(b)
    ensures Merged(a, b).Points() == a.Points() + b.Points()
  {
    forall x: nat
      ensures Merged(a, b).Contains(x) <==> a.Contains(x) || b.Contains(x)
    {
    }
  }

  function Merged(a: Range, b: Range): Range
  {
    var start := Min(a.startElement, b.startElement);
    Range(start, Max(a.EndElement(), b.EndElement()) - start)
  }

  // ----- Inserting -----

  /** The new list holds the inserted range and the ranges up to ii; those from ii on are yet to come. */
  ghost predicate Merging(newList: seq<Range>, ranges: seq<Range>, ii: nat, range: Range)
  {
    && Canonical(ranges) && ii <= |ranges|
    && newList != [] && Canonical(newList)
    && (forall m :: ii <= m < |ranges| ==> Below(newList[..|newList| - 1], ranges[m].startElement))
    && (forall m :: ii <= m < |ranges| ==> newList[|newList| - 1].startElement <= ranges[m].EndElement())
    && Elements(newList) == Elements(ranges[..ii]) + range.Points()
  }

  lemma MergingBegins(ranges: seq<Range>, ii: nat, range: Range)
    requires Canonical(ranges) && ii <= |ranges| && !range.Empty()
    requires Below(ranges[..ii], range.startElement)
    requires ii < |ranges| ==> range.startElement <= ranges[ii].EndElement()
    ensures Merging(ranges[..ii] + [range], ranges, ii, range)
  {
    var newList := ranges[..ii] + [range];
    CanonicalPush(ranges[..ii], range);
    ElementsPush(ranges[..ii], range);
    assert newList[..ii] == ranges[..ii];
    forall m | ii <= m < |ranges|
      ensures range.startElement <= ranges[m].EndElement()
    {
      assert ii < m ==> ranges[ii].EndElement() < ranges[m].startElement;
    }
  }

  /** The back range and the next old range become one. */
  lemma MergingMerges(newList: seq<Range>, ranges: seq<Range>, ii: nat, range: Range)
    requires Merging(newList, ranges, ii, range) && ii < |ranges|
    requires newList[|newList| - 1].Overlaps(ranges[ii]) || newList[|newList| - 1].Touches(ranges[ii])
    ensures Merging(newList[|newList| - 1 := Merged(newList[|newList| - 1], ranges[ii])], ranges, ii + 1, range)
  {
    MergingParts(newList, ranges, ii, range);
    hide *;
    var n := |newList| - 1;
    var before, back, following := newList[..n], newList[n], ranges[ii];
    assert newList[n := Merged(back, following)] == before + [Merged(back, following)];
    MergedPoints(back, following);
    ElementsNext(ranges, ii);
    MergedBehind(before, back, following);
    MergedBefore(back, following, ranges, ii);
    UnionMoves(Elements(before), back.Points(), Elements(ranges[..ii]), range.Points(), following.Points());
    MergingFrom(before, Merged(back, following), ranges, ii + 1, range);
  }

  lemma UnionMoves(a: set<nat>, b: set<nat>, c: set<nat>, d: set<nat>, more: set<nat>)
    requires a + b == c + d
    ensures a + (b + more) == (c + more) + d
  {
  }

  /** The list apart from its back range. */
  lemma MergingParts(newList: seq<Range>, ranges: seq<Range>, ii: nat, range: Range)
    requires Merging(newList, ranges, ii, range)
    ensures Canonical(ranges) && ii <= |ranges| && newList != []
    ensures var before, back := newList[..|newList| - 1], newList[|newList| - 1];
            && Canonical(before) && Below(before, back.startElement) && !back.Empty()
            && (forall m :: ii <= m < |ranges| ==> Below(before, ranges[m].startElement) && !ranges[m].Empty())
            && (forall m :: ii <= m < |ranges| ==> back.startElement <= ranges[m].EndElement())
            && Elements(before) + back.Points() == Elements(ranges[..ii]) + range.Points()
  {
    hide Elements;
    var n := |newList| - 1;
    assert newList == newList[..n] + [newList[n]];
    ElementsPush(newList[..n], newList[n]);
  }

  lemma MergingFrom(before: seq<Range>, back: Range, ranges: seq<Range>, ii: nat, range: Range)
    requires Canonical(ranges) && ii <= |ranges|
    requires Canonical(before) && Below(before, back.startElement) && !back.Empty()
    requires forall m :: ii <= m < |ranges| ==> Below(before, ranges[m].startElement)
    requires forall m :: ii <= m < |ranges| ==> back.startElement <= ranges[m].EndElement()
    requires Elements(before) + back.Points() == Elements(ranges[..ii]) + range.Points()
    ensures Merging(before + [back], ranges, ii, range)
  {
    hide Elements;
    CanonicalPush(before, back);
    ElementsPush(before, back);
    assert (before + [back])[..|before|] == before;
  }

  lemma MergedBehind(before: seq<Range>, back: Range, following: Range)
    requires Below(before, back.startElement) && Below(before, following.startElement) && !back.Empty()
    ensures Below(before, Merged(back, following).startElement) && !Merged(back, following).Empty()
  {
  }

  lemma MergedBefore(back: Range, following: Range, ranges: seq<Range>, ii: nat)
    requires ii < |ranges| && following == ranges[ii]
    requires forall m :: ii <= m < |ranges| ==> back.startElement <= ranges[m].EndElement()
    ensures forall m :: ii < m < |ranges| ==> Merged(back, following).startElement <= ranges[m].EndElement()
  {
  }

  /** The next range lies behind the back range. */
  lemma MergingPushes(newList: seq<Range>, ranges: seq<Range>, ii: nat, range: Range)
    requires Merging(newList, ranges, ii, range) && ii < |ranges|
    requires !newList[|newList| - 1].Overlaps(ranges[ii]) && !newList[|newList| - 1].Touches(ranges[ii])
    ensures Merging(newList + [ranges[ii]], ranges, ii + 1, range)
  {
    hide Elements;
    var n := |newList| - 1;
    var back, following := newList[n], ranges[ii];
    assert back.EndElement() < following.startElement;
    assert newList == newList[..n] + [back];
    assert Below(newList, following.startElement);
    CanonicalPush(newList, following);
    ElementsPush(newList, following);
    ElementsNext(ranges, ii);
    assert (newList + [following])[..|newList|] == newList;
  }

  // ----- Removing -----

  /** What is left of a range without the part that it shares with another. */
  method Difference(orig: Range, overlap: Range) returns (result: seq<Range>)
    requires !orig.Empty() && !overlap.Empty()
    requires orig.startElement <= overlap.startElement && overlap.EndElement() <= orig.EndElement()
    ensures Canonical(result)
    ensures Elements(result) == orig.Points() - overlap.Points()
    ensures forall k :: 0 <= k < |result| ==>
      orig.startElement <= result[k].startElement && result[k].EndElement() <= orig.EndElement()
  {
    hide Elements;
    result := [];
    NoElements();
    DifferencePoints(orig, overlap);
    if overlap.ContainsAll(orig.startElement, orig.numElements) {
      return;
    }
    if orig.startElement < overlap.startElement {
      var left := Range(orig.startElement, overlap.startElement - orig.startElement);
      ElementsPush(result, left);
      result := result + [left];
    }
    if orig.EndElement() > overlap.EndElement() {
      var right := Range(overlap.EndElement(), orig.EndElement() - overlap.EndElement());
      ElementsPush(result, right);
      result := result + [right];
    }
  }

  /** What is left of a range lies before the shared part, or behind it. */
  lemma DifferencePoints(orig: Range, overlap: Range)
    requires !orig.Empty() && !overlap.Empty()
    requires orig.startElement <= overlap.startElement && overlap.EndElement() <= orig.EndElement()
    ensures var left := Range(orig.startElement, overlap.startElement - orig.startElement);
            var right := Range(overlap.EndElement(), orig.EndElement() - overlap.EndElement());
            && orig.Points() - overlap.Points() == left.Points() + right.Points()
            && (left.Empty() ==> left.Points() == {}) && (right.Empty() ==> right.Points() == {})
            && (overlap.ContainsAll(orig.startElement, orig.numElements) ==>
                left.Points() == {} && right.Points() == {})
  {
    var left := Range(orig.startElement, overlap.startElement - orig.startElement);
    var right := Range(overlap.EndElement(), orig.EndElement() - overlap.EndElement());
    forall x: nat
      ensures orig.Contains(x) && !overlap.Contains(x) <==> left.Contains(x) || right.Contains(x)
    {
    }
  }

  lemma CanonicalAppend(a: seq<Range>, b: seq<Range>)
    requires Canonical(a) && Canonical(b)
    requires forall k :: 0 <= k < |b| ==> Below(a, b[k].startElement)
    ensures Canonical(a + b)
  {
  }

  lemma {:induction false} ElementsAppend(a: seq<Range>, b: seq<Range>)
    ensures Elements(a + b) == Elements(a) + Elements(b)
  {
    hide Elements;
    if b == [] {
      assert a + b == a;
      NoElements();
    } else {
      var n := |b| - 1;
      ElementsAppend(a, b[..n]);
      ElementsPush(a + b[..n], b[n]);
      ElementsPush(b[..n], b[n]);
      assert a + b == a + b[..n] + [b[n]] && b == b[..n] + [b[n]];
    }
  }

  lemma NoElements()
    ensures Elements([]) == {}
  {
  }

  /** The new list holds what is left of the ranges up to ii. */
  ghost predicate Removing(newList: seq<Range>, ranges: seq<Range>, ii: nat, range: Range)
  {
    && Canonical(ranges) && ii <= |ranges| && Canonical(newList)
    && (forall m :: ii <= m < |ranges| ==> Below(newList, ranges[m].startElement))
    && Elements(newList) == Elements(ranges[..ii]) - range.Points()
  }

  lemma RemovingBegins(ranges: seq<Range>, range: Range)
    requires Canonical(ranges)
    ensures Removing([], ranges, 0, range)
  {
  }

  lemma NoneEmpty(newList: seq<Range>, ranges: seq<Range>, ii: nat, range: Range)
    requires Removing(newList, ranges, ii, range) && ii < |ranges|
    ensures !ranges[ii].Empty()
  {
  }

  lemma RemovingEnds(newList: seq<Range>, ranges: seq<Range>, range: Range)
    requires Removing(newList, ranges, |ranges|, range)
    ensures Canonical(newList) && Elements(newList) == Elements(ranges) - range.Points()
  {
    assert ranges[..|ranges|] == ranges;
  }

  lemma RemovingNext(newList: seq<Range>, ranges: seq<Range>, ii: nat, range: Range, pieces: seq<Range>)
    requires Removing(newList, ranges, ii, range) && ii < |ranges|
    requires Canonical(pieces) && Elements(pieces) == ranges[ii].Points() - range.Points()
    requires forall k :: 0 <= k < |pieces| ==>
               ranges[ii].startElement <= pieces[k].startElement && pieces[k].EndElement() <= ranges[ii].EndElement()
    ensures Removing(newList + pieces, ranges, ii + 1, range)
  {
    hide *;
    RemovingParts(newList, ranges, ii, range);
    ElementsAppend(newList, pieces);
    ElementsNext(ranges, ii);
    UnionLess(Elements(newList), Elements(pieces), Elements(ranges[..ii]), ranges[ii].Points(), range.Points());
    StaysCanonical(newList, ranges, ii, range, pieces);
    StaysBelow(newList, ranges, ii, pieces);
    RemovingFrom(newList + pieces, ranges, ii + 1, range);
  }

  lemma UnionLess(a: set<nat>, b: set<nat>, c: set<nat>, d: set<nat>, less: set<nat>)
    requires a == c - less && b == d - less
    ensures a + b == (c + d) - less
  {
  }

  lemma RemovingParts(newList: seq<Range>, ranges: seq<Range>, ii: nat, range: Range)
    requires Removing(newList, ranges, ii, range)
    ensures Canonical(ranges) && ii <= |ranges| && Elements(newList) == Elements(ranges[..ii]) - range.Points()
    ensures forall m :: ii <= m < |ranges| ==> Below(newList, ranges[m].startElement)
  {
  }

  lemma RemovingFrom(newList: seq<Range>, ranges: seq<Range>, ii: nat, range: Range)
    requires Canonical(ranges) && ii <= |ranges| && Canonical(newList)
    requires Elements(newList) == Elements(ranges[..ii]) - range.Points()
    requires forall m :: ii <= m < |ranges| ==> Below(newList, ranges[m].startElement)
    ensures Removing(newList, ranges, ii, range)
  {
  }

  lemma StaysBelow(newList: seq<Range>, ranges: seq<Range>, ii: nat, pieces: seq<Range>)
    requires Canonical(ranges) && ii < |ranges|
    requires forall m :: ii <= m < |ranges| ==> Below(newList, ranges[m].startElement)
    requires forall k :: 0 <= k < |pieces| ==> pieces[k].EndElement() <= ranges[ii].EndElement()
    ensures forall m :: ii + 1 <= m < |ranges| ==> Below(newList + pieces, ranges[m].startElement)
  {
    hide Canonical;
    forall m | ii + 1 <= m < |ranges|
      ensures Below(newList + pieces, ranges[m].startElement)
    {
      InOrder(ranges, ii, m);
      BelowAppend(newList, pieces, ranges[ii].EndElement(), ranges[m].startElement);
    }
  }

  lemma InOrder(ranges: seq<Range>, i: nat, j: nat)
    requires Canonical(ranges) && i < j < |ranges|
    ensures ranges[i].EndElement() < ranges[j].startElement
  {
  }

  lemma StaysCanonical(newList: seq<Range>, ranges: seq<Range>, ii: nat, range: Range, pieces: seq<Range>)
    requires Removing(newList, ranges, ii, range) && ii < |ranges| && Canonical(pieces)
    requires forall k :: 0 <= k < |pieces| ==> ranges[ii].startElement <= pieces[k].startElement
    ensures Canonical(newList + pieces)
  {
    hide Elements;
    assert Below(newList, ranges[ii].startElement);
    CanonicalAppend(newList, pieces);
  }

  lemma BelowAppend(a: seq<Range>, b: seq<Range>, end: int, bound: int)
    requires Below(a, bound) && end < bound && forall k :: 0 <= k < |b| ==> b[k].EndElement() <= end
    ensures Below(a + b, bound)
  {
  }

  // ----- Intersecting -----

  /** All shared points are in the output, or among the ranges that are left on both sides. */
  ghost predicate Intersecting(output: set<nat>, a: seq<Range>, b: seq<Range>, ia: nat, ib: nat)
  {
    && Canonical(a) && Canonical(b) && ia <= |a| && ib <= |b|
    && output <= Elements(a) * Elements(b)
    && Elements(a) * Elements(b) <= output + Elements(a[ia..]) * Elements(b[ib..])
  }

  lemma IntersectingBegins(a: seq<Range>, b: seq<Range>)
    requires Canonical(a) && Canonical(b)
    ensures Intersecting({}, a, b, 0, 0)
  {
    assert a[0..] == a && b[0..] == b;
  }

  lemma IntersectingEnds(output: set<nat>, a: seq<Range>, b: seq<Range>, ia: nat, ib: nat)
    requires Intersecting(output, a, b, ia, ib) && (ia == |a| || ib == |b|)
    ensures output == Elements(a) * Elements(b)
  {
    NoElements();
    assert a[|a|..] == [] && b[|b|..] == [];
  }

  lemma Suffix(ranges: seq<Range>, i: nat, x: nat)
    requires i <= |ranges| && x in Elements(ranges[i..])
    ensures x in Elements(ranges)
  {
    var k :| 0 <= k < |ranges| - i && ranges[i..][k].Contains(x);
    assert ranges[i + k].Contains(x);
  }

  /** Of two ranges the one that ends first has nothing more to share than what the two share. */
  lemma FirstToEnd(a: seq<Range>, b: seq<Range>, ia: nat, ib: nat, x: nat)
    requires Canonical(a) && Canonical(b) && ia < |a| && ib < |b|
    requires x in Elements(a[ia..]) && x in Elements(b[ib..])
    ensures (a[ia].Contains(x) && b[ib].Contains(x))
         || (if a[ia].EndElement() < b[ib].EndElement() then x in Elements(a[ia + 1..]) else x in Elements(b[ib + 1..]))
  {
    hide Elements;
    ElementsFront(a, ia);
    ElementsFront(b, ib);
    if x in Elements(a[ia + 1..]) {
      Behind(a, ia, x);
    }
    if x in Elements(b[ib + 1..]) {
      Behind(b, ib, x);
    }
  }

  lemma IntersectingNext(output: set<nat>, shared: set<nat>, a: seq<Range>, b: seq<Range>, ia: nat, ib: nat)
    requires Intersecting(output, a, b, ia, ib) && ia < |a| && ib < |b|
    requires shared == a[ia].Points() * b[ib].Points()
    ensures if a[ia].EndElement() < b[ib].EndElement() then Intersecting(output + shared, a, b, ia + 1, ib)
            else Intersecting(output + shared, a, b, ia, ib + 1)
  {
    hide Elements;
    ElementsFront(a, ia);
    ElementsFront(b, ib);
    forall x | x in shared
      ensures x in Elements(a) && x in Elements(b)
    {
      Suffix(a, ia, x);
      Suffix(b, ib, x);
    }
    forall x | x in Elements(a[ia..]) && x in Elements(b[ib..])
      ensures x in shared
           || (if a[ia].EndElement() < b[ib].EndElement() then x in Elements(a[ia + 1..])
               else x in Elements(b[ib + 1..]))
    {
      FirstToEnd(a, b, ia, ib, x);
    }
  }

  // ----- Expanding -----

  /** Some point of the set is at most e away. */
  ghost predicate Near(s: set<nat>, e: nat, y: nat)
  {
    exists x :: x in s && x <= y + e && y <= x + e
  }

  function Widened(r: Range, expansion: nat, maxEndElement: nat): Range
    requires r.startElement <= maxEndElement + expansion
  {
    var start := if r.startElement >= expansion then r.startElement - expansion else 0;
    Range(start, Min(r.EndElement() + expansion, maxEndElement) - start)
  }

  lemma WidenedIsNear(r: Range, e: nat, max: nat, y: nat)
    requires !r.Empty() && r.startElement <= max + e
    ensures Widened(r, e, max).Contains(y) <==> y < max && Near(r.Points(), e, y)
  {
    if Widened(r, e, max).Contains(y) {
      var x := if y < r.startElement then r.startElement else if r.EndElement() <= y then r.EndElement() - 1 else y;
      assert r.Contains(x);
    }
  }

  lemma NearUnion(s: set<nat>, t: set<nat>, e: nat, y: nat)
    ensures Near(s + t, e, y) <==> Near(s, e, y) || Near(t, e, y)
  {
    if Near(s + t, e, y) {
      var x :| x in s + t && x <= y + e && y <= x + e;
      assert x in s || x in t;
    }
    if Near(s, e, y) {
      var x :| x in s && x <= y + e && y <= x + e;
      assert x in s + t;
    }
    if Near(t, e, y) {
      var x :| x in t && x <= y + e && y <= x + e;
      assert x in s + t;
    }
  }

  /** Exactly the points below max within distance e of the set. */
  ghost predicate IsExpansion(after: set<nat>, before: set<nat>, e: nat, max: nat)
  {
    forall y: nat :: y in after <==> y < max && Near(before, e, y)
  }

  lemma ExpansionNext(after: set<nat>, before: set<nat>, r: Range, e: nat, max: nat)
    requires IsExpansion(after, before, e, max) && !r.Empty() && r.startElement <= max + e
    ensures IsExpansion(after + Widened(r, e, max).Points(), before + r.Points(), e, max)
  {
    forall y: nat
      ensures y in after + Widened(r, e, max).Points() <==> y < max && Near(before + r.Points(), e, y)
    {
      WidenedIsNear(r, e, max, y);
      NearUnion(before, r.Points(), e, y);
    }
  }

  /** Leaving the set as it is expands it by nothing exactly when it lies below max. */
  lemma NoExpansion(ranges: seq<Range>, max: nat)
    requires Canonical(ranges)
    ensures IsExpansion(Elements(ranges), Elements(ranges), 0, max)
            <==> forall k :: 0 <= k < |ranges| ==> ranges[k].EndElement() <= max
  {
    if forall k :: 0 <= k < |ranges| ==> ranges[k].EndElement() <= max {
      forall y: nat
        ensures y in Elements(ranges) <==> y < max && Near(Elements(ranges), 0, y)
      {
        if y in Elements(ranges) {
          var k :| 0 <= k < |ranges| && ranges[k].Contains(y);
        }
      }
    } else {
      var k :| 0 <= k < |ranges| && ranges[k].EndElement() > max;
      var y := ranges[k].EndElement() - 1;
      assert ranges[k].Contains(y);
      assert y in Elements(ranges);
    }
  }

  class RangeList {
    var rangeList: seq<Range>

    constructor ()
      ensures rangeList == []
    {
      rangeList := [];
    }

    ghost predicate Valid()
      reads this
    {
      Canonical(rangeList)
    }

    /** The set that the list stands for. */
    ghost function Contents(): set<nat>
      reads this
    {
      Elements(rangeList)
    }

    method GetTotalNumElements() returns (count: nat)
      requires Valid()
      ensures count == |Contents()|
    {
      count := 0;
      var i: nat := 0;
      while i < |rangeList|
        invariant i <= |rangeList| && count == TotalNumElements(rangeList[..i])
      {
        assert rangeList[..i + 1][..i] == rangeList[..i];
        count := count + rangeList[i].numElements;
        i := i + 1;
      }
      assert rangeList[..i] == rangeList;
      ElementsCount(rangeList);
    }

    method Insert(range: Range)
      requires Valid()
      modifies this
      ensures Valid() && Contents() == old(Contents()) + range.Points()
    {
      hide Elements, Merging, Merged;
      if range.Empty() {
        assert range.Points() == {};
        return;
      }
      if |rangeList| == 0 {
        ElementsPush(rangeList, range);
        rangeList := rangeList + [range];
        return;
      }
      var newList := [];
      var ii: nat := 0;
      while ii < |rangeList|
        invariant ii <= |rangeList| && newList == rangeList[..ii] && Below(newList, range.startElement)
      {
        if rangeList[ii].EndElement() < range.startElement {
          newList := newList + [rangeList[ii]];
        } else {
          break;
        }
        ii := ii + 1;
      }
      newList := newList + [range];
      MergingBegins(rangeList, ii, range);
      newList := MergeRest(newList, ii, range);
      rangeList := newList;
    }

    /** The second loop: the inserted range swallows what it overlaps or touches. */
    method MergeRest(newList0: seq<Range>, ii0: nat, ghost range: Range) returns (newList: seq<Range>)
      requires Merging(newList0, rangeList, ii0, range)
      ensures Canonical(newList) && Elements(newList) == Contents() + range.Points()
    {
      hide Elements, Canonical;
      newList := newList0;
      var ii := ii0;
      while ii < |rangeList|
        invariant ii <= |rangeList| && Merging(newList, rangeList, ii, range)
      {
        newList := MergeNext(newList, rangeList, ii, range);
        ii := ii + 1;
      }
      assert rangeList[..ii] == rangeList;
    }

    method Remove(range: Range)
      requires Valid()
      modifies this
      ensures Valid() && Contents() == old(Contents()) - range.Points()
    {
      hide Elements, Removing, Canonical;
      if range.Empty() {
        assert Contents() - range.Points() == Contents();
        return;
      }
      var newList := [];
      RemovingBegins(rangeList, range);
      var ii: nat := 0;
      while ii < |rangeList|
        invariant rangeList == old(rangeList) && ii <= |rangeList| && Removing(newList, rangeList, ii, range)
      {
        NoneEmpty(newList, rangeList, ii, range);
        var pieces := Without(rangeList[ii], range);
        RemovingNext(newList, rangeList, ii, range, pieces);
        newList := newList + pieces;
        ii := ii + 1;
      }
      RemovingEnds(newList, rangeList, range);
      rangeList := newList;
    }

    /** The points that are in both sets. */
    method Intersect(other: RangeList) returns (output: RangeList)
      requires Valid() && other.Valid()
      ensures fresh(output) && output.Valid() && output.Contents() == Contents() * other.Contents()
    {
      hide Elements, Canonical;
      output := new RangeList();
      EmptyIsCanonical();
      var iterA: nat, iterB: nat := 0, 0;
      IntersectingBegins(rangeList, other.rangeList);
      while iterA < |rangeList| && iterB < |other.rangeList|
        invariant iterA <= |rangeList| && iterB <= |other.rangeList| && output.Valid()
        invariant Intersecting(output.Contents(), rangeList, other.rangeList, iterA, iterB)
        decreases |rangeList| - iterA + |other.rangeList| - iterB
      {
        var a, b := rangeList[iterA], other.rangeList[iterB];
        var start := Max(a.startElement, b.startElement);
        var end := Min(a.EndElement(), b.EndElement());
        IntersectingNext(output.Contents(), a.Points() * b.Points(), rangeList, other.rangeList, iterA, iterB);
        SharedPoints(a, b);
        if start < end {
          output.Insert(Range(start, end - start));
        }
        if a.EndElement() < b.EndElement() {
          iterA := iterA + 1;
        } else {
          iterB := iterB + 1;
        }
      }
      IntersectingEnds(output.Contents(), rangeList, other.rangeList, iterA, iterB);
    }

    /** Widens every range at both ends. It gives exactly the points below the maximum within the distance,
        unless the distance is 0: then it does not cut off what lies beyond the maximum. */
    method Expand(expansion: nat, maxEndElement: nat)
      requires Valid()
      requires 0 < expansion ==>
        forall k :: 0 <= k < |rangeList| ==> rangeList[k].startElement <= maxEndElement + expansion
      modifies this
      ensures Valid()
      ensures IsExpansion(Contents(), old(Contents()), expansion, maxEndElement)
              <==> || 0 < expansion
                   || forall k :: 0 <= k < |old(rangeList)| ==> old(rangeList)[k].EndElement() <= maxEndElement
      ensures expansion == 0 ==> rangeList == old(rangeList)
    {
      hide Elements, IsExpansion;
      if expansion == 0 {
        NoExpansion(rangeList, maxEndElement);
        return;
      }
      var oldRanges := rangeList;
      rangeList := [];
      NoElements();
      NothingExpands(expansion, maxEndElement);
      var i: nat := 0;
      while i < |oldRanges|
        invariant i <= |oldRanges| && Valid()
        invariant IsExpansion(Contents(), Elements(oldRanges[..i]), expansion, maxEndElement)
      {
        var range := oldRanges[i];
        ExpansionNext(Contents(), Elements(oldRanges[..i]), range, expansion, maxEndElement);
        ElementsNext(oldRanges, i);
        var start := if range.startElement >= expansion then range.startElement - expansion else 0;
        var end := Min(range.EndElement() + expansion, maxEndElement);
        Insert(Range(start, end - start));
        i := i + 1;
      }
      assert oldRanges[..i] == oldRanges;
    }
  }

  /** Expanding the points 0 and 1 by nothing, below 1: the point 1 stays. */
  method ExpandByNothing() returns (r: RangeList)
    ensures r.Valid() && r.Contents() == {0, 1} && !IsExpansion(r.Contents(), {0, 1}, 0, 1)
  {
    r := new RangeList();
    EmptyIsCanonical();
    r.Insert(Range(0, 2));
    assert forall y: nat :: Range(0, 2).Contains(y) <==> y in {0, 1};
    r.Expand(0, 1);
    assert 1 in r.Contents();
  }

  /** One turn of the second loop of insert. */
  method MergeNext(newList0: seq<Range>, ranges: seq<Range>, ii: nat, ghost range: Range) returns (newList: seq<Range>)
    requires Merging(newList0, ranges, ii, range) && ii < |ranges|
    ensures Merging(newList, ranges, ii + 1, range)
  {
    MergingBack(newList0, ranges, ii, range);
    hide Elements, Merging, Canonical, Merged;
    var oldRange := ranges[ii];
    var backRange := newList0[|newList0| - 1];
    if backRange.Overlaps(oldRange) || backRange.Touches(oldRange) {
      MergingMerges(newList0, ranges, ii, range);
      var merged := Grow(backRange, oldRange);
      newList := newList0[|newList0| - 1 := merged];
    } else {
      MergingPushes(newList0, ranges, ii, range);
      newList := newList0 + [oldRange];
    }
  }

  /** From where the first of two ranges begins to where the last of them ends. */
  method Grow(backRange: Range, oldRange: Range) returns (r: Range)
    ensures r == Merged(backRange, oldRange)
  {
    var start := Min(backRange.startElement, oldRange.startElement);
    var end := Max(backRange.EndElement(), oldRange.EndElement());
    r := Range(start, end - start);
  }

  lemma MergingBack(newList: seq<Range>, ranges: seq<Range>, ii: nat, range: Range)
    requires Merging(newList, ranges, ii, range)
    ensures newList != []
  {
  }

  /** What remove keeps of one range. */
  method Without(oldRange: Range, range: Range) returns (pieces: seq<Range>)
    requires !oldRange.Empty() && !range.Empty()
    ensures Canonical(pieces) && Elements(pieces) == oldRange.Points() - range.Points()
    ensures forall k :: 0 <= k < |pieces| ==>
              oldRange.startElement <= pieces[k].startElement && pieces[k].EndElement() <= oldRange.EndElement()
  {
    if oldRange.Overlaps(range) {
      pieces := Difference(oldRange, oldRange.Overlap(range));
    } else {
      pieces := [oldRange];
      ElementsPush([], oldRange);
    }
  }

  lemma EmptyIsCanonical()
    ensures Canonical([]) && Elements([]) == {}
  {
  }

  lemma NothingExpands(e: nat, max: nat)
    ensures IsExpansion({}, {}, e, max)
  {
  }

  lemma SharedPoints(a: Range, b: Range)
    ensures var start, end := Max(a.startElement, b.startElement), Min(a.EndElement(), b.EndElement());
            a.Points() * b.Points() == if start < end then Range(start, end - start).Points() else {}
  {
    var start, end := Max(a.startElement, b.startElement), Min(a.EndElement(), b.EndElement());
    forall x: nat
      ensures a.Contains(x) && b.Contains(x) <==> start <= x < end
    {
    }
  }
}
