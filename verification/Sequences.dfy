/** Slices of concatenations, and concatenations of slices. */
module Sequences {

  lemma SliceLeft<T>(a: seq<T>, b: seq<T>, i: nat, j: nat)
    requires i <= j <= |a|
    ensures (a + b)[i..j] == a[i..j]
  {
  }

  lemma SliceRight<T>(a: seq<T>, b: seq<T>, i: nat, j: nat)
    requires i <= j <= |b|
    ensures (a + b)[|a| + i..|a| + j] == b[i..j]
  {
  }

  lemma SliceOfSlice<T>(d: seq<T>, lo: nat, hi: nat, i: nat, j: nat)
    requires lo <= hi <= |d| && i <= j <= hi - lo
    ensures d[lo..hi][i..j] == d[lo + i..lo + j]
  {
    assert |d[lo..hi][i..j]| == |d[lo + i..lo + j]|;
    forall k | 0 <= k < j - i
      ensures d[lo..hi][i..j][k] == d[lo + i..lo + j][k]
    {
    }
  }

  lemma SlicesJoin<T>(d: seq<T>, lo: nat, mid: nat, hi: nat)
    requires lo <= mid <= hi <= |d|
    ensures d[lo..mid] + d[mid..hi] == d[lo..hi]
  {
  }

  /** A buffer that agrees with the raster up to offset, and again for the n bytes after it. */
  lemma Appended<T>(buffer: seq<T>, offset: nat, n: nat, raster: seq<T>, start: nat, x: nat)
    requires offset + n <= |buffer| && start + offset == x && x + n <= |raster|
    requires buffer[..offset] == raster[start..x]
    requires buffer[offset..offset + n] == raster[x..x + n]
    ensures buffer[..offset + n] == raster[start..x + n]
  {
    assert buffer[..offset + n] == buffer[..offset] + buffer[offset..offset + n];
    assert raster[start..x + n] == raster[start..x] + raster[x..x + n];
  }

  /** The parts one behind the other. */
  function Flatten<T>(parts: seq<seq<T>>): seq<T>
  {
    if parts == [] then [] else Flatten(parts[..|parts| - 1]) + parts[|parts| - 1]
  }

  lemma {:induction false} FlattenConcat<T>(a: seq<seq<T>>, b: seq<seq<T>>)
    ensures Flatten(a + b) == Flatten(a) + Flatten(b)
  {
    hide Flatten;
    if b == [] {
      assert a + b == a;
      FlattenNone<T>();
    } else {
      var n := |b| - 1;
      FlattenConcat(a, b[..n]);
      FlattenNext(a + b[..n], b[n]);
      FlattenNext(b[..n], b[n]);
      assert a + b == a + b[..n] + [b[n]] && b == b[..n] + [b[n]];
    }
  }

  lemma FlattenNone<T>()
    ensures Flatten<T>([]) == []
  {
  }

  lemma FlattenNext<T>(parts: seq<seq<T>>, part: seq<T>)
    ensures Flatten(parts + [part]) == Flatten(parts) + part
  {
    assert (parts + [part])[..|parts|] == parts;
  }

  /** The parts from i on are those up to j and those from j on. */
  lemma FlattenFrom<T>(parts: seq<seq<T>>, i: nat, j: nat)
    requires i <= j <= |parts|
    ensures Flatten(parts[i..j]) + Flatten(parts[j..]) == Flatten(parts[i..])
  {
    FlattenConcat(parts[i..j], parts[j..]);
    assert parts[i..j] + parts[j..] == parts[i..];
  }
}
