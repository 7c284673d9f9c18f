/** Bytes, and the seekable file that the TIFF and SIO code reads and writes. */
module Storage {

  type byte = x: int | 0 <= x < 256

  function Zeros(n: nat): (z: seq<byte>)
    ensures |z| == n && forall i :: 0 <= i < n ==> z[i] == 0
  {
    seq(n, i => 0)
  }

  /** The contents of a file after b is written at offset p: a gap is filled with zeros,
      and writing no bytes changes nothing. */
  function Overwrite(d: seq<byte>, p: nat, b: seq<byte>): (r: seq<byte>)
    ensures b == [] ==> r == d
    ensures b != [] ==> |r| == if |d| < p + |b| then p + |b| else |d|
    ensures forall i :: p <= i < p + |b| ==> r[i] == b[i - p]
    ensures forall i :: 0 <= i < |d| && !(p <= i < p + |b|) ==> r[i] == d[i]
    ensures forall i :: |d| <= i < p && i < |r| ==> r[i] == 0
  {
    if b == [] then d
    else
      var reached := if |d| < p then d + Zeros(p - |d|) else d;
      reached[..p] + b + if p + |b| < |d| then d[p + |b|..] else []
  }

  /** The written bytes are there, and a range that ends before them or starts behind them is as it was. */
  lemma OverwriteAt(d: seq<byte>, p: nat, b: seq<byte>)
    requires b != [] || p <= |d|
    ensures p + |b| <= |Overwrite(d, p, b)| && Overwrite(d, p, b)[p..p + |b|] == b
  {
    assert Overwrite(d, p, b)[p..p + |b|] == b;
  }

  lemma OverwriteKeeps(d: seq<byte>, p: nat, b: seq<byte>, lo: nat, hi: nat)
    requires lo <= hi <= |d| && (hi <= p || p + |b| <= lo)
    ensures hi <= |Overwrite(d, p, b)| && Overwrite(d, p, b)[lo..hi] == d[lo..hi]
  {
  }

  /** Two writes in a row are one write. */
  lemma OverwriteTwice(d: seq<byte>, p: nat, a: seq<byte>, b: seq<byte>)
    ensures Overwrite(Overwrite(d, p, a), p + |a|, b) == Overwrite(d, p, a + b)
  {
    var once, twice := Overwrite(d, p, a + b), Overwrite(Overwrite(d, p, a), p + |a|, b);
    if a == [] {
      assert a + b == b;
    } else if b == [] {
      assert a + b == a;
    } else {
      assert |once| == |twice|;
      forall i | 0 <= i < |once|
        ensures once[i] == twice[i]
      {
        if p <= i < p + |a| + |b| {
          assert once[i] == (a + b)[i - p];
        }
      }
    }
  }

  /** memcpy: n bytes of source from position from, to position to of target. */
  method CopyBytes(target: array<byte>, to: nat, source: seq<byte>, from: nat, n: nat)
    requires to + n <= target.Length && from + n <= |source|
    modifies target
    ensures target[..to] == old(target[..to])
    ensures target[to..to + n] == source[from..from + n]
    ensures forall k :: to + n <= k < target.Length ==> target[k] == old(target[k])
  {
    forall k | 0 <= k < n {
      target[to + k] := source[from + k];
    }
  }

  /** A file on disk with one cursor. */
  class SeekableFile {
    var data: seq<byte>
    var pos: nat

    constructor (contents: seq<byte>)
      ensures data == contents && pos == 0
    {
      data, pos := contents, 0;
    }

    method Seek(p: nat)
      modifies `pos
      ensures pos == p
    {
      pos := p;
    }

    method Write(b: seq<byte>)
      modifies this
      ensures data == Overwrite(old(data), old(pos), b)
      ensures pos == old(pos) + |b|
    {
      data := Overwrite(data, pos, b);
      pos := pos + |b|;
    }

    /** Reads at most n bytes: fewer when the file ends first. */
    method Read(n: nat) returns (b: seq<byte>)
      modifies `pos
      ensures pos == old(pos) + |b|
      ensures |b| <= n && (old(pos) + n <= |data| ==> |b| == n)
      ensures old(pos) <= |data| ==> old(pos) + |b| <= |data| && b == data[old(pos)..old(pos) + |b|]
      ensures |data| <= old(pos) ==> b == []
    {
      if pos + n <= |data| {
        b := data[pos..pos + n];
      } else if pos <= |data| {
        b := data[pos..];
      } else {
        b := [];
      }
      pos := pos + |b|;
    }
  }
}
