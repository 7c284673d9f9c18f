/** Writing a raster into a tiled image and reading it back, in any number of calls. */
module TiledImage {
  import opened Arithmetic
  import opened Storage
  import opened TileLayout

  /** Offset o of tile t holds the byte that belongs there. */
  ghost predicate Settled(g: Tiling, data: seq<byte>, raster: seq<byte>, t: nat, o: nat)
    requires g.Valid() && |raster| == g.ImageBytes()
  {
    && g.TileStart(t) + o < |data|
    && data[g.TileStart(t) + o] == g.Cell(raster, t, o)
  }

  /** The first fill bytes of tile t hold what belongs there. */
  ghost predicate SettledTo(g: Tiling, data: seq<byte>, raster: seq<byte>, t: nat, fill: int)
    requires g.Valid() && |raster| == g.ImageBytes()
  {
    forall o: nat :: o < fill && o < g.TileBytes() ==> Settled(g, data, raster, t, o)
  }

  /** The file holds the whole padded image, tile after tile. */
  ghost predicate HoldsImage(g: Tiling, data: seq<byte>, raster: seq<byte>)
    requires g.Valid() && |raster| == g.ImageBytes()
  {
    forall t: nat :: t < g.TileCount() ==> SettledTo(g, data, raster, t, g.TileBytes())
  }

  /** Two different addresses of tile cells: a write inside tile t never reaches another tile. */
  lemma TilesApart(g: Tiling, t: nat, o: nat, t1: nat, o1: nat)
    requires g.Valid() && o < g.TileBytes() && o1 < g.TileBytes()
    requires g.TileStart(t) + o == g.TileStart(t1) + o1
    ensures t == t1 && o == o1
  {
    var n := g.TileBytes();
    if t < t1 {
      TimesMono(t, t1, n);
    } else if t1 < t {
      TimesMono(t1, t, n);
    }
  }

  /** Writing what belongs at offsets [from, from + |b|) of tile t settles them, and unsettles nothing. */
  lemma WriteSettles(g: Tiling, data: seq<byte>, raster: seq<byte>, t: nat, from: nat, b: seq<byte>)
    requires g.Valid() && |raster| == g.ImageBytes()
    requires from + |b| <= g.TileBytes()
    requires forall k: nat :: k < |b| ==> b[k] == g.Cell(raster, t, from + k)
    ensures var after := Overwrite(data, g.TileStart(t) + from, b);
            && (forall t1: nat, o: nat :: o < g.TileBytes() && Settled(g, data, raster, t1, o) ==>
                Settled(g, after, raster, t1, o))
            && (forall o: nat :: from <= o < from + |b| ==> Settled(g, after, raster, t, o))
  {
    var q := g.TileStart(t);
    var after := Overwrite(data, q + from, b);
    forall o: nat | from <= o < from + |b|
      ensures Settled(g, after, raster, t, o)
    {
      assert b[o - from] == g.Cell(raster, t, from + (o - from));
      WriteSettlesOne(g, data, raster, t, from, b, o);
    }
    forall t1: nat, o: nat | o < g.TileBytes() && Settled(g, data, raster, t1, o)
      ensures Settled(g, after, raster, t1, o)
    {
      WriteKeepsOne(g, data, raster, t, from, b, t1, o);
    }
  }

  lemma WriteSettlesOne(g: Tiling, data: seq<byte>, raster: seq<byte>, t: nat, from: nat, b: seq<byte>, o: nat)
    requires g.Valid() && |raster| == g.ImageBytes()
    requires from <= o < from + |b| && b[o - from] == g.Cell(raster, t, o)
    ensures Settled(g, Overwrite(data, g.TileStart(t) + from, b), raster, t, o)
  {
    hide Tiling.Cell, Tiling.TileBytes, Overwrite;
    Patched(data, g.TileStart(t) + from, b, g.TileStart(t) + o);
  }

  lemma WriteKeepsOne(g: Tiling, data: seq<byte>, raster: seq<byte>, t: nat, from: nat, b: seq<byte>, t1: nat, o: nat)
    requires g.Valid() && |raster| == g.ImageBytes()
    requires from + |b| <= g.TileBytes() && o < g.TileBytes()
    requires forall k: nat :: k < |b| ==> b[k] == g.Cell(raster, t, from + k)
    requires Settled(g, data, raster, t1, o)
    ensures Settled(g, Overwrite(data, g.TileStart(t) + from, b), raster, t1, o)
  {
    hide Tiling.Cell, Tiling.TileBytes, Overwrite;
    var q, a := g.TileStart(t), g.TileStart(t1) + o;
    if q + from <= a < q + from + |b| {
      TilesApart(g, t1, o, t, a - q);
      assert b[o - from] == g.Cell(raster, t, from + (o - from));
      WriteSettlesOne(g, data, raster, t, from, b, o);
    } else {
      Patched(data, q + from, b, a);
    }
  }

  /** The byte at address a of a file that was overwritten at p. */
  lemma Patched(data: seq<byte>, p: nat, b: seq<byte>, a: nat)
    ensures var after := Overwrite(data, p, b);
            && (p <= a < p + |b| ==> a < |after| && after[a] == b[a - p])
            && (a < |data| && !(p <= a < p + |b|) ==> a < |after| && after[a] == data[a])
  {
  }

  /** Nothing outside the tiles has changed. */
  ghost predicate SameOutside(g: Tiling, before: seq<byte>, after: seq<byte>)
    requires g.Valid()
  {
    && |before| <= |after|
    && forall a :: 0 <= a < |before| && (a < g.base || g.TileStart(g.TileCount()) <= a) ==> after[a] == before[a]
  }

  /** Nothing outside of tile t has changed. */
  ghost predicate SameButTile(g: Tiling, before: seq<byte>, after: seq<byte>, t: nat)
    requires g.Valid()
  {
    && |before| <= |after|
    && forall a :: 0 <= a < |before| && !(g.TileStart(t) <= a < g.TileStart(t) + g.TileBytes()) ==>
         after[a] == before[a]
  }

  lemma WriteInTile(g: Tiling, data: seq<byte>, t: nat, from: nat, b: seq<byte>)
    requires g.Valid() && from + |b| <= g.TileBytes()
    ensures SameButTile(g, data, Overwrite(data, g.TileStart(t) + from, b), t)
  {
    hide Tiling.TileBytes, Tiling.TileStart;
  }

  lemma WriteInside(g: Tiling, data: seq<byte>, t: nat, from: nat, b: seq<byte>)
    requires g.Valid() && t < g.TileCount() && from + |b| <= g.TileBytes()
    ensures SameOutside(g, data, Overwrite(data, g.TileStart(t) + from, b))
  {
    hide Tiling.TileBytes, Tiling.TileCount;
    TimesMono(t, g.TileCount(), g.TileBytes());
    assert g.base <= g.TileStart(t) && g.TileStart(t) + g.TileBytes() <= g.TileStart(g.TileCount());
  }
}
