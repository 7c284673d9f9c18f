/** The bottom tile row: what the image leaves empty there, and how padding completes the image. */
module TileBottom {
  import opened Arithmetic
  import opened Storage
  import opened TileLayout
  import opened TiledImage
  import opened TileSweepContent

  /** The bottom tile row, and how many lines of it the image fills. */
  lemma BottomRow(g: Tiling)
    requires g.Valid()
    ensures 0 < g.TilesDown()
    ensures var r := g.imageLength % g.tileLength;
      && (r == 0 ==> g.FirstLine(g.TilesDown()) == g.imageLength)
      && (r != 0 ==> g.FirstLine(g.TilesDown() - 1) + r == g.imageLength < g.FirstLine(g.TilesDown()))
  {
    var l, tl := g.imageLength, g.tileLength;
    TimesSplit(l, tl);
    if l % tl == 0 {
      TimesDivMod(l + tl - 1, l / tl, tl, tl - 1);
    } else {
      TimesDivMod(l + tl - 1, l / tl + 1, tl, l % tl - 1);
    }
  }

  /** When the whole raster is written, only lines below the image are missing. */
  lemma BottomLines(g: Tiling, tr: nat, j: nat)
    requires g.Valid() && j < g.TilesAcross() && tr < g.TilesDown()
    ensures var r := g.imageLength % g.tileLength;
      g.Fill(tr, j, g.ImageBytes()) == if r == 0 || tr + 1 < g.TilesDown() then g.TileBytes() else g.TileLine(r)
  {
    hide Tiling.TilesAcross, Tiling.TilesDown, Tiling.Fill, Tiling.Edge;
    BottomRow(g);
    g.EdgeOfColumn(j);
    if g.imageLength % g.tileLength == 0 || tr + 1 < g.TilesDown() {
      TimesMono(tr + 1, g.TilesDown(), g.tileLength);
      if tr + 1 < g.TilesDown() {
        TimesMono(tr + 1, g.TilesDown() - 1, g.tileLength);
      }
      TimesMono(g.FirstLine(tr + 1), g.imageLength, g.imageByteWidth);
      g.FillPast(tr, j, g.ImageBytes());
    } else {
      g.FillAt(tr, j, g.ImageBytes(), g.imageLength, 0);
    }
  }

  /** Below the image a tile holds zeros. */
  lemma ZerosBelow(g: Tiling, raster: seq<byte>, tr: nat, j: nat, o: nat)
    requires g.Valid() && |raster| == g.ImageBytes() && j < g.TilesAcross()
    requires g.FirstLine(tr) <= g.imageLength
    requires g.TileLine(g.imageLength - g.FirstLine(tr)) <= o < g.TileBytes()
    ensures g.Cell(raster, g.Tile(tr, j), o) == 0
  {
    hide Tiling.TilesAcross, Tiling.Cell;
    var line, first := o / g.tileByteWidth, g.imageLength - g.FirstLine(tr);
    TimesSplit(o, g.tileByteWidth);
    if line < first {
      TimesMono(line + 1, first, g.tileByteWidth);
    }
    if g.tileLength <= line {
      TimesMono(g.tileLength, line, g.tileByteWidth);
    }
    g.CellAt(raster, tr, j, line, o % g.tileByteWidth);
  }

  /** The first n tiles of the bottom tile row are settled to their end. */
  ghost predicate BottomSettled(g: Tiling, data: seq<byte>, raster: seq<byte>, n: nat)
    requires g.Valid() && |raster| == g.ImageBytes()
  {
    forall t: nat :: g.TileCount() - g.TilesAcross() <= t < g.TileCount() - g.TilesAcross() + n ==>
      SettledTo(g, data, raster, t, g.TileBytes())
  }

  /** The index of a tile of the bottom row. */
  lemma BottomTile(g: Tiling, j: nat)
    requires g.Valid() && j < g.TilesAcross()
    ensures 0 < g.TilesDown() && g.Tile(g.TilesDown() - 1, 0) == g.TileCount() - g.TilesAcross()
    ensures g.Tile(g.TilesDown() - 1, j) == g.TileCount() - g.TilesAcross() + j < g.TileCount()
  {
  }

  /** Zeros written below the image settle the rest of a tile of the bottom row. */
  lemma BottomPadded(g: Tiling, before: seq<byte>, data: seq<byte>, raster: seq<byte>, j: nat, b: seq<byte>, from: nat)
    requires g.Valid() && |raster| == g.ImageBytes() && j < g.TilesAcross()
    requires g.imageLength % g.tileLength != 0 && from == g.TileLine(g.imageLength % g.tileLength)
    requires HoldsPrefix(g, data, raster, g.ImageBytes()) && BottomSettled(g, data, raster, j)
    requires SameOutside(g, before, data)
    requires |b| == g.TileBytes() - from && forall k :: 0 <= k < |b| ==> b[k] == 0
    ensures var t := g.TileCount() - g.TilesAcross() + j;
      && 0 <= t < g.TileCount()
      && var after := Overwrite(data, g.TileStart(t) + from, b);
      && HoldsPrefix(g, after, raster, g.ImageBytes()) && BottomSettled(g, after, raster, j + 1)
      && SameOutside(g, before, after)
  {
    hide Tiling.TilesAcross, Tiling.TilesDown, Tiling.TileCount, Tiling.Fill, Tiling.Cell, Tiling.TileBytes;
    hide Tiling.TileStart, Tiling.Tile;
    BottomRow(g);
    BottomTile(g, j);
    var tr := g.TilesDown() - 1;
    var t := g.Tile(tr, j);
    BottomLines(g, tr, j);
    forall k | 0 <= k < |b|
      ensures b[k] == g.Cell(raster, t, from + k)
    {
      ZerosBelow(g, raster, tr, j, from + k);
    }
    WriteSettles(g, data, raster, t, from, b);
    WriteInside(g, data, t, from, b);
    var after := Overwrite(data, g.TileStart(t) + from, b);
    assert SettledTo(g, data, raster, t, g.Fill(tr, j, g.ImageBytes()));
    forall t1: nat | g.TileCount() - g.TilesAcross() <= t1 < g.TileCount() - g.TilesAcross() + j + 1
      ensures SettledTo(g, after, raster, t1, g.TileBytes())
    {
      if t1 != t {
        assert SettledTo(g, data, raster, t1, g.TileBytes());
      }
    }
    forall tr1: nat, j1: nat | j1 < g.TilesAcross()
      ensures SettledTo(g, after, raster, g.Tile(tr1, j1), g.Fill(tr1, j1, g.ImageBytes()))
    {
      assert SettledTo(g, data, raster, g.Tile(tr1, j1), g.Fill(tr1, j1, g.ImageBytes()));
    }
  }

  /** The whole raster, with the bottom tile row padded, is the whole image. */
  lemma WholeImage(g: Tiling, data: seq<byte>, raster: seq<byte>)
    requires g.Valid() && |raster| == g.ImageBytes()
    requires HoldsPrefix(g, data, raster, g.ImageBytes())
    requires g.imageLength % g.tileLength != 0 ==> BottomSettled(g, data, raster, g.TilesAcross())
    ensures HoldsImage(g, data, raster)
  {
    hide Tiling.TilesAcross, Tiling.Fill, Tiling.Cell, Tiling.TileBytes, Tiling.TilesDown;
    g.Grid();
    forall t: nat | t < g.TileCount()
      ensures SettledTo(g, data, raster, t, g.TileBytes())
    {
      var tr, j := t / g.TilesAcross(), t % g.TilesAcross();
      TimesSplit(t, g.TilesAcross());
      if g.TilesDown() <= tr {
        TimesMono(g.TilesDown(), tr, g.TilesAcross());
      }
      BottomLines(g, tr, j);
      assert SettledTo(g, data, raster, g.Tile(tr, j), g.Fill(tr, j, g.ImageBytes()));
      if tr + 1 == g.TilesDown() {
        BottomTile(g, j);
      }
    }
  }
}
