/** The layout of a tiled image (Section 15 of the TIFF 6.0 specification): a raster of image
    lines is cut into a grid of equal tiles, padded with zeros on the right and at the bottom. */
module TileLayout {
  import opened Arithmetic
  import opened Storage

  /** All widths are in bytes; lengths count lines. The tiles follow each other in the file from base. */
  datatype Tiling = Tiling(imageByteWidth: nat, imageLength: nat, tileByteWidth: nat, tileLength: nat, base: nat) {

    predicate Valid() {
      0 < imageByteWidth && 0 < imageLength && 0 < tileByteWidth && 0 < tileLength
    }

    function TilesAcross(): nat requires Valid() { (imageByteWidth + tileByteWidth - 1) / tileByteWidth }

    function TilesDown(): nat requires Valid() { (imageLength + tileLength - 1) / tileLength }

    /** The raster position at which an image line begins. */
    function LineStart(row: nat): nat { Times(row, imageByteWidth) }

    /** The offset in a tile at which one of its lines begins. */
    function TileLine(line: nat): nat { Times(line, tileByteWidth) }

    /** The first image line of a tile row. */
    function FirstLine(tr: nat): nat { Times(tr, tileLength) }

    function TileBytes(): nat { TileLine(tileLength) }

    function ImageBytes(): nat { LineStart(imageLength) }

    /** The tile in tile row tr and tile column j. */
    function Tile(tr: nat, j: nat): nat requires Valid() { Times(tr, TilesAcross()) + j }

    function TileCount(): nat requires Valid() { Tile(TilesDown(), 0) }

    /** Where tile t begins in the file. */
    function TileStart(t: nat): nat { base + Times(t, TileBytes()) }

    /** The number of image columns left of tile column j. */
    function Edge(j: nat): nat
    {
      if TileLine(j) <= imageByteWidth then TileLine(j) else imageByteWidth
    }

    /** The image columns of tile column j, and the padding columns that complete its tiles. */
    function Width(j: nat): int { Edge(j + 1) - Edge(j) }

    function PaddedBytes(j: nat): int { tileByteWidth - Width(j) }

    /** The byte of the padded image at a line and a byte column. */
    ghost function Pixel(raster: seq<byte>, row: nat, column: nat): byte
      requires Valid() && |raster| == ImageBytes()
    {
      if row < imageLength && column < imageByteWidth then
        PixelIndex(row, column);
        raster[LineStart(row) + column]
      else 0
    }

    /** The byte that belongs at offset o of tile t. */
    ghost function Cell(raster: seq<byte>, t: nat, o: nat): byte
      requires Valid() && |raster| == ImageBytes()
    {
      Grid();
      Pixel(raster, FirstLine(t / TilesAcross()) + o / tileByteWidth,
            TileLine(t % TilesAcross()) + o % tileByteWidth)
    }

    lemma PixelIndex(row: nat, column: nat)
      requires row < imageLength && column < imageByteWidth
      ensures LineStart(row) + column < ImageBytes()
    {
      TimesMono(row, imageLength, imageByteWidth);
    }

    /** How much of one tile line is settled once the first c bytes of its image line are:
        right-hand padding counts as soon as the line is complete. */
    function InLine(j: nat, c: nat): nat
    {
      if Edge(j + 1) <= c then tileByteWidth else if c <= Edge(j) then 0 else c - Edge(j)
    }

    /** How many leading bytes of the tile in tile row tr and tile column j are settled once the
        first x bytes of the raster are. */
    function Fill(tr: nat, j: nat, x: nat): nat
      requires Valid()
    {
      var row := x / imageByteWidth;
      if row < FirstLine(tr) then 0
      else if FirstLine(tr + 1) <= row then TileBytes()
      else TileLine(row - FirstLine(tr)) + InLine(j, x % imageByteWidth)
    }

    /** How many of the first x raster bytes lie left of tile column j. */
    function Left(j: nat, x: nat): nat
      requires Valid()
    {
      Times(x / imageByteWidth, Edge(j)) + if x % imageByteWidth <= Edge(j) then x % imageByteWidth else Edge(j)
    }

    /** How many raster bytes of the range [from, to) lie left of tile column j. */
    function Span(j: nat, from: nat, to: nat): int
      requires Valid()
    {
      Left(j, to) - Left(j, from)
    }

    /** The raster position at which tile row tr begins, and the one before it ends. */
    function RowStart(tr: nat): nat { LineStart(FirstLine(tr)) }

    // ----- The grid -----

    lemma Grid()
      requires Valid()
      ensures 0 < TilesAcross()
      ensures TileLine(TilesAcross() - 1) < imageByteWidth <= TileLine(TilesAcross()) < imageByteWidth + tileByteWidth
      ensures Edge(TilesAcross()) == imageByteWidth && Edge(0) == 0
    {
      TimesSplit(imageByteWidth + tileByteWidth - 1, tileByteWidth);
    }

    lemma EdgeOfColumn(j: nat)
      requires Valid() && j < TilesAcross()
      ensures Edge(j) == TileLine(j) < imageByteWidth
      ensures Edge(j + 1) == if j + 1 == TilesAcross() then imageByteWidth else TileLine(j + 1)
      ensures PaddedBytes(j) == if j + 1 == TilesAcross() then TileLine(TilesAcross()) - imageByteWidth else 0
      ensures 0 < Width(j) <= tileByteWidth
    {
      Grid();
      TimesMono(j, TilesAcross() - 1, tileByteWidth);
      if j + 1 < TilesAcross() {
        TimesMono(j + 1, TilesAcross() - 1, tileByteWidth);
      }
    }

    lemma EdgeMono(i: nat, j: nat)
      requires i <= j
      ensures Edge(i) <= Edge(j) <= imageByteWidth
    {
      TimesMono(i, j, tileByteWidth);
    }

    /** The tile column of an image column. */
    lemma ColumnOf(column: nat)
      requires Valid() && column < imageByteWidth
      ensures column / tileByteWidth < TilesAcross()
      ensures Edge(column / tileByteWidth) <= column < Edge(column / tileByteWidth + 1)
      ensures column == Edge(column / tileByteWidth) + column % tileByteWidth
    {
      hide TilesAcross;
      Grid();
      TimesSplit(column, tileByteWidth);
      if TilesAcross() <= column / tileByteWidth {
        TimesMono(TilesAcross(), column / tileByteWidth, tileByteWidth);
      }
    }

    /** The tile row of an image line, and its place in the grid. */
    lemma TileInGrid(tr: nat, j: nat, row: nat)
      requires Valid() && j < TilesAcross() && FirstLine(tr) <= row < imageLength
      ensures tr < TilesDown() && Tile(tr, j) < TileCount()
    {
      hide TilesAcross;
      TimesSplit(imageLength + tileLength - 1, tileLength);
      if TilesDown() <= tr {
        TimesMono(TilesDown(), tr, tileLength);
      }
      TimesMono(tr, TilesDown(), TilesAcross());
    }

    /** Offset TileLine(line) + c of tile (tr, j) holds image line FirstLine(tr) + line. */
    lemma CellAt(raster: seq<byte>, tr: nat, j: nat, line: nat, c: nat)
      requires Valid() && |raster| == ImageBytes() && j < TilesAcross()
      requires line < tileLength && c < tileByteWidth
      ensures Cell(raster, Tile(tr, j), TileLine(line) + c) == Pixel(raster, FirstLine(tr) + line, TileLine(j) + c)
    {
      TimesDivMod(Tile(tr, j), tr, TilesAcross(), j);
      TimesDivMod(TileLine(line) + c, line, tileByteWidth, c);
    }

    // ----- Evaluating the step functions -----

    lemma RowAndColumn(x: nat, row: nat, col: nat)
      requires Valid() && x == LineStart(row) + col && col <= imageByteWidth
      ensures col < imageByteWidth ==> x / imageByteWidth == row && x % imageByteWidth == col
      ensures col == imageByteWidth ==> x / imageByteWidth == row + 1 && x % imageByteWidth == 0
    {
      if col < imageByteWidth {
        TimesDivMod(x, row, imageByteWidth, col);
      } else {
        TimesDivMod(x, row + 1, imageByteWidth, 0);
      }
    }

    lemma FillAt(tr: nat, j: nat, x: nat, row: nat, col: nat)
      requires Valid() && x == LineStart(row) + col && col <= imageByteWidth
      requires FirstLine(tr) <= row < FirstLine(tr + 1)
      ensures Fill(tr, j, x) == TileLine(row - FirstLine(tr)) + InLine(j, col)
    {
      RowAndColumn(x, row, col);
      EdgeMono(j, j + 1);
      assert TileLine(row + 1 - FirstLine(tr)) == TileLine(row - FirstLine(tr)) + tileByteWidth;
    }

    lemma LeftAt(j: nat, x: nat, row: nat, col: nat)
      requires Valid() && x == LineStart(row) + col && col <= imageByteWidth
      ensures Left(j, x) == Times(row, Edge(j)) + if col <= Edge(j) then col else Edge(j)
    {
      RowAndColumn(x, row, col);
    }

    /** The bytes of the tile columns from i up to j accumulate as the raster grows. */
    lemma SpanMono(i: nat, j: nat, from: nat, to: nat)
      requires Valid() && i <= j && from <= to
      ensures Span(i, from, to) <= Span(j, from, to)
    {
      hide Edge;
      EdgeMono(i, j);
      var d := Edge(j) - Edge(i);
      var r0, r1 := from / imageByteWidth, to / imageByteWidth;
      RowOrder(from, to, imageByteWidth);
      TimesSplit(from, imageByteWidth);
      TimesSplit(to, imageByteWidth);
      TimesWider(r0, Edge(i), d);
      TimesWider(r1, Edge(i), d);
      TimesMono(r0, r1, d);
    }

    lemma SpanAll(from: nat, to: nat)
      requires Valid()
      ensures Span(TilesAcross(), from, to) == to - from && Span(0, from, to) == 0
    {
      hide Edge, TilesAcross;
      Grid();
      TimesSplit(from, imageByteWidth);
      TimesSplit(to, imageByteWidth);
      TimesIs(from / imageByteWidth, 0);
      TimesIs(to / imageByteWidth, 0);
    }

    /** What the raster range from (row, column) to (r, e) contributes to tile column j. */
    lemma Contribution(j: nat, row: nat, column: nat, r: nat, e: nat)
      requires Valid() && Edge(j) <= column < Edge(j + 1) && e <= imageByteWidth && row <= r
      ensures 0 < Width(j)
      ensures var from, to := LineStart(row) + column, LineStart(r) + e;
              Span(j + 1, from, to) - Span(j, from, to)
              == Times(r - row, Width(j)) + Edge(j) - column
                 + if Edge(j + 1) <= e then Width(j) else if e <= Edge(j) then 0 else e - Edge(j)
    {
      hide Left, Edge, LineStart;
      EdgeMono(j, j + 1);
      EdgeMono(j + 1, j + 1);
      var from, to := LineStart(row) + column, LineStart(r) + e;
      LeftAt(j, from, row, column);
      LeftAt(j + 1, from, row, column);
      LeftAt(j, to, r, e);
      LeftAt(j + 1, to, r, e);
      TimesWider(row, Edge(j), Width(j));
      TimesWider(r, Edge(j), Width(j));
      TimesAdd(row, r - row, Width(j));
    }

    /** A tile row is full once the raster has passed its end. */
    lemma FillPast(tr: nat, j: nat, x: nat)
      requires Valid() && RowStart(tr + 1) <= x
      ensures Fill(tr, j, x) == TileBytes()
    {
      TimesSplit(x, imageByteWidth);
      if x / imageByteWidth < FirstLine(tr + 1) {
        TimesMono(x / imageByteWidth, FirstLine(tr + 1), imageByteWidth);
      }
    }

    /** A tile row is empty until the raster has reached its beginning. */
    lemma FillBefore(tr: nat, j: nat, x: nat)
      requires Valid() && j < TilesAcross() && x <= RowStart(tr)
      ensures Fill(tr, j, x) == 0
    {
      hide TilesAcross;
      TimesSplit(x, imageByteWidth);
      EdgeOfColumn(j);
      if FirstLine(tr) <= x / imageByteWidth {
        TimesMono(FirstLine(tr), x / imageByteWidth, imageByteWidth);
        RowAndColumn(x, FirstLine(tr), 0);
      }
    }
  }
}
