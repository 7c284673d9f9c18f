/** Where a raster position lies: its tile, and its place in that tile. */
module TilePosition {
  import opened Arithmetic
  import opened Storage
  import opened TileLayout
  import opened TileSweep
  import opened TiledImage

  /** A byte of the image in its tile: column c of tile column j, on line line of tile row tr. */
  datatype Spot = Spot(tr: nat, j: nat, line: nat, c: nat) {

    ghost predicate Ok(g: Tiling)
    {
      && g.Valid() && j < g.TilesAcross() && line < g.tileLength
      && Row(g) < g.imageLength && c < g.Width(j)
    }

    function Row(g: Tiling): nat { g.FirstLine(tr) + line }

    /** Where the byte is in the raster. */
    function Position(g: Tiling): nat { g.LineStart(Row(g)) + g.Edge(j) + c }

    /** Where it is in its tile. */
    function Offset(g: Tiling): nat { g.TileLine(line) + c }

    /** Where it is in the file. */
    function Address(g: Tiling): nat requires g.Valid() { g.TileStart(g.Tile(tr, j)) + Offset(g) }

    /** A file that holds the image has, at the byte's address, the byte at its raster position. */
    lemma Readable(g: Tiling, data: seq<byte>, raster: seq<byte>)
      requires Ok(g) && |raster| == g.ImageBytes() && HoldsImage(g, data, raster)
      ensures Address(g) < |data| && Position(g) < |raster| && data[Address(g)] == raster[Position(g)]
    {
      hide Tiling.TilesAcross, Tiling.Edge, Tiling.TilesDown, Tiling.TileCount, Tiling.Cell, Tiling.Tile;
      hide Tiling.TileStart;
      g.EdgeOfColumn(j);
      g.EdgeMono(j + 1, j + 1);
      g.TileInGrid(tr, j, Row(g));
      g.CellAt(raster, tr, j, line, c);
      g.PixelIndex(Row(g), g.Edge(j) + c);
      TimesMono(line, g.tileLength, g.tileByteWidth);
      assert SettledTo(g, data, raster, g.Tile(tr, j), g.TileBytes());
      assert Settled(g, data, raster, g.Tile(tr, j), Offset(g));
    }

    /** The same for the n bytes of the image line that begin here, all of the same tile. */
    lemma ReadableRun(g: Tiling, data: seq<byte>, raster: seq<byte>, n: nat)
      requires Ok(g) && |raster| == g.ImageBytes() && HoldsImage(g, data, raster)
      requires c + n <= g.Width(j)
      ensures Address(g) + n <= |data| && Position(g) + n <= |raster|
      ensures data[Address(g)..Address(g) + n] == raster[Position(g)..Position(g) + n]
    {
      hide Tiling.TilesAcross, Tiling.Edge, Tiling.TileBytes, Tiling.Cell, Tiling.Tile, Tiling.TileStart, HoldsImage;
      hide Tiling.ImageBytes;
      Readable(g, data, raster);
      if 0 < n {
        this.(c := c + n - 1).Readable(g, data, raster);
      }
      var a, x := Address(g), Position(g);
      forall i | a <= i < a + n
        ensures data[i] == raster[x + (i - a)]
      {
        this.(c := c + (i - a)).Readable(g, data, raster);
      }
    }

    lemma RestWhole(g: Tiling, elementSize: nat)
      requires Ok(g) && 0 < elementSize && Whole(Position(g), elementSize)
      requires Whole(g.imageByteWidth, elementSize) && Whole(g.tileByteWidth, elementSize)
      ensures Whole(g.Width(j) - c, elementSize) && Whole(g.Edge(j) + c, elementSize)
    {
      hide Whole, Tiling.TilesAcross;
      TimesWhole(Row(g), g.imageByteWidth, elementSize);
      WholeSum(Position(g), g.LineStart(Row(g)), elementSize);
      TimesWhole(j + 1, g.tileByteWidth, elementSize);
      WholeSum(g.Edge(j + 1), g.Edge(j) + c, elementSize);
    }
  }

  /** Where each byte of the padded image is in the file, in plain numbers: tile row by tile row, tile by tile, line
      by line. Beyond the right edge and below the last line there are zeros. */
  lemma PixelInFile(g: Tiling, data: seq<byte>, raster: seq<byte>, tr: nat, j: nat, line: nat, c: nat,
                    row: nat, column: nat, across: nat, tile: nat, address: nat, x: nat)
    requires g.Valid() && |raster| == g.ImageBytes() && HoldsImage(g, data, raster)
    requires tr < (g.imageLength + g.tileLength - 1) / g.tileLength && line < g.tileLength
    requires j < across == (g.imageByteWidth + g.tileByteWidth - 1) / g.tileByteWidth && c < g.tileByteWidth
    requires row == tr * g.tileLength + line && column == j * g.tileByteWidth + c
    requires tile == tr * across + j
    requires address == g.base + tile * (g.tileLength * g.tileByteWidth) + (line * g.tileByteWidth + c)
    requires x == row * g.imageByteWidth + column
    ensures address < |data|
    ensures if row < g.imageLength && column < g.imageByteWidth then x < |raster| && data[address] == raster[x]
            else data[address] == 0
  {
    hide *;
    GridIs(g);
    TileAddress(g, tr, j, line, c, tile);
    CellHeld(g, data, raster, tr, j, line, c);
    g.CellAt(raster, tr, j, line, c);
    PlaceIs(g, tr, j, line, c);
    PixelIs(g, raster, row, column, x);
  }

  lemma GridIs(g: Tiling)
    requires g.Valid()
    ensures g.TilesDown() == (g.imageLength + g.tileLength - 1) / g.tileLength
    ensures g.TilesAcross() == (g.imageByteWidth + g.tileByteWidth - 1) / g.tileByteWidth
  {
  }

  lemma PlaceIs(g: Tiling, tr: nat, j: nat, line: nat, c: nat)
    ensures g.FirstLine(tr) + line == tr * g.tileLength + line && g.TileLine(j) + c == j * g.tileByteWidth + c
  {
    TimesIs(tr, g.tileLength);
    TimesIs(j, g.tileByteWidth);
  }

  lemma TileAddress(g: Tiling, tr: nat, j: nat, line: nat, c: nat, tile: nat)
    requires g.Valid() && tile == tr * g.TilesAcross() + j
    ensures g.Tile(tr, j) == tile
    ensures g.TileStart(tile) + (g.TileLine(line) + c)
         == g.base + tile * (g.tileLength * g.tileByteWidth) + (line * g.tileByteWidth + c)
  {
    hide Times, Tiling.TilesAcross;
    TimesIs(tr, g.TilesAcross());
    TimesIs(tile, g.TileBytes());
    TimesIs(g.tileLength, g.tileByteWidth);
    TimesIs(line, g.tileByteWidth);
  }

  lemma PixelIs(g: Tiling, raster: seq<byte>, row: nat, column: nat, x: nat)
    requires g.Valid() && |raster| == g.ImageBytes() && x == row * g.imageByteWidth + column
    ensures if row < g.imageLength && column < g.imageByteWidth then
              x < |raster| && g.Pixel(raster, row, column) == raster[x]
            else g.Pixel(raster, row, column) == 0
  {
    TimesIs(row, g.imageByteWidth);
    if row < g.imageLength && column < g.imageByteWidth {
      g.PixelIndex(row, column);
    }
  }

  lemma CellHeld(g: Tiling, data: seq<byte>, raster: seq<byte>, tr: nat, j: nat, line: nat, c: nat)
    requires g.Valid() && |raster| == g.ImageBytes() && HoldsImage(g, data, raster)
    requires tr < g.TilesDown() && j < g.TilesAcross() && line < g.tileLength && c < g.tileByteWidth
    ensures g.TileStart(g.Tile(tr, j)) + (g.TileLine(line) + c) < |data|
    ensures data[g.TileStart(g.Tile(tr, j)) + (g.TileLine(line) + c)]
         == g.Cell(raster, g.Tile(tr, j), g.TileLine(line) + c)
  {
    hide Tiling.Cell, Tiling.TilesAcross, Tiling.TilesDown, Tiling.TileStart;
    TimesMono(tr, g.TilesDown(), g.TilesAcross());
    TimesMono(tr + 1, g.TilesDown(), g.TilesAcross());
    TimesMono(line + 1, g.tileLength, g.tileByteWidth);
    TimesNext(tr, g.TilesAcross());
    TimesNext(line, g.tileByteWidth);
    assert SettledTo(g, data, raster, g.Tile(tr, j), g.TileBytes());
    assert Settled(g, data, raster, g.Tile(tr, j), g.TileLine(line) + c);
  }

  /** The spot of a raster position, as quotients and remainders. */
  lemma SpotOf(g: Tiling, x: nat) returns (s: Spot)
    requires g.Valid() && x < g.ImageBytes()
    ensures s.Ok(g) && s.Position(g) == x && g.Tile(s.tr, s.j) < g.TileCount()
    ensures s.Row(g) == x / g.imageByteWidth && s.line == s.Row(g) % g.tileLength && s.tr == s.Row(g) / g.tileLength
    ensures x - g.LineStart(s.Row(g)) == g.Edge(s.j) + s.c
    ensures (g.Edge(s.j) + s.c) / g.tileByteWidth == s.j && (g.Edge(s.j) + s.c) % g.tileByteWidth == s.c
  {
    hide Tiling.TilesAcross, Tiling.Edge, Tiling.TilesDown, Tiling.TileCount;
    var row, column := x / g.imageByteWidth, x % g.imageByteWidth;
    TimesSplit(x, g.imageByteWidth);
    TimesSplit(row, g.tileLength);
    g.ColumnOf(column);
    s := Spot(row / g.tileLength, column / g.tileByteWidth, row % g.tileLength, column % g.tileByteWidth);
    if g.imageLength <= row {
      TimesMono(g.imageLength, row, g.imageByteWidth);
    }
    g.TileInGrid(s.tr, s.j, row);
  }

  /** The sweep stands at the spot of its raster position. */
  lemma SweepSpot(g: Tiling, p: Sweep, s: Spot)
    requires p.Ok(g) && p.AtTile(g) && s.Ok(g) && s.Position(g) == p.At(g)
    ensures s.tr == p.tileRow && s.j == p.next
    ensures p.Line() == s.Row(g) && p.NextColumn(g) == g.Edge(s.j) + s.c
  {
    hide Tiling.TilesAcross, Tiling.Edge;
    p.NextTile(g);
    g.EdgeOfColumn(s.j);
    g.EdgeOfColumn(p.next);
    g.EdgeMono(s.j + 1, s.j + 1);
    g.RowAndColumn(p.At(g), p.Line(), p.NextColumn(g));
    g.RowAndColumn(p.At(g), s.Row(g), g.Edge(s.j) + s.c);
    SameRun(g.tileLength, p.tileRow, s.tr, s.Row(g));
    if s.j < p.next {
      g.EdgeMono(s.j + 1, p.next);
    } else if p.next < s.j {
      g.EdgeMono(p.next + 1, s.j);
    }
  }

  lemma SameRun(w: nat, a: nat, b: nat, x: nat)
    requires Times(a, w) <= x < Times(a + 1, w) && Times(b, w) <= x < Times(b + 1, w)
    ensures a == b
  {
    if a < b {
      TimesMono(a + 1, b, w);
    } else if b < a {
      TimesMono(b + 1, a, w);
    }
  }

  /** The quotient that switches the padding on is 1 for the last tile column and 0 for the others. */
  lemma LastColumn(g: Tiling, j: nat)
    requires g.Valid() && j < g.TilesAcross()
    ensures (j + 1) / g.TilesAcross() == if j + 1 == g.TilesAcross() then 1 else 0
  {
    if j + 1 == g.TilesAcross() {
      DivModUnique(j + 1, g.TilesAcross(), 1, 0);
    } else {
      DivModUnique(j + 1, g.TilesAcross(), 0, j + 1);
    }
  }

  /** The tile grid counted in elements and in bytes. */
  lemma AcrossInElements(g: Tiling, width: nat, tile: nat, elementSize: nat)
    requires 0 < width && 0 < tile && 0 < elementSize
    requires g.imageByteWidth == Scaled(width, elementSize) && g.tileByteWidth == Scaled(tile, elementSize)
    ensures 0 < g.imageByteWidth && 0 < g.tileByteWidth
    ensures (g.imageByteWidth + g.tileByteWidth - 1) / g.tileByteWidth == (width + tile - 1) / tile
  {
    var q, r := (width + tile - 1) / tile, (width + tile - 1) % tile;
    assert width + tile - 1 == q * tile + r;
    assert (width + tile) * elementSize == (q * tile + r + 1) * elementSize;
    assert (q * tile + r + 1) * elementSize == q * (tile * elementSize) + (r + 1) * elementSize;
    MulMono(r + 1, tile, elementSize);
    MulMono(1, r + 1, elementSize);
    MulMono(1, tile, elementSize);
    MulMono(1, width, elementSize);
    DivModUnique(width * elementSize + tile * elementSize - 1, tile * elementSize, q, (r + 1) * elementSize - 1);
  }

  /** What both directions compute first: the number of tiles across the image, and the bytes that pad its
      right edge. */
  method Columns(ghost g: Tiling, imageWidth: nat, tileWidth: nat, elementSize: nat)
    returns (tilesAcross: nat, widthPadding: nat)
    requires g.Valid() && 0 < imageWidth && 0 < tileWidth && 0 < elementSize
    requires g.imageByteWidth == Scaled(imageWidth, elementSize) && g.tileByteWidth == Scaled(tileWidth, elementSize)
    ensures tilesAcross == g.TilesAcross()
    ensures widthPadding == g.TileLine(tilesAcross) - g.imageByteWidth
  {
    var imageByteWidth := Scaled(imageWidth, elementSize);
    var tileByteWidth := Scaled(tileWidth, elementSize);
    tilesAcross := (imageWidth + tileWidth - 1) / tileWidth;
    AcrossInElements(g, imageWidth, tileWidth, elementSize);
    TimesIs(tilesAcross, tileByteWidth);
    g.Grid();
    widthPadding := tileByteWidth * tilesAcross - imageByteWidth;
  }

  /** What both directions compute from the raster position x: its line and column, its tile, and
      the bytes that pad the tile on the right. */
  method LocateTile(ghost g: Tiling, imageByteWidth: nat, tileByteWidth: nat, tileLength: nat, tilesAcross: nat,
                    widthPadding: nat, x: nat)
    returns (row: nat, column: nat, tileIndex: nat, paddedBytes: nat, ghost spot: Spot)
    requires g.Valid() && x < g.ImageBytes()
    requires imageByteWidth == g.imageByteWidth && tileByteWidth == g.tileByteWidth && tileLength == g.tileLength
    requires tilesAcross == g.TilesAcross() && widthPadding == g.TileLine(tilesAcross) - imageByteWidth
    ensures x == g.LineStart(row) + column && column < imageByteWidth
    ensures spot.Ok(g) && spot.Position(g) == x
    ensures row == spot.Row(g) && row % tileLength == spot.line
    ensures column == g.Edge(spot.j) + spot.c && column % tileByteWidth == spot.c
    ensures tileIndex == g.Tile(spot.tr, spot.j) < g.TileCount()
    ensures paddedBytes == g.PaddedBytes(spot.j)
  {
    hide *;
    spot := SpotOf(g, x);
    SpotInGrid(g, spot);
    row, column := LineAndColumn(g, imageByteWidth, x);
    var tileRow := row / tileLength;
    var tileColumn := column / tileByteWidth;
    tileIndex := TileIndex(g, tileRow, tilesAcross, tileColumn);
    paddedBytes := PaddedBytes(g, tilesAcross, widthPadding, tileColumn);
  }

  /** The line of a raster position, and its column. */
  method LineAndColumn(ghost g: Tiling, imageByteWidth: nat, x: nat) returns (row: nat, column: nat)
    requires 0 < imageByteWidth == g.imageByteWidth
    ensures row == x / imageByteWidth && x == g.LineStart(row) + column && column < imageByteWidth
  {
    hide Times;
    row := x / imageByteWidth;
    TimesSplit(x, imageByteWidth);
    TimesIs(row, imageByteWidth);
    column := x - row * imageByteWidth;
  }

  method TileIndex(ghost g: Tiling, tileRow: nat, tilesAcross: nat, tileColumn: nat) returns (tileIndex: nat)
    requires g.Valid() && tilesAcross == g.TilesAcross()
    ensures tileIndex == g.Tile(tileRow, tileColumn)
  {
    hide Times, Tiling.TilesAcross;
    TimesIs(tileRow, tilesAcross);
    tileIndex := tileRow * tilesAcross + tileColumn;
  }

  /** The bytes that pad a tile column: those of the right edge in the last column. */
  method PaddedBytes(ghost g: Tiling, tilesAcross: nat, widthPadding: nat, tileColumn: nat) returns (paddedBytes: nat)
    requires g.Valid() && tilesAcross == g.TilesAcross() && tileColumn < tilesAcross
    requires widthPadding == g.TileLine(tilesAcross) - g.imageByteWidth
    ensures paddedBytes == g.PaddedBytes(tileColumn)
  {
    hide Tiling.TilesAcross, Tiling.Edge;
    LastColumn(g, tileColumn);
    g.EdgeOfColumn(tileColumn);
    paddedBytes := (tileColumn + 1) / tilesAcross * widthPadding;
  }

  lemma SpotInGrid(g: Tiling, s: Spot)
    requires s.Ok(g)
    ensures g.Valid() && s.j < g.TilesAcross() && 0 < g.tileLength && 0 < g.tileByteWidth && 0 < g.imageByteWidth
  {
  }
}
