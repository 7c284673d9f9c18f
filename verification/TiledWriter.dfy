/** The tiled half of ImageWriter. */
module TiledWriter {
  import opened Arithmetic
  import opened Storage
  import opened TileLayout
  import opened TileSweep
  import opened TiledImage
  import opened TileGathering
  import opened TileSweepContent
  import opened TilePosition
  import opened TileBottom

  class ImageWriter {
    const output: SeekableFile
    const imageWidth: nat
    const imageLength: nat
    const elementSize: nat
    var tileWidth: nat
    var tileLength: nat
    var tileOffsets: seq<nat>
    var tileByteCounts: seq<nat>
    var bytePosition: nat
    ghost var base: nat

    constructor (output: SeekableFile, imageWidth: nat, imageLength: nat, elementSize: nat)
      ensures this.output == output && this.imageWidth == imageWidth
      ensures this.imageLength == imageLength && this.elementSize == elementSize
      ensures bytePosition == 0
    {
      this.output, this.imageWidth, this.imageLength, this.elementSize := output, imageWidth, imageLength, elementSize;
      tileWidth, tileLength, tileOffsets, tileByteCounts, bytePosition, base := 0, 0, [], [], 0, 0;
    }

    /** The layout that the tile entries describe. */
    ghost function Layout(): Tiling
      reads `tileWidth, `tileLength, `base
    {
      Tiling(Scaled(imageWidth, elementSize), imageLength, Scaled(tileWidth, elementSize), tileLength, base)
    }

    ghost predicate Valid()
      reads this
    {
      && 0 < imageWidth && 0 < elementSize && 0 < tileWidth
      && Layout().Valid()
      && |tileOffsets| == Layout().TileCount() == |tileByteCounts|
      && (forall t :: 0 <= t < |tileOffsets| ==> tileOffsets[t] == Layout().TileStart(t))
      && (forall t :: 0 <= t < |tileByteCounts| ==> tileByteCounts[t] == Layout().TileBytes())
      && bytePosition <= Layout().ImageBytes() && Whole(bytePosition, elementSize)
    }

    lemma LayoutIs()
      ensures Layout().imageByteWidth == Scaled(imageWidth, elementSize)
        && Layout().tileByteWidth == Scaled(tileWidth, elementSize)
      ensures Layout().imageLength == imageLength && Layout().tileLength == tileLength && Layout().base == base
      ensures Layout().ImageBytes() == imageWidth * imageLength * elementSize
      ensures 0 < elementSize ==>
        Whole(Layout().imageByteWidth, elementSize) && Whole(Layout().tileByteWidth, elementSize)
    {
      TimesIs(imageLength, imageWidth * elementSize);
      assert imageLength * (imageWidth * elementSize) == imageWidth * imageLength * elementSize;
      if 0 < elementSize {
        ScaledIsWhole(imageWidth, elementSize);
        ScaledIsWhole(tileWidth, elementSize);
      }
    }

    /** Tiles of about the ideal size are laid out. Their side is a multiple of 16; an ideal size that is smaller
        than one element makes it 0, by which the program then divides. */
    method InitTiles(idealChunkSize: nat) returns (ok: bool)
      requires 0 < imageWidth && 0 < imageLength && 0 < elementSize && bytePosition == 0
      modifies this
      ensures ok <==> elementSize <= idealChunkSize
      ensures ok ==> Valid() && bytePosition == 0 && base == output.pos
      ensures ok ==> tileWidth == tileLength && IsSide(tileWidth, idealChunkSize, elementSize)
    {
      hide *;
      var tileSize := TileSide(idealChunkSize, elementSize);
      ok := tileSize != 0;
      if ok {
        LayTiles(tileSize);
      }
    }

    /** Square tiles are laid out one after the other from the cursor on, tile row by tile row. */
    method LayTiles(tileSize: nat)
      requires 0 < imageWidth && 0 < imageLength && 0 < elementSize && 0 < tileSize && bytePosition == 0
      modifies this
      ensures Valid() && bytePosition == 0
      ensures tileWidth == tileSize == tileLength && base == output.pos
    {
      hide Whole;
      var tilesAcross := (imageWidth + tileSize - 1) / tileSize;
      var tilesDown := (imageLength + tileSize - 1) / tileSize;
      var byteCount := tileSize * tileSize * elementSize;
      tileWidth, tileLength, base := tileSize, tileSize, output.pos;
      tileOffsets, tileByteCounts := TileEntries(tilesDown, tilesAcross, byteCount, output.pos);
      LayoutIs();
      GridInElements(Layout(), imageWidth, tileSize, elementSize);
      ScaledIsWhole(0, elementSize);
      hide Layout, Tiling.TilesAcross, Tiling.TilesDown, Tiling.TileBytes;
    }

    /** One pass of the outer loop of putTileData: writes everything of the call that belongs to the tile
        at tempBytePosition. */
    method WriteTile(buffer: seq<byte>, numBytesToWrite: nat, tempBytePosition0: nat, globalReadOffset0: nat,
                     remainingElementsToWrite0: nat, currentNumBytesRead0: nat, ghost raster: seq<byte>, ghost p: Sweep)
      returns (tempBytePosition: nat, globalReadOffset: nat, remainingElementsToWrite: int, currentNumBytesRead: nat)
      requires Valid() && |raster| == Layout().ImageBytes()
      requires numBytesToWrite <= |buffer| && bytePosition + numBytesToWrite <= |raster|
      requires buffer[..numBytesToWrite] == raster[bytePosition..bytePosition + numBytesToWrite]
      requires Underway(Layout(), p, bytePosition, bytePosition + numBytesToWrite) && p.AtTile(Layout())
      requires tempBytePosition0 == p.At(Layout()) == bytePosition + globalReadOffset0
      requires globalReadOffset0 < numBytesToWrite
      requires currentNumBytesRead0 == Done(Layout(), p, bytePosition, bytePosition + numBytesToWrite)
      requires Whole(numBytesToWrite, elementSize) && Whole(globalReadOffset0, elementSize)
      requires HoldsSweep(Layout(), output.data, raster, p, bytePosition, bytePosition + numBytesToWrite)
      modifies output
      ensures Underway(Layout(), p.(next := p.next + 1), bytePosition, bytePosition + numBytesToWrite)
      ensures tempBytePosition == p.(next := p.next + 1).At(Layout()) == bytePosition + globalReadOffset
      ensures currentNumBytesRead
        == Done(Layout(), p.(next := p.next + 1), bytePosition, bytePosition + numBytesToWrite)
      ensures currentNumBytesRead0 < currentNumBytesRead
      ensures Whole(globalReadOffset, elementSize)
      ensures Scaled(remainingElementsToWrite, elementSize) + currentNumBytesRead
           == Scaled(remainingElementsToWrite0, elementSize) + currentNumBytesRead0
      ensures HoldsSweep(Layout(), output.data, raster, p.(next := p.next + 1), bytePosition,
                         bytePosition + numBytesToWrite)
      ensures SameButTile(Layout(), old(output.data), output.data, Layout().Tile(p.tileRow, p.next))
      ensures SameOutside(Layout(), old(output.data), output.data)
    {
      LayoutIs();
      hide Whole, Scaled, Done, Gathered, HoldsSweep, SameOutside, SameButTile, Overwrite, Sweep.Swept, Sweep.Copied;
      hide Layout, Tiling.TilesAcross, Tiling.Edge, Tiling.RowStart, Tiling.TileCount, Tiling.TileStart;
      hide Tiling.TileBytes, Tiling.ImageBytes, Tiling.Tile;
      hide Gathering.FirstOffset, Gathering.LastOffset, Gathering.Remaining, Gathering.Bytes, Gathering.Complete;
      hide Gathering.Reached, Spot.Position;
      ghost var g, end := Layout(), bytePosition + numBytesToWrite;
      var imageByteWidth := Scaled(imageWidth, elementSize);
      var tileByteWidth := Scaled(tileWidth, elementSize);
      var tilesAcross, widthPadding := Columns(Layout(), imageWidth, tileWidth, elementSize);
      var row, column, tileIndex, paddedBytes;
      ghost var spot;
      row, column, tileIndex, paddedBytes, spot :=
        LocateTile(g, imageByteWidth, tileByteWidth, tileLength, tilesAcross, widthPadding, tempBytePosition0);
      SweepSpot(g, p, spot);
      WholeSum(bytePosition, globalReadOffset0, elementSize);
      spot.RestWhole(g, elementSize);
      ghost var s := Gathering(p.tileRow, p.next, row, column, 0, column - g.Edge(p.next));
      p.NextTile(g);
      var tileByteCount := tileByteCounts[tileIndex];
      var remainingBytesInTile := RemainingBytesInTile(g, tileByteCount, tileLength, tileByteWidth, paddedBytes,
                                                       row % tileLength, column % tileByteWidth, s);
      tempBytePosition := tempBytePosition0 + (tileByteWidth - (paddedBytes + column % tileByteWidth));
      var copyBuffer, copyOffset;
      ghost var done;
      copyBuffer, copyOffset, globalReadOffset, remainingElementsToWrite, currentNumBytesRead, done :=
        GatherTile(g, imageByteWidth, tileByteWidth, tileLength, buffer, numBytesToWrite, row, column, elementSize,
                   paddedBytes, remainingBytesInTile, globalReadOffset0, remainingElementsToWrite0,
                   currentNumBytesRead0, raster, bytePosition, p.tileRow, p.next);
      TimesIs(row % tileLength, tileByteWidth);
      TileDone(g, output.data, raster, p, bytePosition, end, done, copyBuffer[..], copyOffset,
               currentNumBytesRead - currentNumBytesRead0, row % tileLength * tileByteWidth + column % tileByteWidth);
      var seekPos := tileOffsets[tileIndex];
      seekPos := seekPos + row % tileLength * tileByteWidth;
      seekPos := seekPos + column % tileByteWidth;
      output.Seek(seekPos);
      output.Write(copyBuffer[..copyOffset]);
    }

    /** The head of the outer loop: at the end of a tile row, on to the one below. */
    method MoveOn(imageByteWidth: nat, tempBytePosition0: nat, globalReadOffset0: nat,
                  ghost remainingElementsToWrite: int, currentNumBytesRead: nat, ghost numBytesToWrite: nat,
                  ghost p: Sweep)
      returns (tempBytePosition: nat, globalReadOffset: nat)
      requires Valid() && imageByteWidth == Layout().imageByteWidth
      requires Underway(Layout(), p, bytePosition, bytePosition + numBytesToWrite)
      requires tempBytePosition0 == p.At(Layout()) == bytePosition + globalReadOffset0
      requires currentNumBytesRead == Done(Layout(), p, bytePosition, bytePosition + numBytesToWrite)
      requires Scaled(remainingElementsToWrite, elementSize) + currentNumBytesRead == numBytesToWrite
      requires Whole(numBytesToWrite, elementSize) && Whole(globalReadOffset0, elementSize)
      ensures tempBytePosition == bytePosition + globalReadOffset && Whole(globalReadOffset, elementSize)
      ensures var y := bytePosition + currentNumBytesRead;
              tempBytePosition == if y == Layout().RowStart(p.tileRow + 1) then y else tempBytePosition0
    {
      LayoutIs();
      hide Layout, Scaled, Whole, Done, Underway, Sweep.At, Tiling.RowStart;
      MovesOn(Layout(), p, bytePosition, bytePosition + numBytesToWrite);
      tempBytePosition, globalReadOffset := tempBytePosition0, globalReadOffset0;
      var tileElemLength := tileLength;
      if (bytePosition + currentNumBytesRead) / imageByteWidth / tileElemLength
           > tempBytePosition / imageByteWidth / tileElemLength {
        tempBytePosition := bytePosition + currentNumBytesRead;
        globalReadOffset := currentNumBytesRead;
        ScaledIsWhole(remainingElementsToWrite, elementSize);
        WholeSum(numBytesToWrite, Scaled(remainingElementsToWrite, elementSize), elementSize);
      }
    }

    /** The outer loop of putTileData. */
    method WriteTiles(buffer: seq<byte>, numElementsToWrite: nat, ghost raster: seq<byte>)
      requires Valid() && |raster| == Layout().ImageBytes()
      requires Scaled(numElementsToWrite, elementSize) <= |buffer|
      requires bytePosition + Scaled(numElementsToWrite, elementSize) <= |raster|
      requires buffer[..Scaled(numElementsToWrite, elementSize)]
        == raster[bytePosition..bytePosition + Scaled(numElementsToWrite, elementSize)]
      requires HoldsPrefix(Layout(), output.data, raster, bytePosition)
      modifies output
      ensures HoldsPrefix(Layout(), output.data, raster, bytePosition + Scaled(numElementsToWrite, elementSize))
      ensures SameOutside(Layout(), old(output.data), output.data)
    {
      LayoutIs();
      hide Layout, Tiling.TilesAcross, Tiling.Edge, Tiling.RowStart, Tiling.TileCount, Tiling.TileStart;
      hide Tiling.TileBytes, Tiling.ImageBytes;
      hide Scaled, Whole, Done, HoldsSweep, HoldsPrefix, Sweep.Swept, Sweep.Copied, Sweep.At;
      ghost var g := Layout();
      var imageByteWidth := Scaled(imageWidth, elementSize);
      var globalReadOffset: nat, tempBytePosition: nat := 0, bytePosition;
      var numBytesToWrite: nat := Scaled(numElementsToWrite, elementSize);
      var currentNumBytesRead: nat := 0;
      var remainingElementsToWrite: int := numElementsToWrite;
      ghost var start, end := bytePosition, bytePosition + numBytesToWrite;
      ghost var row, column := start / g.imageByteWidth, start % g.imageByteWidth;
      ghost var p := Sweep(row, column, row / g.tileLength, column / g.tileByteWidth, column / g.tileByteWidth, false);
      SweepBegins(g, output.data, raster, p, start, end);
      ScaledIsWhole(numElementsToWrite, elementSize);
      WholeSum(numBytesToWrite, numBytesToWrite, elementSize);
      while remainingElementsToWrite != 0
        invariant Underway(g, p, start, end) && HoldsSweep(g, output.data, raster, p, start, end)
        invariant tempBytePosition == p.At(g) == start + globalReadOffset
        invariant currentNumBytesRead == Done(g, p, start, end) <= numBytesToWrite
        invariant Scaled(remainingElementsToWrite, elementSize) + currentNumBytesRead == numBytesToWrite
        invariant Whole(globalReadOffset, elementSize)
        invariant SameOutside(g, old(output.data), output.data)
        decreases numBytesToWrite - currentNumBytesRead
      {
        ScaledSign(remainingElementsToWrite, elementSize);
        ghost var q := Continued(g, output.data, raster, p, start, end);
        tempBytePosition, globalReadOffset :=
          MoveOn(imageByteWidth, tempBytePosition, globalReadOffset, remainingElementsToWrite, currentNumBytesRead,
                 numBytesToWrite, p);
        tempBytePosition, globalReadOffset, remainingElementsToWrite, currentNumBytesRead :=
          WriteTile(buffer, numBytesToWrite, tempBytePosition, globalReadOffset, remainingElementsToWrite,
                    currentNumBytesRead, raster, q);
        p := q.(next := q.next + 1);
        DoneBounds(g, p, start, end);
      }
      ScaledSign(0, elementSize);
      SweepEnds(g, output.data, raster, p, start, end);
    }

    /** The end of putTileData once all real data is in: pads the bottom of the last tile row, or
        leaves the cursor behind the last tile. */
    method PadBottom(ghost raster: seq<byte>)
      requires Valid() && |raster| == Layout().ImageBytes() == bytePosition
      requires HoldsPrefix(Layout(), output.data, raster, bytePosition)
      modifies output
      ensures HoldsPrefix(Layout(), output.data, raster, bytePosition)
      ensures HoldsImage(Layout(), output.data, raster)
      ensures output.pos == Layout().TileStart(Layout().TileCount())
      ensures SameOutside(Layout(), old(output.data), output.data)
    {
      LayoutIs();
      hide Whole, HoldsPrefix, HoldsImage, SameOutside, Overwrite;
      hide Layout, Tiling.TilesAcross, Tiling.TilesDown, Tiling.TileCount, Tiling.TileBytes, Tiling.ImageBytes;
      hide Tiling.Tile;
      ghost var g := Layout();
      var tileByteWidth := Scaled(tileWidth, elementSize);
      var tilesAcross, widthPadding := Columns(Layout(), imageWidth, tileWidth, elementSize);
      g.Grid();
      BottomTile(g, tilesAcross - 1);
      var startIndex := BottomStart(tilesAcross);
      var paddingStartLine := imageLength % tileLength;
      SameOutsideSelf(g, output.data);
      if paddingStartLine != 0 {
        var paddedLines := tileLength - paddingStartLine;
        TimesAdd(paddingStartLine, paddedLines, tileByteWidth);
        TimesIs(paddingStartLine, tileByteWidth);
        TimesIs(paddedLines, tileByteWidth);
        TileBytesOf(g);
        var padBuffer := Zeros(paddedLines * tileByteWidth);
        for i := 0 to tilesAcross
          invariant HoldsPrefix(g, output.data, raster, bytePosition)
          invariant SameOutside(g, old(output.data), output.data)
          invariant BottomSettled(g, output.data, raster, i)
          invariant 0 < i ==> output.pos == g.TileStart(startIndex + i)
        {
          BottomPadded(g, old(output.data), output.data, raster, i, padBuffer, paddingStartLine * tileByteWidth);
          var seekPos := tileOffsets[startIndex + i];
          seekPos := seekPos + paddingStartLine * tileByteWidth;
          output.Seek(seekPos);
          output.Write(padBuffer);
        }
      } else {
        var lastTileIndex := |tileOffsets| - 1;
        var seekPos := tileOffsets[lastTileIndex];
        seekPos := seekPos + tileByteCounts[lastTileIndex];
        output.Seek(seekPos);
      }
      WholeImage(g, output.data, raster);
    }

    /** The index of the first tile of the bottom tile row. */
    method BottomStart(tilesAcross: nat) returns (startIndex: nat)
      requires Valid() && tilesAcross == Layout().TilesAcross()
      ensures startIndex == Layout().TileCount() - tilesAcross
    {
      Layout().Grid();
      BottomTile(Layout(), 0);
      var tilesDown := (imageLength + tileLength - 1) / tileLength;
      TimesIs(tilesDown - 1, tilesAcross);
      startIndex := (tilesDown - 1) * tilesAcross;
    }

    /** Writes the next elements of the raster, wherever its tiles lie in the file. */
    method PutTileData(buffer: seq<byte>, numElementsToWrite: nat, ghost raster: seq<byte>)
      requires Valid() && |raster| == Layout().ImageBytes()
      requires Scaled(numElementsToWrite, elementSize) <= |buffer|
      requires bytePosition + Scaled(numElementsToWrite, elementSize) <= |raster|
      requires buffer[..Scaled(numElementsToWrite, elementSize)]
        == raster[bytePosition..bytePosition + Scaled(numElementsToWrite, elementSize)]
      requires HoldsPrefix(Layout(), output.data, raster, bytePosition)
      modifies `bytePosition, output
      ensures Valid() && bytePosition == old(bytePosition) + Scaled(numElementsToWrite, elementSize)
      ensures HoldsPrefix(Layout(), output.data, raster, bytePosition)
      ensures bytePosition == |raster| ==>
        HoldsImage(Layout(), output.data, raster) && output.pos == Layout().TileStart(Layout().TileCount())
      ensures SameOutside(Layout(), old(output.data), output.data)
    {
      LayoutIs();
      hide Layout, Tiling.TileCount, Tiling.TileStart, Tiling.TileBytes, Tiling.ImageBytes, HoldsPrefix, HoldsImage;
      hide Whole;
      WriteTiles(buffer, numElementsToWrite, raster);
      ScaledIsWhole(numElementsToWrite, elementSize);
      WholeSum(bytePosition, Scaled(numElementsToWrite, elementSize), elementSize);
      bytePosition := bytePosition + Scaled(numElementsToWrite, elementSize);
      if bytePosition == imageWidth * imageLength * elementSize {
        PadBottom(raster);
      }
    }
  }

  /** The largest number whose square is no larger than n. */
  function FloorRoot(n: nat): (r: nat)
    ensures r * r <= n < (r + 1) * (r + 1)
  {
    if n == 0 then 0
    else
      var r := FloorRoot(n - 1);
      if (r + 1) * (r + 1) <= n then r + 1 else r
  }

  /** The least multiple of 16 that is no smaller than the largest side of a square of elements that the ideal size
      has room for. */
  ghost predicate IsSide(tileSize: nat, idealChunkSize: nat, elementSize: nat)
  {
    && tileSize % 16 == 0
    && exists root: nat :: root <= tileSize < root + 16
         && root * root * elementSize <= idealChunkSize < (root + 1) * (root + 1) * elementSize
  }

  method TileSide(idealChunkSize: nat, elementSize: nat) returns (tileSize: nat)
    requires 0 < elementSize
    ensures IsSide(tileSize, idealChunkSize, elementSize)
    ensures tileSize == 0 <==> idealChunkSize < elementSize
  {
    var root := FloorRoot(idealChunkSize / elementSize);
    var ceiling := (root + 15) / 16;
    tileSize := ceiling * 16;
    RootOfQuotient(idealChunkSize, elementSize);
  }

  lemma RootOfQuotient(n: nat, d: nat)
    requires 0 < d
    ensures var r := FloorRoot(n / d);
            r * r * d <= n < (r + 1) * (r + 1) * d && (r == 0 <==> n < d)
  {
    hide *;
    var r := FloorRoot(n / d);
    QuotientBetween(n, d, r * r, (r + 1) * (r + 1));
    if 0 < r {
      MulMono(1, r, r);
    }
  }

  lemma QuotientBetween(n: nat, d: nat, low: nat, high: nat)
    requires 0 < d && low <= n / d < high
    ensures low * d <= n < high * d && (n / d == 0 <==> n < d)
  {
    var q := n / d;
    assert q * d <= n < q * d + d;
    MulMono(low, q, d);
    MulStrictMono(q, high, d);
  }

  /** Tile after tile, each byteCount long. */
  ghost predicate InRow(tileOffsets: seq<nat>, tileByteCounts: seq<nat>, byteCount: nat, first: nat)
  {
    && |tileOffsets| == |tileByteCounts|
    && forall t :: 0 <= t < |tileOffsets| ==>
         tileOffsets[t] == first + Times(t, byteCount) && tileByteCounts[t] == byteCount
  }

  lemma OneMoreTile(tileOffsets: seq<nat>, tileByteCounts: seq<nat>, byteCount: nat, first: nat)
    requires InRow(tileOffsets, tileByteCounts, byteCount, first)
    ensures InRow(tileOffsets + [first + Times(|tileOffsets|, byteCount)], tileByteCounts + [byteCount], byteCount,
                  first)
  {
  }

  /** The loops of initTiles: the offset and the byte count of every tile, tile row by tile row. */
  method TileEntries(tilesDown: nat, tilesAcross: nat, byteCount: nat, fileOffset0: nat)
    returns (tileOffsets: seq<nat>, tileByteCounts: seq<nat>)
    ensures |tileOffsets| == Times(tilesDown, tilesAcross)
    ensures InRow(tileOffsets, tileByteCounts, byteCount, fileOffset0)
  {
    var fileOffset := fileOffset0;
    tileByteCounts, tileOffsets := [], [];
    assert InRow(tileOffsets, tileByteCounts, byteCount, fileOffset0);
    hide InRow;
    for y := 0 to tilesDown
      invariant |tileOffsets| == Times(y, tilesAcross)
      invariant fileOffset == fileOffset0 + Times(|tileOffsets|, byteCount)
      invariant InRow(tileOffsets, tileByteCounts, byteCount, fileOffset0)
    {
      for x := 0 to tilesAcross
        invariant |tileOffsets| == Times(y, tilesAcross) + x
        invariant fileOffset == fileOffset0 + Times(|tileOffsets|, byteCount)
        invariant InRow(tileOffsets, tileByteCounts, byteCount, fileOffset0)
      {
        OneMoreTile(tileOffsets, tileByteCounts, byteCount, fileOffset0);
        tileOffsets := tileOffsets + [fileOffset];
        tileByteCounts := tileByteCounts + [byteCount];
        fileOffset := fileOffset + byteCount;
      }
    }
  }

  lemma SameOutsideSelf(g: Tiling, data: seq<byte>)
    requires g.Valid()
    ensures SameOutside(g, data, data)
  {
  }

  lemma TileBytesOf(g: Tiling)
    ensures g.TileBytes() == Times(g.tileLength, g.tileByteWidth)
  {
  }

  /** How many image bytes are still missing in the tile, as putTileData computes it. */
  method RemainingBytesInTile(ghost g: Tiling, tileByteCount: nat, tileLength: nat, tileByteWidth: nat,
                              paddedBytes: nat, rowInTile: nat, columnInTile: nat, ghost s: Gathering)
    returns (remaining: nat)
    requires s.Ok(g) && s.lines == 0 && s.inside == s.column - g.Edge(s.j)
    requires tileByteCount == g.TileBytes() && tileLength == g.tileLength && tileByteWidth == g.tileByteWidth
    requires paddedBytes == g.PaddedBytes(s.j) && rowInTile == s.TileLineNumber(g) && columnInTile == s.inside
    ensures remaining == s.Remaining(g)
  {
    hide Tiling.TilesAcross, Tiling.Edge;
    g.EdgeOfColumn(s.j);
    s.Offsets(g);
    TimesIs(tileLength, paddedBytes);
    TimesIs(rowInTile, tileByteWidth - paddedBytes);
    TimesWider(tileLength, paddedBytes, tileByteWidth - paddedBytes);
    TimesAdd(rowInTile, tileLength - rowInTile, tileByteWidth - paddedBytes);
    remaining := tileByteCount - tileLength * paddedBytes - (rowInTile * (tileByteWidth - paddedBytes) + columnInTile);
  }

  lemma GridInElements(g: Tiling, width: nat, tile: nat, elementSize: nat)
    requires 0 < width && 0 < tile && 0 < elementSize && 0 < g.imageLength
    requires g.imageByteWidth == Scaled(width, elementSize) && g.tileByteWidth == Scaled(tile, elementSize)
      && g.tileLength == tile
    ensures g.Valid() && g.TilesAcross() == (width + tile - 1) / tile
      && g.TilesDown() == (g.imageLength + tile - 1) / tile
    ensures g.TileBytes() == tile * tile * elementSize
    ensures g.TileCount() == Times(g.TilesDown(), g.TilesAcross())
  {
    AcrossInElements(g, width, tile, elementSize);
    TimesIs(tile, tile * elementSize);
  }
}
