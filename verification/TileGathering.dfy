/** Collecting from the caller's buffer what belongs to one tile: the inner loop of putTileData. */
module TileGathering {
  import opened Arithmetic
  import opened Storage
  import opened TileLayout

  /** A tile column's share of one call, gathered line by line: the sweep entered tile column j of
      tile row tr at (row, column); since then lines whole lines of the column were gathered, and
      the line under way up to inside bytes into the column. */
  datatype Gathering = Gathering(tr: nat, j: nat, row: nat, column: nat, lines: nat, inside: nat) {

    ghost predicate Ok(g: Tiling)
    {
      && g.Valid() && j < g.TilesAcross()
      && g.Edge(j) <= column < g.Edge(j + 1)
      && g.FirstLine(tr) <= row < g.FirstLine(tr + 1)
      && row + lines <= g.FirstLine(tr + 1)
      && inside < g.Width(j)
      && (0 < inside ==> row + lines < g.FirstLine(tr + 1))
      && (lines == 0 ==> column <= g.Edge(j) + inside)
    }

    /** There is a line under way. */
    ghost predicate Unfinished(g: Tiling) { row + lines < g.FirstLine(tr + 1) }

    /** The line of the tile that is under way. */
    function TileLineNumber(g: Tiling): nat
      requires g.FirstLine(tr) <= row
    {
      row - g.FirstLine(tr) + lines
    }

    /** The raster position the call entered the column at, and the one that was reached. */
    function Start(g: Tiling): nat { g.LineStart(row) + column }

    function Reached(g: Tiling): nat { g.LineStart(row + lines) + g.Edge(j) + inside }

    /** The same two positions as offsets in the tile. */
    function FirstOffset(g: Tiling): int
      requires g.FirstLine(tr) <= row
    {
      g.TileLine(row - g.FirstLine(tr)) + column - g.Edge(j)
    }

    function LastOffset(g: Tiling): nat
      requires g.FirstLine(tr) <= row
    {
      g.TileLine(TileLineNumber(g)) + inside
    }

    /** The image bytes gathered so far. */
    function Bytes(g: Tiling): int
      requires 0 <= g.Width(j)
    {
      Times(lines, g.Width(j)) + inside - (column - g.Edge(j))
    }

    /** The image bytes of the tile that are still to come. */
    function Remaining(g: Tiling): int
      requires 0 <= g.Width(j) && row + lines <= g.FirstLine(tr + 1)
    {
      Times(g.FirstLine(tr + 1) - row - lines, g.Width(j)) - inside
    }

    /** The data ends before anything more of this tile. */
    ghost predicate Complete(g: Tiling, end: nat)
    {
      if 0 < inside then end == Reached(g)
      else
        && 0 < lines
        && g.LineStart(row + lines - 1) + g.Edge(j + 1) <= end
        && (row + lines == g.FirstLine(tr + 1) || end <= Reached(g))
    }

    lemma Offsets(g: Tiling)
      requires Ok(g)
      ensures 0 <= FirstOffset(g) <= LastOffset(g) <= g.TileBytes()
      ensures 0 <= Bytes(g) && 0 <= Remaining(g)
      ensures 0 < Remaining(g) <==> Unfinished(g)
    {
      hide Tiling.Edge, Tiling.TilesAcross;
      g.EdgeOfColumn(j);
      var first := row - g.FirstLine(tr);
      TimesMono(first, TileLineNumber(g), g.tileByteWidth);
      TimesMono(TileLineNumber(g), g.tileLength, g.tileByteWidth);
      TimesMono(0, lines, g.Width(j));
      TimesMono(0, g.FirstLine(tr + 1) - row - lines, g.Width(j));
    }

    /** The gathering at its beginning. */
    lemma Begin(g: Tiling, raster: seq<byte>, gathered: seq<byte>)
      requires Ok(g) && lines == 0 && inside == column - g.Edge(j) && |raster| == g.ImageBytes()
      ensures LastOffset(g) == FirstOffset(g) && Bytes(g) == 0 && Reached(g) == Start(g)
      ensures Faithful(g, raster, gathered, 0)
      ensures 0 < Remaining(g)
    {
    }

    /** The gathering seen from the raster position (r, e) at which its data ends. */
    lemma CollectedAt(g: Tiling, r: nat, e: nat)
      requires Ok(g) && e <= g.imageByteWidth
      requires row <= r < g.FirstLine(tr + 1)
      requires
        || (r == row + lines && e == g.Edge(j) + inside)
        || (r == row + lines && e <= g.Edge(j) && inside == 0)
        || (r + 1 == row + lines && g.Edge(j + 1) <= e && inside == 0)
      ensures var x := g.LineStart(r) + e;
        && g.Fill(tr, j, Start(g)) == FirstOffset(g)
        && g.Fill(tr, j, x) == LastOffset(g)
        && g.Span(j + 1, Start(g), x) - g.Span(j, Start(g), x) == Bytes(g)
    {
      hide Tiling.Left, Tiling.Fill, Tiling.Edge, Tiling.TilesAcross, Tiling.Span, Tiling.LineStart;
      g.EdgeMono(j, j + 1);
      g.EdgeMono(j + 1, j + 1);
      g.EdgeOfColumn(j);
      g.FillAt(tr, j, Start(g), row, column);
      g.FillAt(tr, j, g.LineStart(r) + e, r, e);
      g.Contribution(j, row, column, r, e);
    }

    /** What a finished gathering means for the tile: it is filled as far as the whole call fills it,
        and the bytes gathered are exactly those of the call that belong to it. */
    lemma Collected(g: Tiling, end: nat, x: nat)
      requires Ok(g) && Complete(g, end)
      requires x == if end <= g.RowStart(tr + 1) then end else g.RowStart(tr + 1)
      ensures g.Fill(tr, j, Start(g)) == FirstOffset(g)
      ensures g.Fill(tr, j, end) == LastOffset(g)
      ensures g.Span(j + 1, Start(g), x) - g.Span(j, Start(g), x) == Bytes(g)
    {
      hide Tiling.Left, Tiling.Fill, Tiling.Edge, Tiling.TilesAcross, Tiling.Span, Complete;
      if g.RowStart(tr + 1) <= end {
        CollectedRow(g, end);
      } else {
        CollectedPart(g, end);
      }
    }

    /** The call goes beyond the tile row. */
    lemma CollectedRow(g: Tiling, end: nat)
      requires Ok(g) && Complete(g, end) && g.RowStart(tr + 1) <= end
      ensures g.Fill(tr, j, Start(g)) == FirstOffset(g)
      ensures g.Fill(tr, j, end) == LastOffset(g)
      ensures g.Span(j + 1, Start(g), g.RowStart(tr + 1)) - g.Span(j, Start(g), g.RowStart(tr + 1)) == Bytes(g)
    {
      hide Tiling.Left, Tiling.Fill, Tiling.Edge, Tiling.TilesAcross, Tiling.Span;
      g.EdgeMono(j + 1, j + 1);
      g.EdgeOfColumn(j);
      TimesMono(row + lines, g.FirstLine(tr + 1), g.imageByteWidth);
      CollectedAt(g, g.FirstLine(tr + 1) - 1, g.imageByteWidth);
      g.FillPast(tr, j, end);
      g.FillPast(tr, j, g.RowStart(tr + 1));
    }

    /** The call ends inside the tile row. */
    lemma CollectedPart(g: Tiling, end: nat)
      requires Ok(g) && Complete(g, end) && end < g.RowStart(tr + 1)
      ensures g.Fill(tr, j, Start(g)) == FirstOffset(g)
      ensures g.Fill(tr, j, end) == LastOffset(g)
      ensures g.Span(j + 1, Start(g), end) - g.Span(j, Start(g), end) == Bytes(g)
    {
      hide Tiling.Left, Tiling.Fill, Tiling.Edge, Tiling.TilesAcross, Tiling.Span;
      g.EdgeMono(j + 1, j + 1);
      g.EdgeOfColumn(j);
      if 0 < inside {
        CollectedAt(g, row + lines, g.Edge(j) + inside);
      } else if end <= g.LineStart(row + lines) {
        CollectedAt(g, row + lines - 1, end - g.LineStart(row + lines - 1));
      } else {
        CollectedAt(g, row + lines, end - g.LineStart(row + lines));
      }
    }

    /** The tile byte at column c of the line under way: an image byte, or zero in the padding. */
    lemma LineContent(g: Tiling, raster: seq<byte>, c: nat)
      requires Ok(g) && |raster| == g.ImageBytes() && c < g.tileByteWidth && Unfinished(g)
      requires g.LineStart(row + lines) + g.Edge(j) < |raster|
      ensures var a := g.LineStart(row + lines) + g.Edge(j) + c;
        && (c < g.Width(j) ==> a < |raster|)
        && g.Cell(raster, g.Tile(tr, j), g.TileLine(TileLineNumber(g)) + c) == if c < g.Width(j) then raster[a] else 0
    {
      hide Tiling.Edge, Tiling.TilesAcross, Tiling.Cell;
      g.EdgeOfColumn(j);
      g.EdgeMono(j + 1, j + 1);
      g.Grid();
      if g.imageLength <= row + lines {
        TimesMono(g.imageLength, row + lines, g.imageByteWidth);
      }
      g.CellAt(raster, tr, j, TileLineNumber(g), c);
      if c < g.Width(j) {
        g.PixelIndex(row + lines, g.Edge(j) + c);
      }
    }

    /** The first n bytes gathered are what belongs to the tile from the first offset on. */
    ghost predicate Faithful(g: Tiling, raster: seq<byte>, gathered: seq<byte>, n: int)
      requires Ok(g) && |raster| == g.ImageBytes()
    {
      && n <= |gathered| && 0 <= FirstOffset(g)
      && forall k :: 0 <= k < n ==> gathered[k] == g.Cell(raster, g.Tile(tr, j), FirstOffset(g) + k)
    }

    /** Copying n bytes of the line under way: up to its end, or to the end of the data. */
    function Step(g: Tiling, n: nat): Gathering
    {
      if inside + n == g.Width(j) then this.(lines := lines + 1, inside := 0) else this.(inside := inside + n)
    }

    /** The padding that follows then. */
    function PadAfter(g: Tiling, n: nat): int
    {
      if inside + n == g.Width(j) then g.PaddedBytes(j) else 0
    }

    lemma StepOk(g: Tiling, n: nat, end: nat)
      requires Ok(g) && Unfinished(g) && Reached(g) < end && 0 < n
      requires n == if g.Width(j) - inside <= end - Reached(g) then g.Width(j) - inside else end - Reached(g)
      ensures Step(g, n).Ok(g)
      ensures Step(g, n).Bytes(g) == Bytes(g) + n && Step(g, n).Remaining(g) == Remaining(g) - n
      ensures Step(g, n).FirstOffset(g) == FirstOffset(g)
      ensures Step(g, n).LastOffset(g) == LastOffset(g) + n + PadAfter(g, n)
      ensures Step(g, n).inside == 0 ==> Step(g, n).Reached(g) == Reached(g) - inside + g.imageByteWidth
      ensures Step(g, n).inside != 0 ==> end <= Reached(g) - inside + g.imageByteWidth
      ensures Step(g, n).inside != 0 || Step(g, n).Reached(g) >= end || Step(g, n).Remaining(g) == 0
        ==> Step(g, n).Complete(g, end)
    {
      hide Tiling.Edge, Tiling.TilesAcross;
      g.EdgeOfColumn(j);
      g.EdgeMono(j + 1, j + 1);
      if inside + n == g.Width(j) {
        Step(g, n).Offsets(g);
      }
    }

    /** After n more bytes were copied behind the offset bytes gathered so far, and the line padded if
        it is complete, everything gathered is what belongs to the tile. */
    lemma ContentStep(g: Tiling, raster: seq<byte>, n: nat, before: seq<byte>, after: seq<byte>, offset: nat)
      requires Ok(g) && |raster| == g.ImageBytes() && Unfinished(g)
      requires 0 < n && inside + n <= g.Width(j) && Reached(g) + n <= |raster|
      requires offset == LastOffset(g) - FirstOffset(g)
      requires Faithful(g, raster, before, offset)
      requires offset + n + PadAfter(g, n) <= |after|
      requires after[..offset] == before[..offset]
      requires after[offset..offset + n] == raster[Reached(g)..Reached(g) + n]
      requires forall k :: offset + n <= k < |after| ==> after[k] == 0
      requires Step(g, n).Ok(g)
      ensures Step(g, n).Faithful(g, raster, after, offset + n + PadAfter(g, n))
    {
      hide Tiling.Edge, Tiling.TilesAcross, Tiling.Cell, Tiling.ImageBytes;
      g.EdgeOfColumn(j);
      assert Step(g, n).FirstOffset(g) == FirstOffset(g);
      forall k | 0 <= k < offset + n + PadAfter(g, n)
        ensures after[k] == g.Cell(raster, g.Tile(tr, j), FirstOffset(g) + k)
      {
        if k < offset {
          assert after[..offset][k] == before[..offset][k];
        } else {
          LineContent(g, raster, inside + k - offset);
          if k < offset + n {
            assert after[offset..offset + n][k - offset] == raster[Reached(g)..Reached(g) + n][k - offset];
          }
        }
      }
    }

    /** There is room in the tile for what is left of the line under way, and its padding. */
    lemma Room(g: Tiling)
      requires Ok(g) && 0 < Remaining(g)
      ensures Unfinished(g) && g.Width(j) - inside <= Remaining(g)
      ensures LastOffset(g) - FirstOffset(g) + g.Width(j) - inside + g.PaddedBytes(j) <= g.TileBytes()
    {
      hide Tiling.Edge, Tiling.TilesAcross;
      Offsets(g);
      g.EdgeOfColumn(j);
      this.(lines := lines + 1, inside := 0).Offsets(g);
    }
  }

  /** What is copied is a whole number of elements. */
  lemma WholeElements(elementSize: nat, iw: int, width: int, inside: int, size: int, readOffset: int, n: int)
    requires 0 < elementSize
    requires Whole(iw, elementSize) && Whole(width, elementSize) && Whole(inside, elementSize)
    requires Whole(size, elementSize) && Whole(readOffset, elementSize)
    requires n == width - inside || n == size - readOffset
    ensures Whole(n, elementSize) && Whole(inside + n, elementSize) && Whole(readOffset + (iw - inside), elementSize)
    ensures Whole(0, elementSize)
  {
    hide Whole;
    WholeSum(width, inside, elementSize);
    WholeSum(size, readOffset, elementSize);
    WholeSum(inside, n, elementSize);
    WholeSum(iw, inside, elementSize);
    WholeSum(readOffset, iw - inside, elementSize);
    WholeSum(iw, iw, elementSize);
  }

  lemma EdgesWhole(g: Tiling, j: nat, elementSize: nat)
    requires g.Valid() && 0 < elementSize
    requires Whole(g.imageByteWidth, elementSize) && Whole(g.tileByteWidth, elementSize)
    ensures Whole(g.Edge(j), elementSize) && Whole(g.Width(j), elementSize)
  {
    hide Whole;
    TimesWhole(j, g.tileByteWidth, elementSize);
    TimesWhole(j + 1, g.tileByteWidth, elementSize);
    WholeSum(g.Edge(j + 1), g.Edge(j), elementSize);
  }

  lemma SameSlice(buffer: seq<byte>, raster: seq<byte>, size: nat, at: nat, from: nat, n: nat)
    requires size <= |buffer| && at + size <= |raster| && from + n <= size
    requires buffer[..size] == raster[at..at + size]
    ensures buffer[from..from + n] == raster[at + from..at + from + n]
  {
    forall k | from <= k < from + n
      ensures buffer[k] == raster[at + k]
    {
      assert buffer[..size][k] == raster[at..at + size][k];
    }
  }

  lemma QuotientZero(a: nat, d: nat)
    requires 0 < d
    ensures a / d == 0 <==> a < d
  {
  }

  /** One pass of the inner loop of putTileData: clips the line under way to the data that is left,
      drops the padding if the line stays incomplete, and copies. */
  method CopyLine(ghost g: Tiling, tileByteWidth: nat, buffer: seq<byte>, numBytesToWrite: nat, readOffset: nat,
                   columnInTile: nat, remainingBytesThisLine: nat, paddedBytes0: nat, copyBuffer: array<byte>,
                   copyOffset: nat, ghost raster: seq<byte>, ghost bytePosition: nat, ghost s: Gathering)
    returns (numBytesToCopy: nat, paddedBytes: nat)
    requires |raster| == g.ImageBytes() && tileByteWidth == g.tileByteWidth
    requires numBytesToWrite <= |buffer| && bytePosition + numBytesToWrite <= |raster|
    requires buffer[..numBytesToWrite] == raster[bytePosition..bytePosition + numBytesToWrite]
    requires s.Ok(g) && 0 < s.Remaining(g) && readOffset < numBytesToWrite
    requires s.Reached(g) == bytePosition + readOffset && columnInTile == s.inside
    requires paddedBytes0 == g.PaddedBytes(s.j)
    requires remainingBytesThisLine == g.Width(s.j) - s.inside
    requires copyBuffer.Length == g.TileBytes() && copyOffset == s.LastOffset(g) - s.FirstOffset(g)
    requires s.Faithful(g, raster, copyBuffer[..], copyOffset)
    requires forall k :: copyOffset <= k < copyBuffer.Length ==> copyBuffer[k] == 0
    modifies copyBuffer
    ensures 0 < numBytesToCopy <= remainingBytesThisLine && numBytesToCopy <= s.Remaining(g)
    ensures paddedBytes == s.PadAfter(g, numBytesToCopy)
    ensures copyOffset + numBytesToCopy + paddedBytes <= copyBuffer.Length
    ensures forall k :: copyOffset + numBytesToCopy <= k < copyBuffer.Length ==> copyBuffer[k] == 0
    ensures numBytesToCopy == remainingBytesThisLine || numBytesToCopy == numBytesToWrite - readOffset
    ensures var next, end := s.Step(g, numBytesToCopy), bytePosition + numBytesToWrite;
      && next.Ok(g)
      && next.Bytes(g) == s.Bytes(g) + numBytesToCopy && next.Remaining(g) == s.Remaining(g) - numBytesToCopy
      && next.LastOffset(g) - next.FirstOffset(g) == copyOffset + numBytesToCopy + paddedBytes
      && next.Faithful(g, raster, copyBuffer[..], copyOffset + numBytesToCopy + paddedBytes)
      && (next.inside == 0 ==>
          next.Reached(g) == s.Reached(g) - s.inside + g.imageByteWidth && paddedBytes == paddedBytes0)
      && (next.inside != 0 ==> end <= s.Reached(g) - s.inside + g.imageByteWidth)
      && (next.inside != 0 || next.Reached(g) >= end || next.Remaining(g) == 0 ==> next.Complete(g, end))
  {
    hide Tiling.Cell, Tiling.TilesAcross, Tiling.Edge, Tiling.TileBytes, Tiling.ImageBytes;
    hide Gathering.FirstOffset, Gathering.LastOffset, Gathering.Remaining, Gathering.Bytes, Gathering.Complete;
    hide Gathering.Faithful, Gathering.Reached;
    numBytesToCopy, paddedBytes := remainingBytesThisLine, paddedBytes0;
    if numBytesToCopy > numBytesToWrite - readOffset {
      numBytesToCopy := numBytesToWrite - readOffset;
    }
    if paddedBytes != 0 {
      QuotientZero(columnInTile + numBytesToCopy, tileByteWidth - paddedBytes);
      if (columnInTile + numBytesToCopy) / (tileByteWidth - paddedBytes) == 0 {
        paddedBytes := 0;
      }
    }
    ghost var before := copyBuffer[..];
    s.Room(g);
    CopyBytes(copyBuffer, copyOffset, buffer, readOffset, numBytesToCopy);
    SameSlice(buffer, raster, numBytesToWrite, bytePosition, readOffset, numBytesToCopy);
    s.StepOk(g, numBytesToCopy, bytePosition + numBytesToWrite);
    s.ContentStep(g, raster, numBytesToCopy, before, copyBuffer[..], copyOffset);
  }

  /** A column and its tile column, counted in bytes and in elements. */
  lemma ColumnFacts(g: Tiling, j: nat, column: nat, offset: nat, elementSize: nat)
    requires g.Valid() && j < g.TilesAcross() && 0 < elementSize
    requires Whole(g.imageByteWidth, elementSize) && Whole(g.tileByteWidth, elementSize)
    requires Whole(column, elementSize) && Whole(offset, elementSize)
    ensures g.Edge(j) % g.tileByteWidth == 0
    ensures g.Edge(j + 1) <= g.imageByteWidth && 0 <= g.PaddedBytes(j) && 0 < g.Width(j)
    ensures Whole(g.Width(j), elementSize) && Whole(column - g.Edge(j), elementSize) && Whole(0, elementSize)
    ensures Whole(offset + g.Edge(j + 1) - column, elementSize)
  {
    hide Tiling.Edge, Whole;
    g.EdgeOfColumn(j);
    g.EdgeMono(j + 1, j + 1);
    TimesDivMod(g.Edge(j), j, g.tileByteWidth, 0);
    EdgesWhole(g, j, elementSize);
    EdgesWhole(g, j + 1, elementSize);
    WholeSum(column, g.Edge(j), elementSize);
    WholeSum(column, column, elementSize);
    WholeSum(offset, g.Edge(j + 1), elementSize);
    WholeSum(offset + g.Edge(j + 1), column, elementSize);
  }

  lemma TileBytesAre(g: Tiling)
    ensures g.TileBytes() == g.tileByteWidth * g.tileLength
  {
    TimesIs(g.tileLength, g.tileByteWidth);
  }

  /** The inner loop of putTileData: gathers from the buffer everything that belongs to the tile
      at (row, column), each line padded to the width of the tile once it is complete. */
  method GatherTile(ghost g: Tiling, imageByteWidth: nat, tileByteWidth: nat, tileElemLength: nat, buffer: seq<byte>,
                    numBytesToWrite: nat, row: nat, column: nat, elementSize: nat, paddedBytes0: nat,
                    remainingBytesInTile0: nat, globalReadOffset0: nat, remainingElementsToWrite0: nat,
                    currentNumBytesRead0: nat, ghost raster: seq<byte>, ghost bytePosition: nat, ghost tr: nat,
                    ghost j: nat)
    returns (copyBuffer: array<byte>, copyOffset: nat, globalReadOffset: nat,
             remainingElementsToWrite: int, currentNumBytesRead: nat, ghost done: Gathering)
    requires g.Valid() && |raster| == g.ImageBytes()
    requires imageByteWidth == g.imageByteWidth && tileByteWidth == g.tileByteWidth && tileElemLength == g.tileLength
    requires 0 < elementSize && Whole(g.imageByteWidth, elementSize) && Whole(g.tileByteWidth, elementSize)
    requires numBytesToWrite <= |buffer| && bytePosition + numBytesToWrite <= |raster|
    requires buffer[..numBytesToWrite] == raster[bytePosition..bytePosition + numBytesToWrite]
    requires globalReadOffset0 < numBytesToWrite
    requires g.Edge(j) <= column && column % g.tileByteWidth == column - g.Edge(j)
    requires Whole(numBytesToWrite, elementSize) && Whole(globalReadOffset0, elementSize) && Whole(column, elementSize)
    requires Gathering(tr, j, row, column, 0, column - g.Edge(j)).Ok(g)
    requires bytePosition + globalReadOffset0 == g.LineStart(row) + column
    requires paddedBytes0 == g.PaddedBytes(j)
    requires remainingBytesInTile0 == Gathering(tr, j, row, column, 0, column - g.Edge(j)).Remaining(g)
    ensures fresh(copyBuffer) && copyOffset <= copyBuffer.Length == g.TileBytes()
    ensures globalReadOffset == globalReadOffset0 + g.Edge(j + 1) - column && Whole(globalReadOffset, elementSize)
    ensures Gathered(done, g, raster, tr, j, row, column, bytePosition + numBytesToWrite,
                     copyBuffer[..], copyOffset, currentNumBytesRead - currentNumBytesRead0)
    ensures currentNumBytesRead0 < currentNumBytesRead
    ensures Scaled(remainingElementsToWrite, elementSize) + currentNumBytesRead
         == Scaled(remainingElementsToWrite0, elementSize) + currentNumBytesRead0
  {
    hide Whole, Scaled, Tiling.Fill, Tiling.Span, Tiling.Left, Tiling.Cell, Tiling.TilesAcross, Tiling.Edge;
    hide Tiling.InLine, Tiling.TileBytes, Tiling.ImageBytes;
    hide Gathering.FirstOffset, Gathering.LastOffset, Gathering.Remaining, Gathering.Bytes, Gathering.Complete;
    hide Gathering.Faithful, Gathering.Reached;
    ghost var first := Gathering(tr, j, row, column, 0, column - g.Edge(j));
    ghost var s := first;
    ghost var end := bytePosition + numBytesToWrite;
    ColumnFacts(g, j, column, globalReadOffset0, elementSize);
    var paddedBytes: nat, remainingBytesInTile: nat := paddedBytes0, remainingBytesInTile0;
    globalReadOffset, remainingElementsToWrite, currentNumBytesRead :=
      globalReadOffset0, remainingElementsToWrite0, currentNumBytesRead0;
    assert tileByteWidth * tileElemLength == g.TileBytes() by { TileBytesAre(g); }
    copyBuffer := new byte[tileByteWidth * tileElemLength](i => 0);
    s.Begin(g, raster, copyBuffer[..]);
    copyOffset := 0;
    var readOffset: nat := 0;
    var tempColumn: nat := column;
    var iteration := 0;
    while readOffset < numBytesToWrite
      invariant s == first.(lines := s.lines, inside := s.inside) && s.Ok(g)
      invariant copyBuffer.Length == g.TileBytes() && fresh(copyBuffer)
      invariant copyOffset == s.LastOffset(g) - s.FirstOffset(g) <= copyBuffer.Length
      invariant remainingBytesInTile == s.Remaining(g)
      invariant currentNumBytesRead == currentNumBytesRead0 + s.Bytes(g)
      invariant iteration == 0 ==>
        s == first && readOffset == 0 && globalReadOffset == globalReadOffset0 && tempColumn == column
      invariant iteration != 0 ==>
        globalReadOffset == globalReadOffset0 + g.Edge(j + 1) - column && tempColumn == g.Edge(j)
      invariant iteration != 0 && s.inside == 0 ==> readOffset + bytePosition == s.Reached(g)
      invariant iteration != 0 && s.inside != 0 ==> readOffset >= numBytesToWrite
      invariant iteration != 0 && (readOffset >= numBytesToWrite || remainingBytesInTile == 0) ==> s.Complete(g, end)
      invariant iteration == 0 || s.inside == 0 ==> paddedBytes == paddedBytes0
      invariant s.Faithful(g, raster, copyBuffer[..], copyOffset)
      invariant forall k :: copyOffset <= k < copyBuffer.Length ==> copyBuffer[k] == 0
      invariant iteration != 0 ==> currentNumBytesRead0 < currentNumBytesRead
      invariant Whole(s.inside, elementSize) && Whole(readOffset, elementSize)
      invariant Scaled(remainingElementsToWrite, elementSize) + currentNumBytesRead
             == Scaled(remainingElementsToWrite0, elementSize) + currentNumBytesRead0
      decreases numBytesToWrite - readOffset
    {
      assert tempColumn % g.tileByteWidth == s.inside;
      var remainingBytesThisLine: nat := tileByteWidth - (paddedBytes + tempColumn % tileByteWidth);
      var numBytesToCopy: nat := remainingBytesThisLine;
      if remainingBytesInTile == 0 {
        break;
      }
      if iteration == 0 {
        iteration := iteration + 1;
        readOffset := globalReadOffset;
        globalReadOffset := globalReadOffset + numBytesToCopy;
      }
      numBytesToCopy, paddedBytes :=
        CopyLine(g, tileByteWidth, buffer, numBytesToWrite, readOffset, tempColumn % tileByteWidth,
                 numBytesToCopy, paddedBytes, copyBuffer, copyOffset, raster, bytePosition, s);
      WholeElements(elementSize, g.imageByteWidth, g.Width(j), s.inside, numBytesToWrite, readOffset, numBytesToCopy);
      ScaledLess(remainingElementsToWrite, numBytesToCopy, elementSize);
      s := s.Step(g, numBytesToCopy);
      copyOffset := copyOffset + numBytesToCopy + paddedBytes;
      readOffset := readOffset + (imageByteWidth - tempColumn % tileByteWidth);
      tempColumn := tempColumn - tempColumn % tileByteWidth;
      remainingBytesInTile := remainingBytesInTile - numBytesToCopy;
      remainingElementsToWrite := remainingElementsToWrite - numBytesToCopy / elementSize;
      currentNumBytesRead := currentNumBytesRead + numBytesToCopy;
    }
    done := s;
  }

  /** The outcome of gathering everything of a call that belongs to one tile. */
  ghost predicate Gathered(done: Gathering, g: Tiling, raster: seq<byte>, tr: nat, j: nat, row: nat, column: nat,
                           end: nat, gathered: seq<byte>, n: int, bytes: int)
    requires g.Valid() && |raster| == g.ImageBytes()
  {
    && done.Ok(g) && done.Complete(g, end)
    && done.tr == tr && done.j == j && done.row == row && done.column == column
    && n == done.LastOffset(g) - done.FirstOffset(g)
    && bytes == done.Bytes(g)
    && done.Faithful(g, raster, gathered, n)
  }
}
