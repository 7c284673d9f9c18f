/** What is settled in the file while one call of putTileData is under way. */
module TileSweepContent {
  import opened Arithmetic
  import opened Storage
  import opened TileLayout
  import opened TileSweep
  import opened TiledImage
  import opened TileGathering

  /** Every tile is settled as far as the first x bytes of the raster settle it. */
  ghost predicate HoldsPrefix(g: Tiling, data: seq<byte>, raster: seq<byte>, x: nat)
    requires g.Valid() && |raster| == g.ImageBytes()
  {
    forall tr: nat, j: nat :: j < g.TilesAcross() ==> SettledTo(g, data, raster, g.Tile(tr, j), g.Fill(tr, j, x))
  }

  /** How far a call from start to end has settled a tile: to its end if the tile was swept. */
  ghost function Upto(p: Sweep, tr: nat, j: nat, start: nat, end: nat): nat
  {
    if p.Swept(tr, j) then end else start
  }

  /** What holds while a call that covers the raster range from start to end is under way. */
  ghost predicate HoldsSweep(g: Tiling, data: seq<byte>, raster: seq<byte>, p: Sweep, start: nat, end: nat)
    requires g.Valid() && |raster| == g.ImageBytes()
  {
    forall tr: nat, j: nat :: j < g.TilesAcross() ==>
      SettledTo(g, data, raster, g.Tile(tr, j), g.Fill(tr, j, Upto(p, tr, j, start, end)))
  }

  /** Where a sweep stands within such a call. */
  ghost predicate Underway(g: Tiling, p: Sweep, start: nat, end: nat)
  {
    && p.Ok(g) && start <= p.Start(g) <= end
    && (p.Start(g) == start || p.Start(g) == g.RowStart(p.tileRow))
  }

  /** How many bytes of the call are in the file. */
  function Done(g: Tiling, p: Sweep, start: nat, end: nat): int
    requires g.Valid()
  {
    p.Start(g) - start + p.Copied(g, end)
  }

  lemma DoneBounds(g: Tiling, p: Sweep, start: nat, end: nat)
    requires Underway(g, p, start, end)
    ensures p.Start(g) <= p.Limit(g, end) && 0 <= p.Copied(g, end) <= p.Limit(g, end) - p.Start(g)
    ensures 0 <= Done(g, p, start, end) <= end - start
  {
    hide Tiling.Left, Tiling.TilesAcross, Tiling.Edge, Tiling.RowStart, Tiling.LineStart;
    p.Bounds(g);
    p.CopiedBounds(g, p.Limit(g, end));
  }

  /** Before the sweep of a tile row every tile of it is filled as at the start of the call. */
  lemma FillAtStart(g: Tiling, p: Sweep, start: nat, end: nat, j: nat)
    requires Underway(g, p, start, end) && j < g.TilesAcross()
    ensures g.Fill(p.tileRow, j, p.Start(g)) == g.Fill(p.tileRow, j, start)
  {
    if p.Start(g) != start {
      g.FillBefore(p.tileRow, j, start);
      g.FillBefore(p.tileRow, j, p.Start(g));
    }
  }

  /** A fresh sweep: at its start nothing of the call is done. */
  lemma SweepBegins(g: Tiling, data: seq<byte>, raster: seq<byte>, p: Sweep, start: nat, end: nat)
    requires g.Valid() && start <= end && |raster| == g.ImageBytes()
    requires p.row == start / g.imageByteWidth && p.column == start % g.imageByteWidth
    requires p.tileRow == p.row / g.tileLength && p.from == p.next == p.column / g.tileByteWidth && !p.wrapped
    requires HoldsPrefix(g, data, raster, start)
    ensures Underway(g, p, start, end) && p.At(g) == start && Done(g, p, start, end) == 0
    ensures HoldsSweep(g, data, raster, p, start, end)
  {
    hide Tiling.TilesAcross, Tiling.Left, Tiling.Edge, Tiling.Fill, Tiling.TileBytes, Tiling.TileStart, Tiling.Tile;
    g.ColumnOf(p.column);
    g.EdgeMono(p.from + 1, p.from + 1);
    TimesSplit(start, g.imageByteWidth);
    TimesSplit(p.row, g.tileLength);
    p.Bounds(g);
    forall tr: nat, j: nat | j < g.TilesAcross()
      ensures SettledTo(g, data, raster, g.Tile(tr, j), g.Fill(tr, j, Upto(p, tr, j, start, end)))
    {
      if tr < p.tileRow {
        TimesMono(tr + 1, p.tileRow, g.tileLength);
        TimesMono(g.FirstLine(tr + 1), p.row, g.imageByteWidth);
        g.FillPast(tr, j, start);
        g.FillPast(tr, j, end);
      }
      assert SettledTo(g, data, raster, g.Tile(tr, j), g.Fill(tr, j, start));
    }
  }

  /** When all bytes of the call are copied, the file holds the raster up to end. */
  lemma SweepEnds(g: Tiling, data: seq<byte>, raster: seq<byte>, p: Sweep, start: nat, end: nat)
    requires Underway(g, p, start, end) && |raster| == g.ImageBytes()
    requires HoldsSweep(g, data, raster, p, start, end)
    requires Done(g, p, start, end) == end - start
    ensures HoldsPrefix(g, data, raster, end)
  {
    hide Tiling.Left, Tiling.TilesAcross, Tiling.Edge, Tiling.Span, Tiling.Fill, Tiling.TileBytes, Tiling.Tile;
    DoneBounds(g, p, start, end);
    forall tr: nat, j: nat | j < g.TilesAcross()
      ensures SettledTo(g, data, raster, g.Tile(tr, j), g.Fill(tr, j, end))
    {
      if p.tileRow < tr {
        TimesMono(p.tileRow + 1, tr, g.tileLength);
        TimesMono(g.FirstLine(p.tileRow + 1), g.FirstLine(tr), g.imageByteWidth);
        g.FillBefore(tr, j, end);
        g.FillBefore(tr, j, start);
      } else if !p.Swept(tr, j) {
        p.AllSwept(g, end, j);
        FillAtStart(g, p, start, end, j);
      }
      assert SettledTo(g, data, raster, g.Tile(tr, j), g.Fill(tr, j, Upto(p, tr, j, start, end)));
    }
  }

  /** The sweep of the tile row below. */
  function Below(g: Tiling, p: Sweep): Sweep
  {
    Sweep(g.FirstLine(p.tileRow + 1), 0, p.tileRow + 1, 0, 0, false)
  }

  lemma NextTileRow(g: Tiling, p: Sweep, start: nat, end: nat)
    requires Underway(g, p, start, end)
    requires start + Done(g, p, start, end) == g.RowStart(p.tileRow + 1)
    ensures Underway(g, Below(g, p), start, end) && Below(g, p).AtTile(g)
    ensures Below(g, p).Start(g) == Below(g, p).At(g) == g.RowStart(p.tileRow + 1) <= end
    ensures Done(g, Below(g, p), start, end) == Done(g, p, start, end)
    ensures p.CopiedTo(g, g.RowStart(p.tileRow + 1)) == g.RowStart(p.tileRow + 1) - p.Start(g)
  {
    hide Tiling.Left, Tiling.TilesAcross, Tiling.Edge;
    DoneBounds(g, p, start, end);
    p.Bounds(g);
    g.Grid();
    g.EdgeOfColumn(0);
    g.EdgeMono(1, 1);
  }

  /** When all bytes of a tile row are copied, the sweep of the one below begins. */
  lemma RowCompleted(g: Tiling, data: seq<byte>, raster: seq<byte>, p: Sweep, start: nat, end: nat)
    requires Underway(g, p, start, end) && |raster| == g.ImageBytes()
    requires HoldsSweep(g, data, raster, p, start, end)
    requires start + Done(g, p, start, end) == g.RowStart(p.tileRow + 1)
    ensures HoldsSweep(g, data, raster, Below(g, p), start, end)
  {
    hide Tiling.Left, Tiling.TilesAcross, Tiling.Edge, Tiling.Span, Tiling.Fill, Tiling.TileBytes, Tiling.RowStart;
    hide Tiling.Tile;
    NextTileRow(g, p, start, end);
    p.Bounds(g);
    var q := Below(g, p);
    forall tr: nat, j: nat | j < g.TilesAcross()
      ensures SettledTo(g, data, raster, g.Tile(tr, j), g.Fill(tr, j, Upto(q, tr, j, start, end)))
    {
      if tr == p.tileRow && !p.Swept(tr, j) {
        p.AllSwept(g, g.RowStart(tr + 1), j);
        FillAtStart(g, p, start, end, j);
        g.FillPast(tr, j, g.RowStart(tr + 1));
        g.FillPast(tr, j, end);
      }
      assert SettledTo(g, data, raster, g.Tile(tr, j), g.Fill(tr, j, Upto(p, tr, j, start, end)));
    }
  }

  /** The test at the head of the outer loop: it moves on to the tile row below exactly when all bytes
      of the tile row are copied, unless the sweep has got there by itself. */
  lemma MovesOn(g: Tiling, p: Sweep, start: nat, end: nat)
    requires Underway(g, p, start, end)
    ensures var y := start + Done(g, p, start, end);
      && y <= g.RowStart(p.tileRow + 1)
      && (y < g.RowStart(p.tileRow + 1) ==>
            y / g.imageByteWidth / g.tileLength <= p.At(g) / g.imageByteWidth / g.tileLength)
      && (y == g.RowStart(p.tileRow + 1) ==>
            y / g.imageByteWidth / g.tileLength > p.At(g) / g.imageByteWidth / g.tileLength || p.At(g) == y)
  {
    hide Tiling.TilesAcross, Tiling.Left, Tiling.Edge, Tiling.RowStart, Tiling.Span;
    DoneBounds(g, p, start, end);
    p.Bounds(g);
    AtBounds(g, p);
    TileRowOf(g, start + Done(g, p, start, end), p.tileRow);
    TileRowOf(g, p.At(g), p.tileRow);
  }

  lemma AtBounds(g: Tiling, p: Sweep)
    requires p.Ok(g)
    ensures g.RowStart(p.tileRow) <= p.At(g) <= g.RowStart(p.tileRow + 1)
  {
    hide Tiling.TilesAcross, Tiling.Left, Tiling.Edge, Tiling.Span;
    p.Bounds(g);
    g.EdgeMono(p.next, p.next);
    if p.wrapped {
      TimesMono(p.row + 2, g.FirstLine(p.tileRow + 1), g.imageByteWidth);
    }
  }

  /** The tile row of a raster position. */
  lemma TileRowOf(g: Tiling, x: nat, tr: nat)
    requires g.Valid()
    ensures g.RowStart(tr + 1) <= x <==> tr < x / g.imageByteWidth / g.tileLength
    ensures g.RowStart(tr) <= x ==> tr <= x / g.imageByteWidth / g.tileLength
  {
    var row := x / g.imageByteWidth;
    var q := row / g.tileLength;
    TimesSplit(x, g.imageByteWidth);
    TimesSplit(row, g.tileLength);
    if tr < q {
      TimesMono(tr + 1, q, g.tileLength);
      TimesMono(g.FirstLine(tr + 1), row, g.imageByteWidth);
    } else {
      TimesMono(q + 1, tr + 1, g.tileLength);
      TimesMono(row + 1, g.FirstLine(tr + 1), g.imageByteWidth);
    }
    if q < tr {
      TimesMono(q + 1, tr, g.tileLength);
      TimesMono(row + 1, g.FirstLine(tr), g.imageByteWidth);
    }
  }

  /** At the head of the outer loop, while bytes are missing, the sweep goes on with the next tile: of
      the same tile row, or of the one below when this one is complete. */
  lemma Continued(g: Tiling, data: seq<byte>, raster: seq<byte>, p: Sweep, start: nat, end: nat) returns (q: Sweep)
    requires Underway(g, p, start, end) && |raster| == g.ImageBytes()
    requires HoldsSweep(g, data, raster, p, start, end)
    requires Done(g, p, start, end) < end - start
    ensures Underway(g, q, start, end) && q.AtTile(g) && HoldsSweep(g, data, raster, q, start, end)
    ensures Done(g, q, start, end) == Done(g, p, start, end)
    ensures q.At(g) < end
    ensures q.At(g) == if start + Done(g, p, start, end) == g.RowStart(p.tileRow + 1) then g.RowStart(p.tileRow + 1)
      else p.At(g)
  {
    hide Tiling.Left, Tiling.TilesAcross, Tiling.Edge, Tiling.Span, Tiling.Fill, Tiling.TileBytes, Tiling.RowStart;
    hide Tiling.Tile;
    DoneBounds(g, p, start, end);
    if start + Done(g, p, start, end) == g.RowStart(p.tileRow + 1) {
      NextTileRow(g, p, start, end);
      RowCompleted(g, data, raster, p, start, end);
      q := Below(g, p);
    } else {
      p.Turn(g, end);
      q := p.Turned(g.TilesAcross());
      forall tr: nat, j: nat | j < g.TilesAcross()
        ensures SettledTo(g, data, raster, g.Tile(tr, j), g.Fill(tr, j, Upto(q, tr, j, start, end)))
      {
        assert SettledTo(g, data, raster, g.Tile(tr, j), g.Fill(tr, j, Upto(p, tr, j, start, end)));
      }
    }
  }

  /** Writing what was gathered for the next tile settles it, and nothing else becomes unsettled. */
  lemma TileWritten(g: Tiling, data: seq<byte>, raster: seq<byte>, p: Sweep, start: nat, end: nat, b: seq<byte>,
                    from: nat)
    requires Underway(g, p, start, end) && p.AtTile(g) && |raster| == g.ImageBytes()
    requires HoldsSweep(g, data, raster, p, start, end)
    requires from == g.Fill(p.tileRow, p.next, p.At(g)) && from + |b| == g.Fill(p.tileRow, p.next, end) <= g.TileBytes()
    requires forall k :: 0 <= k < |b| ==> b[k] == g.Cell(raster, g.Tile(p.tileRow, p.next), from + k)
    ensures HoldsSweep(g, Overwrite(data, g.TileStart(g.Tile(p.tileRow, p.next)) + from, b), raster,
                       p.(next := p.next + 1), start, end)
  {
    hide Tiling.TilesAcross, Tiling.Edge, Tiling.Fill, Tiling.Cell, Tiling.TileBytes, Tiling.TileStart, Tiling.Tile;
    p.NextTile(g);
    p.NothingBehind(g);
    FillAtStart(g, p, start, end, p.next);
    var t := g.Tile(p.tileRow, p.next);
    var after := Overwrite(data, g.TileStart(t) + from, b);
    WriteSettles(g, data, raster, t, from, b);
    var q := p.(next := p.next + 1);
    forall tr: nat, j: nat | j < g.TilesAcross()
      ensures SettledTo(g, after, raster, g.Tile(tr, j), g.Fill(tr, j, Upto(q, tr, j, start, end)))
    {
      p.SweptNext(g, tr, j);
      assert SettledTo(g, data, raster, g.Tile(tr, j), g.Fill(tr, j, Upto(p, tr, j, start, end)));
    }
  }

  /** The tile that was gathered, put in its place: what the whole call has done by then. */
  lemma TileDone(g: Tiling, data: seq<byte>, raster: seq<byte>, p: Sweep, start: nat, end: nat,
                 done: Gathering, gathered: seq<byte>, n: nat, bytes: int, from: nat)
    requires Underway(g, p, start, end) && p.AtTile(g) && |raster| == g.ImageBytes() && end <= |raster|
    requires HoldsSweep(g, data, raster, p, start, end)
    requires p.At(g) < end && n <= |gathered|
    requires Gathered(done, g, raster, p.tileRow, p.next, p.Line(), p.NextColumn(g), end, gathered, n, bytes)
    requires g.FirstLine(p.tileRow) <= p.Line()
    requires from == g.TileLine(p.Line() - g.FirstLine(p.tileRow)) + p.NextColumn(g) - g.Edge(p.next)
    ensures Underway(g, p.(next := p.next + 1), start, end)
    ensures p.(next := p.next + 1).At(g) == p.At(g) + g.Edge(p.next + 1) - p.NextColumn(g)
    ensures Done(g, p.(next := p.next + 1), start, end) == Done(g, p, start, end) + bytes
    ensures var after := Overwrite(data, g.TileStart(g.Tile(p.tileRow, p.next)) + from, gathered[..n]);
      && HoldsSweep(g, after, raster, p.(next := p.next + 1), start, end)
      && SameButTile(g, data, after, g.Tile(p.tileRow, p.next))
      && (g.Tile(p.tileRow, p.next) < g.TileCount() ==> SameOutside(g, data, after))
  {
    hide Tiling.TilesAcross, Tiling.Edge, Tiling.Fill, Tiling.Cell, Tiling.TileBytes, Tiling.TileStart, Tiling.RowStart;
    hide Tiling.Left, Tiling.Tile, Tiling.TileCount;
    hide Gathering.LastOffset, Gathering.Bytes, Gathering.Complete, Gathering.Remaining, Gathering.Reached;
    p.NextTile(g);
    p.Advance(g, end);
    done.Offsets(g);
    done.Collected(g, end, p.Limit(g, end));
    TileWritten(g, data, raster, p, start, end, gathered[..n], from);
    WriteInTile(g, data, g.Tile(p.tileRow, p.next), from, gathered[..n]);
    if g.Tile(p.tileRow, p.next) < g.TileCount() {
      WriteInside(g, data, g.Tile(p.tileRow, p.next), from, gathered[..n]);
    }
  }
}
