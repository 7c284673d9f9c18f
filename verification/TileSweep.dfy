/** The order in which one call of putTileData visits the tiles of a tile row, and the proof
    that this order reaches every byte of the call exactly once. */
module TileSweep {
  import opened Arithmetic
  import opened TileLayout

  /** Progress inside one tile row. The call reaches that tile row on an image line (row) and
      column, which lies in tile column from. The tile columns from the first one
      rightwards are swept first; the ones left of it follow, a line lower, once wrapped. */
  datatype Sweep = Sweep(row: nat, column: nat, tileRow: nat, from: nat, next: nat, wrapped: bool) {

    ghost predicate Ok(g: Tiling)
    {
      && g.Valid()
      && from < g.TilesAcross()
      && g.Edge(from) <= column < g.Edge(from + 1) <= g.imageByteWidth
      && g.FirstLine(tileRow) <= row < g.FirstLine(tileRow + 1)
      && (wrapped ==> next <= from && row + 1 < g.FirstLine(tileRow + 1))
      && (!wrapped ==> from <= next <= g.TilesAcross())
    }

    /** The raster position at which the call reaches the tile row. */
    function Start(g: Tiling): nat { g.LineStart(row) + column }

    /** The image line and column of the next byte to copy. */
    function Line(): nat { if wrapped then row + 1 else row }

    function NextColumn(g: Tiling): nat
    {
      if !wrapped && next == from then column else g.Edge(next)
    }

    /** Its raster position. */
    function At(g: Tiling): nat { g.LineStart(Line()) + NextColumn(g) }

    /** Where the tile row's share of a call that ends at end stops. */
    function Limit(g: Tiling, end: nat): nat
    {
      if end <= g.RowStart(tileRow + 1) then end else g.RowStart(tileRow + 1)
    }

    /** How many bytes of this tile row have been copied when the call's data ends at end. */
    function Copied(g: Tiling, end: nat): int
      requires g.Valid()
    {
      CopiedTo(g, Limit(g, end))
    }

    function CopiedTo(g: Tiling, x: nat): int
      requires g.Valid()
    {
      (if wrapped then g.Span(g.TilesAcross(), Start(g), x) else 0)
      + g.Span(next, Start(g), x) - g.Span(from, Start(g), x)
    }

    ghost predicate Swept(tr: nat, j: nat)
    {
      tr < tileRow || (tr == tileRow && if wrapped then from <= j || j < next else from <= j < next)
    }

    lemma Bounds(g: Tiling)
      requires Ok(g)
      ensures g.RowStart(tileRow) <= g.LineStart(row) <= Start(g)
      ensures g.LineStart(row) + g.imageByteWidth == g.LineStart(row + 1) <= g.RowStart(tileRow + 1)
      ensures Start(g) < g.RowStart(tileRow + 1)
    {
      TimesMono(g.FirstLine(tileRow), row, g.imageByteWidth);
      TimesMono(row + 1, g.FirstLine(tileRow + 1), g.imageByteWidth);
    }

    /** Everything from the start on is copied as soon as the sweep has passed the end of the data. */
    lemma PassedEnd(g: Tiling, x: nat)
      requires Ok(g) && Start(g) <= x <= At(g)
      ensures CopiedTo(g, x) == x - Start(g)
    {
      hide Tiling.Left, Tiling.Edge, Tiling.TilesAcross, Tiling.RowStart;
      Bounds(g);
      g.SpanAll(Start(g), x);
      g.LeftAt(next, Start(g), row, column);
      g.LeftAt(from, Start(g), row, column);
      if wrapped && g.LineStart(row + 1) < x {
        g.EdgeMono(next, from);
        g.LeftAt(next, x, row + 1, x - g.LineStart(row + 1));
        g.LeftAt(from, x, row + 1, x - g.LineStart(row + 1));
      } else {
        if wrapped {
          g.EdgeMono(next, from);
        } else if from < next {
          g.EdgeMono(from + 1, next);
        }
        g.LeftAt(next, x, row, x - g.LineStart(row));
        g.LeftAt(from, x, row, x - g.LineStart(row));
      }
    }

    /** While bytes of this tile row are still missing, the sweep is before the end of the data,
        and it has not run out of tile columns. */
    lemma StillInside(g: Tiling, end: nat)
      requires Ok(g) && Start(g) < end
      requires Start(g) + Copied(g, end) < Limit(g, end)
      ensures At(g) < Limit(g, end)
      ensures wrapped ==> next < from
      ensures !wrapped && next == g.TilesAcross() ==> row + 1 < g.FirstLine(tileRow + 1)
    {
      hide Tiling.Left, Tiling.Edge, Tiling.TilesAcross;
      Bounds(g);
      var x := Limit(g, end);
      if x <= At(g) {
        PassedEnd(g, x);
      }
      g.SpanAll(Start(g), x);
      g.Grid();
    }

    /** The sweep turns to the columns left of the first one when it leaves the image on the right. */
    function Turned(across: nat): Sweep
    {
      if !wrapped && next == across then this.(next := 0, wrapped := true) else this
    }

    lemma Turn(g: Tiling, end: nat)
      requires Ok(g) && Start(g) < end
      requires Start(g) + Copied(g, end) < Limit(g, end)
      ensures Turned(g.TilesAcross()).Ok(g)
      ensures Turned(g.TilesAcross()).At(g) == At(g) < Limit(g, end)
      ensures Turned(g.TilesAcross()).Copied(g, end) == Copied(g, end)
      ensures Turned(g.TilesAcross()).AtTile(g)
      ensures forall tr: nat, j: nat :: j < g.TilesAcross() ==> Turned(g.TilesAcross()).Swept(tr, j) == Swept(tr, j)
    {
      hide Tiling.Left, Tiling.Edge, Tiling.TilesAcross, Tiling.RowStart;
      StillInside(g, end);
      g.SpanAll(Start(g), Limit(g, end));
      g.Grid();
      Bounds(g);
      if !wrapped && next == g.TilesAcross() {
        this.(next := 0, wrapped := true).StillInside(g, end);
      }
    }

    /** The next byte belongs to tile column next. */
    ghost predicate AtTile(g: Tiling)
      requires g.Valid()
    {
      next < (if wrapped then from else g.TilesAcross())
    }

    lemma NextTile(g: Tiling)
      requires Ok(g) && AtTile(g)
      ensures next < g.TilesAcross()
      ensures g.Edge(next) <= NextColumn(g) < g.Edge(next + 1) <= g.imageByteWidth
      ensures g.FirstLine(tileRow) <= Line() < g.FirstLine(tileRow + 1)
      ensures Start(g) <= At(g)
    {
      hide Tiling.Edge, Tiling.TilesAcross;
      Bounds(g);
      g.EdgeOfColumn(next);
      g.EdgeMono(next + 1, next + 1);
      if next != from && !wrapped {
        g.EdgeMono(from + 1, next);
      }
    }

    /** Nothing of the next tile column lies between the start and the next byte. */
    lemma NothingBehind(g: Tiling)
      requires Ok(g) && AtTile(g)
      ensures Start(g) <= At(g)
      ensures g.Fill(tileRow, next, At(g)) == g.Fill(tileRow, next, Start(g))
      ensures g.Span(next + 1, Start(g), At(g)) == g.Span(next, Start(g), At(g))
    {
      hide Tiling.Left, Tiling.Fill, Tiling.Edge, Tiling.TilesAcross, Tiling.LineStart;
      NextTile(g);
      g.FillAt(tileRow, next, Start(g), row, column);
      g.FillAt(tileRow, next, At(g), Line(), NextColumn(g));
      g.LeftAt(next, Start(g), row, column);
      g.LeftAt(next + 1, Start(g), row, column);
      g.LeftAt(next, At(g), Line(), NextColumn(g));
      g.LeftAt(next + 1, At(g), Line(), NextColumn(g));
      if wrapped {
        g.EdgeMono(next + 1, from);
        assert g.TileLine(row + 1 - g.FirstLine(tileRow)) == g.TileLine(row - g.FirstLine(tileRow)) + g.tileByteWidth;
      } else if next != from {
        g.EdgeMono(from + 1, next);
      }
    }

    /** Copying the rest of the next tile column advances the sweep by one column. */
    lemma Advance(g: Tiling, end: nat)
      requires Ok(g) && AtTile(g)
      ensures this.(next := next + 1).Ok(g)
      ensures var x := Limit(g, end);
              this.(next := next + 1).Copied(g, end)
              == Copied(g, end) + g.Span(next + 1, At(g), x) - g.Span(next, At(g), x)
      ensures this.(next := next + 1).At(g) == At(g) + g.Edge(next + 1) - NextColumn(g)
    {
      hide Tiling.Left, Tiling.Fill, Tiling.Edge, Tiling.TilesAcross, Tiling.RowStart, Tiling.LineStart;
      NothingBehind(g);
      NextTile(g);
    }

    lemma SweptNext(g: Tiling, tr: nat, j: nat)
      requires Ok(g) && AtTile(g)
      ensures this.(next := next + 1).Swept(tr, j) == (Swept(tr, j) || (tr == tileRow && j == next))
    {
    }

    /** A column that receives nothing of the data has its fill unchanged. */
    lemma NoGrowth(g: Tiling, j: nat, x: nat)
      requires Ok(g) && j < g.TilesAcross() && Start(g) <= x <= g.RowStart(tileRow + 1)
      requires g.Span(j + 1, Start(g), x) == g.Span(j, Start(g), x)
      ensures g.Fill(tileRow, j, x) == g.Fill(tileRow, j, Start(g))
    {
      hide Tiling.Left, Tiling.Fill, Tiling.Edge, Tiling.TilesAcross, Tiling.LineStart;
      var r1, c1 := Position(g, x);
      g.EdgeOfColumn(j);
      g.LeftAt(j, Start(g), row, column);
      g.LeftAt(j + 1, Start(g), row, column);
      g.LeftAt(j, x, r1, c1);
      g.LeftAt(j + 1, x, r1, c1);
      g.FillAt(tileRow, j, Start(g), row, column);
      g.FillAt(tileRow, j, x, r1, c1);
      SameLine(row, column, r1, c1, g.Edge(j), g.Width(j));
      assert g.TileLine(row + 1 - g.FirstLine(tileRow)) == g.TileLine(row - g.FirstLine(tileRow)) + g.tileByteWidth;
    }

    /** Two positions with equally many bytes of a column before them are on the same line, unless
        the first is past the column and the second before it on the next line. */
    static lemma SameLine(r0: nat, c0: nat, r1: nat, c1: nat, lo: nat, w: nat)
      requires 0 < w
      requires r0 < r1 || (r0 == r1 && c0 <= c1)
      requires var hi := lo + w;
        Times(r1, hi) + (if c1 <= hi then c1 else hi) - (Times(r1, lo) + (if c1 <= lo then c1 else lo))
        == Times(r0, hi) + (if c0 <= hi then c0 else hi) - (Times(r0, lo) + (if c0 <= lo then c0 else lo))
      ensures r0 == r1 || (r1 == r0 + 1 && lo + w <= c0 && c1 <= lo)
      ensures r0 == r1 ==> c0 == c1 || c1 <= lo || lo + w <= c0
    {
      TimesWider(r0, lo, w);
      TimesWider(r1, lo, w);
      if r0 < r1 {
        TimesMono(r0 + 1, r1, w);
      }
    }

    /** The line and column of a raster position x of the tile row, its far end included. */
    lemma Position(g: Tiling, x: nat) returns (r: nat, c: nat)
      requires Ok(g) && Start(g) <= x <= g.RowStart(tileRow + 1)
      ensures x == g.LineStart(r) + c && r < g.FirstLine(tileRow + 1) && c <= g.imageByteWidth
      ensures row < r || (row == r && column <= c)
    {
      hide Tiling.Edge, Tiling.TilesAcross;
      var last := g.FirstLine(tileRow + 1) - 1;
      r, c := x / g.imageByteWidth, x % g.imageByteWidth;
      TimesSplit(x, g.imageByteWidth);
      if last < r {
        TimesMono(last + 1, r, g.imageByteWidth);
        r, c := last, g.imageByteWidth;
      }
      if r < row {
        TimesMono(r, row, g.imageByteWidth);
      }
    }

    /** Once as many bytes are copied as the data holds, no tile column is missing any. */
    lemma AllSwept(g: Tiling, x: nat, j: nat)
      requires Ok(g) && Start(g) <= x <= g.RowStart(tileRow + 1) && j < g.TilesAcross()
      requires CopiedTo(g, x) == x - Start(g)
      requires !Swept(tileRow, j)
      ensures g.Fill(tileRow, j, x) == g.Fill(tileRow, j, Start(g))
    {
      hide Tiling.Left, Tiling.Fill, Tiling.Edge, Tiling.TilesAcross, Tiling.RowStart, Tiling.LineStart;
      var s := Start(g);
      g.SpanAll(s, x);
      g.SpanMono(j, j + 1, s, x);
      if wrapped {
        g.SpanMono(next, j, s, x);
        g.SpanMono(j + 1, from, s, x);
      } else if j < from {
        g.SpanMono(0, j, s, x);
        g.SpanMono(j + 1, from, s, x);
        g.SpanMono(next, g.TilesAcross(), s, x);
      } else {
        g.SpanMono(0, from, s, x);
        g.SpanMono(next, j, s, x);
        g.SpanMono(j + 1, g.TilesAcross(), s, x);
      }
      NoGrowth(g, j, x);
    }

    /** The bytes copied never exceed the tile row's share. */
    lemma CopiedBounds(g: Tiling, x: nat)
      requires Ok(g) && Start(g) <= x
      ensures 0 <= CopiedTo(g, x) <= x - Start(g)
    {
      hide Tiling.Left, Tiling.TilesAcross, Tiling.Edge, Tiling.Span, Tiling.LineStart;
      var s := Start(g);
      g.SpanAll(s, x);
      if wrapped {
        g.SpanMono(0, next, s, x);
        g.SpanMono(next, from, s, x);
        g.SpanMono(from, g.TilesAcross(), s, x);
      } else {
        g.SpanMono(0, from, s, x);
        g.SpanMono(from, next, s, x);
        g.SpanMono(next, g.TilesAcross(), s, x);
      }
    }
  }
}
