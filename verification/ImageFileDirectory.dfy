/** The entries of an image file directory, and the directory, as the program writes and reads them. */
module ImageFileDirectory {
  import opened Arithmetic
  import opened Sequences
  import opened Storage
  import opened ByteOrders
  import opened Options
  import opened IFDFormat
  import opened IFDRoundTrip
  import opened IFDOrder

  /** The file after an entry was written at p: its table bytes there, and large values at offset. */
  ghost function After(order: ByteOrder, f: Field, offset: nat, d: seq<byte>, p: nat): seq<byte>
    requires f.Valid()
  {
    var started := Overwrite(d, p, Encode(order, 2, f.tag) + Encode(order, 2, f.kind) + Encode(order, 4, |f.values|));
    if f.Size() > 4 then
      Overwrite(Overwrite(started, offset, Flatten(f.values)), p + 8, Encode(order, 4, offset))
    else
      Overwrite(started, p + 8, Repeated(f.values, f.Iterations()))
  }

  class IFDEntry {
    var tag: nat
    var kind: nat
    var count: nat
    var offset: nat
    var values: seq<seq<byte>>

    constructor (tag: nat, kind: nat)
      ensures this.tag == tag && this.kind == kind && count == 0 && offset == 0 && values == []
    {
      this.tag, this.kind, count, offset, values := tag, kind, 0, 0, [];
    }

    ghost function Contents(): Field
      reads `tag, `kind, `values
    {
      Field(tag, kind, values)
    }

    method AddValue(value: seq<byte>)
      modifies `values, `count
      ensures values == old(values) + [value] && count == old(count) + 1
    {
      values := values + [value];
      count := count + 1;
    }

    /** Counts the values, and takes the space at nextData for them if they do not fit the table. */
    method Finalize(nextData: nat) returns (next: nat)
      requires Contents().Valid()
      modifies `count, `offset
      ensures count == |values| && next == nextData + Contents().Outside()
      ensures offset == if 0 < Contents().Outside() then nextData else old(offset)
    {
      count := |values|;
      SmallCounts(count, SizeOf(kind));
      var size := count * SizeOf(kind);
      next := nextData;
      if size > 4 {
        offset := nextData;
        next := nextData + size;
      }
    }

    method Serialize(order: ByteOrder, output: SeekableFile)
      requires Contents().Valid() && count == |values|
      modifies output
      ensures output.data == After(order, Contents(), offset, old(output.data), old(output.pos))
      ensures output.pos == old(output.pos) + |Contents().Bytes(order, offset)|
    {
      hide Encode, Flatten, Repeated;
      ghost var d, p := output.data, output.pos;
      output.Write(Encode(order, 2, tag));
      output.Write(Encode(order, 2, kind));
      output.Write(Encode(order, 4, count));
      OverwriteTwice(d, p, Encode(order, 2, tag), Encode(order, 2, kind));
      OverwriteTwice(d, p, Encode(order, 2, tag) + Encode(order, 2, kind), Encode(order, 4, count));
      SmallCounts(count, SizeOf(kind));
      var size := count * SizeOf(kind);
      if size > 4 {
        var current := output.pos;
        output.Seek(offset);
        WriteValues(output);
        output.Seek(current);
        output.Write(Encode(order, 4, offset));
      } else {
        WriteRepeated(output);
      }
    }

    /** The values one behind the other. */
    method WriteValues(output: SeekableFile)
      modifies output
      ensures output.data == Overwrite(old(output.data), old(output.pos), Flatten(values))
    {
      ghost var d, p := output.data, output.pos;
      var i: nat := 0;
      while i < |values|
        invariant i <= |values|
        invariant output.data == Overwrite(d, p, Flatten(values[..i])) && output.pos == p + |Flatten(values[..i])|
      {
        assert values[..i + 1][..i] == values[..i];
        OverwriteTwice(d, p, Flatten(values[..i]), values[i]);
        output.Write(values[i]);
        i := i + 1;
      }
      assert values[..|values|] == values;
    }

    /** Each value until its share of the four bytes is used up. */
    method WriteRepeated(output: SeekableFile)
      requires Contents().Valid() && count == |values|
      modifies output
      ensures output.data == Overwrite(old(output.data), old(output.pos), Repeated(values, Contents().Iterations()))
      ensures output.pos == old(output.pos) + |Repeated(values, Contents().Iterations())|
    {
      hide Field.Iterations;
      ghost var d, p, n := output.data, output.pos, Contents().Iterations();
      var i: nat := 0;
      while i < count
        invariant i <= count
        invariant output.data == Overwrite(d, p, Repeated(values[..i], n))
          && output.pos == p + |Repeated(values[..i], n)|
      {
        assert values[..i + 1][..i] == values[..i];
        IterationsOf(Contents(), i);
        var iterations := 4 / count / |values[i]|;
        WriteCopies(output, values[i], iterations);
        OverwriteTwice(d, p, Repeated(values[..i], n), Repeat(values[i], n));
        i := i + 1;
      }
      assert values[..count] == values;
    }

    /** Reads the entry at the cursor. */
    method Deserialize(order: ByteOrder, input: SeekableFile) returns (ok: bool)
      requires values == []
      modifies this, input`pos
      ensures ok <==> ParseEntry(order, input.data, old(input.pos)).Some?
      ensures ok ==>
        ParseEntry(order, input.data, old(input.pos)) == Some(Contents())
        && input.pos == old(input.pos) + 12
    {
      hide Decode, ParseRest;
      var tagBytes := input.Read(2);
      var kindBytes := input.Read(2);
      var countBytes := input.Read(4);
      var offsetBytes := input.Read(4);
      if |offsetBytes| < 4 {
        return false;
      }
      tag, kind, count, offset :=
        Decode(order, tagBytes), Decode(order, kindBytes), Decode(order, countBytes), Decode(order, offsetBytes);
      ok := ReadValues(input, offsetBytes);
    }

    /** Reads the values, from the slot or from where the offset says, and puts the cursor back. */
    method ReadValues(input: SeekableFile, slot: seq<byte>) returns (ok: bool)
      requires values == [] && |slot| == 4
      modifies `values, input`pos
      ensures ok <==> ParseRest(input.data, tag, kind, count, offset, slot).Some?
      ensures ok ==>
        ParseRest(input.data, tag, kind, count, offset, slot) == Some(Contents())
        && input.pos == old(input.pos)
    {
      hide Cut, Times;
      if kind > 12 {
        return false;
      }
      TimesIs(count, SizeOf(kind));
      var size := count * SizeOf(kind);
      if size > 4 {
        var current := input.pos;
        input.Seek(offset);
        var buffer := input.Read(size);
        if |buffer| < size {
          return false;
        }
        ok := ParseValues(buffer);
        input.Seek(current);
      } else {
        ok := ParseValues(slot);
      }
    }

    /** Cuts the buffer into values; fails on a type that has no values. */
    method ParseValues(buffer: seq<byte>) returns (ok: bool)
      requires values == [] && kind <= 12 && Times(count, SizeOf(kind)) <= |buffer|
      modifies `values
      ensures ok <==> kind != 0 || count == 0
      ensures ok ==> values == Cut(buffer, count, SizeOf(kind))
    {
      var marker: nat := 0;
      var i: nat := 0;
      var size := SizeOf(kind);
      while i < count
        invariant i <= count && marker == Times(i, size) <= |buffer|
        invariant values == Cut(buffer, i, size)
        invariant kind == 0 ==> i == 0
      {
        if kind == 0 {
          return false;
        }
        TimesMono(i, count, size);
        values := values + [buffer[marker..marker + size]];
        marker := marker + size;
        i := i + 1;
      }
      ok := true;
    }
  }

  lemma IterationsOf(f: Field, i: nat)
    requires f.Valid() && i < |f.values|
    ensures |f.values[i]| != 0 && f.Iterations() == 4 / |f.values| / |f.values[i]|
  {
  }

  method WriteCopies(output: SeekableFile, value: seq<byte>, iterations: nat)
    modifies output
    ensures output.data == Overwrite(old(output.data), old(output.pos), Repeat(value, iterations))
    ensures output.pos == old(output.pos) + |Repeat(value, iterations)|
  {
    ghost var d, p := output.data, output.pos;
    var j: nat := 0;
    while j < iterations
      invariant j <= iterations
      invariant output.data == Overwrite(d, p, Repeat(value, j)) && output.pos == p + |Repeat(value, j)|
    {
      OverwriteTwice(d, p, Repeat(value, j), value);
      output.Write(value);
      j := j + 1;
    }
  }

  lemma AfterBytes(order: ByteOrder, f: Field, offset: nat, d: seq<byte>, p: nat)
    requires f.Valid() && p <= |d| && (0 < f.Outside() ==> p + 12 <= offset)
    ensures var r, b := After(order, f, offset, d, p), f.Bytes(order, offset);
            p + |b| <= |r| && r[..p] == d[..p] && r[p..p + |b|] == b
    ensures 0 < f.Outside() ==>
              var r := After(order, f, offset, d, p);
              offset + f.Size() <= |r| && r[offset..offset + f.Size()] == Flatten(f.values)
  {
    hide Encode, Flatten, Repeated, Field.Iterations, Times, SizeOf, Overwrite;
    var h := Encode(order, 2, f.tag) + Encode(order, 2, f.kind) + Encode(order, 4, |f.values|);
    var started := Overwrite(d, p, h);
    if f.Size() > 4 {
      ConcatLength(f.values, SizeOf(f.kind));
      var c, e := Flatten(f.values), Encode(order, 4, offset);
      var filled := Overwrite(started, offset, c);
      OverwriteAt(d, p, h);
      OverwriteKeeps(d, p, h, 0, p);
      OverwriteKeeps(started, offset, c, p, p + 8);
      OverwriteKeeps(started, offset, c, 0, p);
      OverwriteAt(started, offset, c);
      OverwriteKeeps(filled, p + 8, e, p, p + 8);
      OverwriteKeeps(filled, p + 8, e, 0, p);
      OverwriteKeeps(filled, p + 8, e, offset, offset + |c|);
      OverwriteAt(filled, p + 8, e);
      SlicesJoin(After(order, f, offset, d, p), p, p + 8, p + 12);
    } else {
      var slot := Repeated(f.values, f.Iterations());
      OverwriteTwice(d, p, h, slot);
      OverwriteAt(d, p, h + slot);
      OverwriteKeeps(d, p, h + slot, 0, p);
    }
  }

  /** What lies behind the slot of the entry and apart from its data stays. */
  lemma AfterKeeps(order: ByteOrder, f: Field, offset: nat, d: seq<byte>, p: nat, lo: nat, hi: nat)
    requires f.Valid() && p + 12 <= lo <= hi <= |d|
    requires 0 < f.Outside() ==> hi <= offset || offset + f.Size() <= lo
    ensures hi <= |After(order, f, offset, d, p)| && After(order, f, offset, d, p)[lo..hi] == d[lo..hi]
  {
    hide Encode, Flatten, Repeated, Field.Iterations, Times, SizeOf, Overwrite;
    var h := Encode(order, 2, f.tag) + Encode(order, 2, f.kind) + Encode(order, 4, |f.values|);
    OverwriteKeeps(d, p, h, lo, hi);
    var started := Overwrite(d, p, h);
    if f.Size() > 4 {
      ConcatLength(f.values, SizeOf(f.kind));
      OverwriteKeeps(started, offset, Flatten(f.values), lo, hi);
      OverwriteKeeps(Overwrite(started, offset, Flatten(f.values)), p + 8, Encode(order, 4, offset), lo, hi);
    } else {
      SlotLength(f);
      OverwriteKeeps(started, p + 8, Repeated(f.values, f.Iterations()), lo, hi);
    }
  }

  /** The first i entries of the directory are in the file, and what was before it still is. */
  ghost predicate Progress(order: ByteOrder, before: seq<byte>, d: seq<byte>, p: nat, fields: seq<Field>, i: nat)
    requires AllValid(fields) && i <= |fields| && p <= |before|
  {
    var n := |fields|;
    var base := DataBase(p, n);
    var end := p + 2 + |Table(order, fields, base, i)|;
    && end <= |d| && d[..p] == before[..p]
    && d[p..p + 2] == Encode(order, 2, n % 0x10000)
    && d[p + 2..end] == Table(order, fields, base, i)
    && forall k :: 0 <= k < i ==> DataStored(d, fields, base, k)
  }

  lemma DataKept(order: ByteOrder, d: seq<byte>, p: nat, fields: seq<Field>, i: nat, k: nat)
    requires AllValid(fields) && k < i < |fields|
    requires DataStored(d, fields, DataBase(p, |fields|), k)
    ensures DataStored(After(order, fields[i], DataStart(fields, DataBase(p, |fields|), i), d,
                             p + 2 + |Table(order, fields, DataBase(p, |fields|), i)|),
                       fields, DataBase(p, |fields|), k)
  {
    hide After, Table, DataStart, Flatten, Times, SizeOf;
    var base := DataBase(p, |fields|);
    TableLength(order, fields, base, i);
    DataApart(fields, base, k, i);
    var f, start := fields[k], DataStart(fields, base, k);
    if 0 < f.Outside() {
      AfterKeeps(order, fields[i], DataStart(fields, base, i), d, p + 2 + |Table(order, fields, base, i)|, start,
                 start + f.Size());
    }
  }

  lemma EntryWritten(order: ByteOrder, before: seq<byte>, d: seq<byte>, p: nat, fields: seq<Field>, i: nat)
    requires AllValid(fields) && i < |fields| && p <= |before| && Progress(order, before, d, p, fields, i)
    ensures Progress(order, before, After(order, fields[i], DataStart(fields, DataBase(p, |fields|), i), d,
                                          p + 2 + |Table(order, fields, DataBase(p, |fields|), i)|), p, fields, i + 1)
  {
    hide After, Table, DataStart, DataStored, Flatten, Times, SizeOf, Encode, Field.Bytes, Field.Outside;
    var n, base := |fields|, DataBase(p, |fields|);
    var end, offset := p + 2 + |Table(order, fields, base, i)|, DataStart(fields, base, i);
    var r := After(order, fields[i], offset, d, end);
    forall k | 0 <= k < i + 1
      ensures DataStored(r, fields, base, k)
    {
      if k == i {
        DataWritten(order, d, p, fields, i);
      } else {
        DataKept(order, d, p, fields, i, k);
      }
    }
    TableLength(order, fields, base, i);
    AfterBytes(order, fields[i], offset, d, end);
    TableNext(order, fields, base, i);
    TableExtended(r, d, before, p, end, fields[i].Bytes(order, offset), Table(order, fields, base, i),
                  Encode(order, 2, n % 0x10000));
  }

  lemma TableNext(order: ByteOrder, fields: seq<Field>, base: nat, i: nat)
    requires AllValid(fields) && i < |fields|
    ensures Table(order, fields, base, i + 1)
      == Table(order, fields, base, i) + fields[i].Bytes(order, DataStart(fields, base, i))
  {
  }

  lemma DataWritten(order: ByteOrder, d: seq<byte>, p: nat, fields: seq<Field>, i: nat)
    requires AllValid(fields) && i < |fields| && p + 2 + |Table(order, fields, DataBase(p, |fields|), i)| <= |d|
    ensures DataStored(After(order, fields[i], DataStart(fields, DataBase(p, |fields|), i), d,
                             p + 2 + |Table(order, fields, DataBase(p, |fields|), i)|),
                       fields, DataBase(p, |fields|), i)
  {
    hide After, Table, DataStart, Flatten, Times, SizeOf, Field.Bytes;
    var base := DataBase(p, |fields|);
    TableLength(order, fields, base, i);
    AfterBytes(order, fields[i], DataStart(fields, base, i), d, p + 2 + |Table(order, fields, base, i)|);
  }

  /** The table grows by the bytes of an entry. */
  lemma TableExtended(r: seq<byte>, d: seq<byte>, before: seq<byte>, p: nat, end: nat, b: seq<byte>, table: seq<byte>,
                      count: seq<byte>)
    requires p <= |before| && p + 2 <= end <= |d| && end + |b| <= |r|
    requires r[..end] == d[..end] && r[end..end + |b|] == b
    requires d[..p] == before[..p] && d[p..p + 2] == count && d[p + 2..end] == table
    ensures r[..p] == before[..p] && r[p..p + 2] == count && r[p + 2..end + |b|] == table + b
  {
    SliceOfSlice(r, 0, end, 0, p);
    SliceOfSlice(d, 0, end, 0, p);
    SliceOfSlice(r, 0, end, p, p + 2);
    SliceOfSlice(d, 0, end, p, p + 2);
    SliceOfSlice(r, 0, end, p + 2, end);
    SliceOfSlice(d, 0, end, p + 2, end);
    SlicesJoin(r, p + 2, end, end + |b|);
  }

  /** The offset of the next directory ends the table. */
  lemma DirectoryWritten(order: ByteOrder, before: seq<byte>, d: seq<byte>, p: nat, fields: seq<Field>)
    requires AllValid(fields) && p <= |before| && Progress(order, before, d, p, fields, |fields|)
    ensures var next := NextPosition(order, p, fields);
            var r := Overwrite(d, next, Encode(order, 4, 0));
            p <= |r| && r[..p] == before[..p] && Stored(order, r, p, fields)
  {
    hide Encode, Table, DataStart, Flatten, Times, SizeOf, Field.Outside, Overwrite;
    var n, base, next := |fields|, DataBase(p, |fields|), NextPosition(order, p, fields);
    var e := Encode(order, 4, 0);
    var r := Overwrite(d, next, e);
    OverwriteAt(d, next, e);
    OverwriteKeeps(d, next, e, 0, p);
    OverwriteKeeps(d, next, e, p, p + 2);
    OverwriteKeeps(d, next, e, p + 2, next);
    TableLength(order, fields, base, n);
    forall k | 0 <= k < n
      ensures DataStored(r, fields, base, k)
    {
      DataApart(fields, base, k, n);
      if 0 < fields[k].Outside() {
        assert DataStored(d, fields, base, k);
        OverwriteKeeps(d, next, e, DataStart(fields, base, k), DataStart(fields, base, k) + fields[k].Size());
      }
    }
  }

  // ----- The directory -----

  ghost function FieldsOf(entries: seq<IFDEntry>): (fields: seq<Field>)
    reads entries`tag, entries`kind, entries`values
    ensures |fields| == |entries| && forall i :: 0 <= i < |fields| ==> fields[i] == entries[i].Contents()
    decreases |entries|
  {
    if entries == [] then [] else FieldsOf(entries[..|entries| - 1]) + [entries[|entries| - 1].Contents()]
  }

  lemma FieldsOfSum(a: seq<IFDEntry>, b: seq<IFDEntry>)
    ensures FieldsOf(a + b) == FieldsOf(a) + FieldsOf(b)
  {
    hide FieldsOf, IFDEntry.Contents;
    forall k | 0 <= k < |a| + |b|
      ensures FieldsOf(a + b)[k] == (FieldsOf(a) + FieldsOf(b))[k]
    {
      assert (a + b)[k] == if k < |a| then a[k] else b[k - |a|];
    }
  }

  lemma FieldsOfTake(entries: seq<IFDEntry>, i: nat)
    requires i <= |entries|
    ensures FieldsOf(entries[..i]) == FieldsOf(entries)[..i]
  {
    hide FieldsOf, IFDEntry.Contents;
    forall k | 0 <= k < i
      ensures FieldsOf(entries[..i])[k] == FieldsOf(entries)[..i][k]
    {
      assert entries[..i][k] == entries[k];
    }
  }

  lemma FieldsOfDrop(entries: seq<IFDEntry>, i: nat)
    requires i <= |entries|
    ensures FieldsOf(entries[i..]) == FieldsOf(entries)[i..]
  {
    hide FieldsOf, IFDEntry.Contents;
    forall k | 0 <= k < |entries| - i
      ensures FieldsOf(entries[i..])[k] == FieldsOf(entries)[i..][k]
    {
      assert entries[i..][k] == entries[i + k];
    }
  }

  lemma FieldsOfParts(entries: seq<IFDEntry>, i: nat, entry: IFDEntry, behind: nat)
    requires i <= |entries| && behind <= |entries|
    ensures FieldsOf(entries[..i] + [entry] + entries[behind..])
         == FieldsOf(entries)[..i] + [entry.Contents()] + FieldsOf(entries)[behind..]
  {
    hide *;
    FieldsOfTake(entries, i);
    FieldsOfDrop(entries, behind);
    FieldsOfOne(entry);
    FieldsOfSum(entries[..i], [entry]);
    FieldsOfSum(entries[..i] + [entry], entries[behind..]);
  }

  lemma FieldsOfOne(entry: IFDEntry)
    ensures FieldsOf([entry]) == [entry.Contents()]
  {
  }

  lemma DataNext(fields: seq<Field>, base: nat, i: nat)
    requires AllValid(fields)
    ensures DataStart(fields, base, 0) == base
    ensures i < |fields| ==> DataStart(fields, base, i + 1) == DataStart(fields, base, i) + fields[i].Outside()
  {
  }

  class IFD {
    var ifd: seq<IFDEntry>
    var nextIFDOffsetPosition: nat

    constructor ()
      ensures ifd == []
    {
      ifd, nextIFDOffsetPosition := [], 0;
    }

    ghost function Contents(): (fields: seq<Field>)
      reads `ifd, ifd`tag, ifd`kind, ifd`values
      ensures |fields| == |ifd| && forall i :: 0 <= i < |fields| ==> fields[i] == ifd[i].Contents()
    {
      FieldsOf(ifd)
    }

    /** Sets the entry of a tag. */
    method AddEntry(entry: IFDEntry)
      modifies `ifd
      ensures Contents() == Put(old(Contents()), entry.Contents())
    {
      hide FieldsOf, Place, Behind, Put;
      var i := FindPlace(entry.tag);
      var behind := if i < |ifd| && ifd[i].tag == entry.tag then i + 1 else i;
      PutIs(Contents(), entry.Contents(), i, behind);
      FieldsOfParts(ifd, i, entry, behind);
      ifd := ifd[..i] + [entry] + ifd[behind..];
    }

    method FindPlace(tag: nat) returns (i: nat)
      ensures i == Place(Contents(), tag)
    {
      hide FieldsOf, Place, Contents;
      i := 0;
      while i < |ifd| && ifd[i].tag < tag
        invariant i <= |ifd| && i <= Place(Contents(), tag)
      {
        i := i + 1;
      }
    }

    /** Gives every entry that needs it a place behind the table. */
    method Finalize(offset: nat) returns (end: nat)
      requires AllValid(Contents()) && Ascending(Contents())
      modifies ifd`count, ifd`offset
      ensures end == DataStart(Contents(), offset + 2 + 12 * |ifd| + 4, |ifd|)
      ensures Finalized(Contents(), offset + 2 + 12 * |ifd| + 4, |ifd|)
    {
      hide Contents, FieldsOf, Field.Outside, DataStart, Field.Valid;
      DataNext(Contents(), DataBase(offset, |ifd|), 0);
      var dataOffset := offset + 2 + |ifd| * 12 + 4;
      ghost var fields := Contents();
      var i: nat := 0;
      while i < |ifd|
        invariant i <= |ifd|
        invariant dataOffset == DataStart(fields, DataBase(offset, |ifd|), i)
        invariant Finalized(fields, DataBase(offset, |ifd|), i)
      {
        DataNext(fields, DataBase(offset, |ifd|), i);
        dataOffset := ifd[i].Finalize(dataOffset);
        i := i + 1;
      }
      end := dataOffset;
    }

    /** The first n entries are counted, and know where their data goes. */
    ghost predicate Finalized(fields: seq<Field>, base: nat, n: nat)
      requires AllValid(fields) && n <= |ifd| == |fields|
      reads `ifd, ifd`count, ifd`offset
    {
      forall k :: 0 <= k < n ==>
        && ifd[k].count == |fields[k].values|
        && (0 < fields[k].Outside() ==> ifd[k].offset == DataStart(fields, base, k))
    }

    /** Writes the directory at the cursor, and leaves the cursor where the next image can begin. */
    method Serialize(order: ByteOrder, output: SeekableFile)
      requires AllValid(Contents()) && Ascending(Contents()) && output.pos <= |output.data|
      modifies output, `nextIFDOffsetPosition, ifd`count, ifd`offset
      ensures Stored(order, output.data, old(output.pos), Contents())
      ensures old(output.pos) <= |output.data| && output.data[..old(output.pos)] == old(output.data)[..old(output.pos)]
      ensures nextIFDOffsetPosition == NextPosition(order, old(output.pos), Contents())
      ensures output.pos == DataStart(Contents(), old(output.pos) + 2 + 12 * |ifd| + 4, |ifd|)
    {
      hide Contents, FieldsOf, Encode, Stored, After, Table, DataStart, Progress, Field.Bytes, Field.Outside, Finalized;
      hide Overwrite;
      ghost var before, p, fields := output.data, output.pos, Contents();
      ghost var base := DataBase(p, |fields|);
      var endOffset := Finalize(output.pos);
      output.Write(Encode(order, 2, |ifd| % 0x10000));
      DirectoryBegun(order, before, p, fields);
      var i: nat := 0;
      while i < |ifd|
        invariant i <= |ifd| && Finalized(fields, base, |ifd|)
        invariant output.pos == p + 2 + |Table(order, fields, base, i)|
        invariant Progress(order, before, output.data, p, fields, i)
      {
        WriteEntry(order, output, fields, before, p, i);
        i := i + 1;
      }
      DirectoryWritten(order, before, output.data, p, fields);
      nextIFDOffsetPosition := output.pos;
      output.Write(Encode(order, 4, 0));
      output.Seek(endOffset);
    }

    method WriteEntry(order: ByteOrder, output: SeekableFile, ghost fields: seq<Field>, ghost before: seq<byte>,
                      ghost p: nat, i: nat)
      requires fields == Contents() && AllValid(fields) && i < |ifd| && p <= |before|
      requires Finalized(fields, DataBase(p, |fields|), |ifd|)
      requires output.pos == p + 2 + |Table(order, fields, DataBase(p, |fields|), i)|
      requires Progress(order, before, output.data, p, fields, i)
      modifies output
      ensures output.pos == p + 2 + |Table(order, fields, DataBase(p, |fields|), i + 1)|
      ensures Progress(order, before, output.data, p, fields, i + 1)
    {
      hide Contents, FieldsOf, After, Table, DataStart, Progress, Field.Bytes, Field.Outside;
      ghost var base := DataBase(p, |fields|);
      EntryWritten(order, before, output.data, p, fields, i);
      TableNext(order, fields, base, i);
      OffsetUnused(order, fields[i], ifd[i].offset, DataStart(fields, base, i), output.data, output.pos);
      ifd[i].Serialize(order, output);
    }

    method ReadEntry(order: ByteOrder, input: SeekableFile, ghost p: nat, ghost i: nat, ghost before: seq<Field>)
      returns (ok: bool)
      requires input.pos == p + 12 * i && ParseEntries(order, input.data, p, i).Some?
      requires Contents() == PutAll(before, ParseEntries(order, input.data, p, i).value)
      modifies `ifd, input`pos
      ensures ok <==> ParseEntry(order, input.data, p + 12 * i).Some?
      ensures ok ==> input.pos == p + 12 * (i + 1) && ParseEntries(order, input.data, p, i + 1).Some?
      ensures ok ==> Contents() == PutAll(before, ParseEntries(order, input.data, p, i + 1).value)
    {
      hide Contents, FieldsOf, ParseEntry, ParseEntries, PutAll, Put;
      NextEntry(order, input.data, p, i, before);
      var entry := new IFDEntry(0, 0);
      ok := entry.Deserialize(order, input);
      if ok {
        AddEntry(entry);
      }
    }

    /** Reads a directory at the cursor into this one. */
    method Deserialize(order: ByteOrder, input: SeekableFile) returns (ok: bool)
      modifies `ifd, input`pos
      ensures ok <==> Parse(order, input.data, old(input.pos)).Some?
      ensures ok ==> Contents() == PutAll(old(Contents()), Parse(order, input.data, old(input.pos)).value.fields)
      ensures ok ==> input.pos == Parse(order, input.data, old(input.pos)).value.end
    {
      hide Contents, FieldsOf, Decode, ParseEntry, ParseEntries, PutAll, Put;
      ghost var p, before := input.pos, Contents();
      var countBytes := input.Read(2);
      if |countBytes| < 2 {
        return false;
      }
      var ifdEntryCount := Decode(order, countBytes);
      var i: nat := 0;
      ok := true;
      NoEntries(order, input.data, p + 2, before);
      while i < ifdEntryCount
        invariant i <= ifdEntryCount && input.pos == p + 2 + 12 * i
        invariant ParseEntries(order, input.data, p + 2, i).Some?
        invariant Contents() == PutAll(before, ParseEntries(order, input.data, p + 2, i).value)
      {
        ok := ReadEntry(order, input, p + 2, i, before);
        if !ok {
          NoneLater(order, input.data, p + 2, i, ifdEntryCount);
          return;
        }
        i := i + 1;
      }
    }
  }

  lemma NoEntries(order: ByteOrder, d: seq<byte>, p: nat, before: seq<Field>)
    ensures ParseEntries(order, d, p, 0) == Some([]) && PutAll(before, []) == before
  {
  }

  lemma NextEntry(order: ByteOrder, d: seq<byte>, p: nat, i: nat, before: seq<Field>)
    requires ParseEntries(order, d, p, i).Some?
    ensures var fields, entry := ParseEntries(order, d, p, i).value, ParseEntry(order, d, p + 12 * i);
            entry.Some? ==>
              && ParseEntries(order, d, p, i + 1) == Some(fields + [entry.value])
              && PutAll(before, fields + [entry.value]) == Put(PutAll(before, fields), entry.value)
  {
  }

  lemma {:induction false} NoneLater(order: ByteOrder, d: seq<byte>, p: nat, i: nat, n: nat)
    requires i < n && ParseEntry(order, d, p + 12 * i).None?
    ensures ParseEntries(order, d, p, n).None?
    decreases n
  {
    hide ParseEntry;
    if i + 1 < n {
      NoneLater(order, d, p, i, n - 1);
    }
  }

  lemma DirectoryBegun(order: ByteOrder, before: seq<byte>, p: nat, fields: seq<Field>)
    requires AllValid(fields) && p <= |before|
    ensures Progress(order, before, Overwrite(before, p, Encode(order, 2, |fields| % 0x10000)), p, fields, 0)
    ensures |Table(order, fields, DataBase(p, |fields|), 0)| == 0
  {
  }

  /** An entry that keeps its values in the table does not use its offset. */
  lemma OffsetUnused(order: ByteOrder, f: Field, offset: nat, start: nat, d: seq<byte>, p: nat)
    requires f.Valid() && (0 < f.Outside() ==> offset == start)
    ensures After(order, f, offset, d, p) == After(order, f, start, d, p)
      && f.Bytes(order, offset) == f.Bytes(order, start)
  {
  }

  /** The same for a reader that keeps the entries in a map, as long as the entries are in order. */
  lemma ReadIntoEmpty(order: ByteOrder, d: seq<byte>, p: nat, fields: seq<Field>)
    requires AllValid(fields) && Ascending(fields) && Stored(order, d, p, fields)
    requires DataStart(fields, DataBase(p, |fields|), |fields|) < Limit(4)
    ensures var r := Parse(order, d, p);
            r.Some? && PutAll([], r.value.fields) == fields && r.value.end == NextPosition(order, p, fields)
            <==> |fields| < 0x10000 && AllReadable(fields)
  {
    hide Stored, DataStart, Limit, ReadBackAll, AllFill, AllValid, AllReadable, NextPosition, Parse, SizeOf, PutAll;
    hide Ascending;
    RoundTripExactly(order, d, p, fields);
    PutAllAscending(fields);
    if |fields| < 0x10000 && AllFill(fields, |fields|) {
      AlignedReread(order, d, p, fields);
      SameTags(fields);
      PutAllAscending(ReadBackAll(fields, |fields|));
    } else {
      OtherDirectory(order, d, p, fields);
    }
  }

  lemma SameTags(fields: seq<Field>)
    requires AllValid(fields) && Ascending(fields) && AllFill(fields, |fields|)
    ensures Ascending(ReadBackAll(fields, |fields|))
  {
  }

  lemma OtherDirectory(order: ByteOrder, d: seq<byte>, p: nat, fields: seq<Field>)
    requires AllValid(fields) && Stored(order, d, p, fields)
    requires |fields| >= 0x10000 || !AllFill(fields, |fields|)
    ensures var r := Parse(order, d, p);
            r.Some? && PutAll([], r.value.fields) == fields ==> r.value.end != NextPosition(order, p, fields)
  {
    hide Stored, DataStart, Decode, ParseEntries, AllFill, AllValid, Table, SizeOf, PutAll;
    CountReread(order, d, p, fields);
    TableLength(order, fields, DataBase(p, |fields|), |fields|);
    var r := Parse(order, d, p);
    if r.Some? {
      PutAllLength([], r.value.fields);
    }
  }

  /** Writing a directory and reading it into an empty one gives the same entries, and the reader finds the
      offset of the next directory, exactly when every entry is readable and they can be counted. */
  method SerializeThenDeserialize(order: ByteOrder, ifd: IFD, file: SeekableFile) returns (ok: bool, copy: IFD)
    requires AllValid(ifd.Contents()) && Ascending(ifd.Contents()) && file.pos <= |file.data|
    requires DataStart(ifd.Contents(), DataBase(file.pos, |ifd.Contents()|), |ifd.Contents()|) < Limit(4)
    modifies file, ifd`nextIFDOffsetPosition, ifd.ifd`count, ifd.ifd`offset
    ensures ok && copy.Contents() == ifd.Contents() && file.pos == ifd.nextIFDOffsetPosition
            <==> |ifd.Contents()| < 0x10000 && AllReadable(ifd.Contents())
  {
    hide IFD.Contents, FieldsOf, Stored, DataStart, Limit, AllReadable, AllValid, Parse, NextPosition, Field.Valid;
    hide Ascending;
    var p := file.pos;
    ghost var fields := ifd.Contents();
    ifd.Serialize(order, file);
    file.Seek(p);
    copy := new IFD();
    ok := copy.Deserialize(order, file);
    ReadIntoEmpty(order, file.data, p, fields);
  }
}
