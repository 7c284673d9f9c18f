/** The layout of a directory in a file, and exactly when reading it back gives what was written. */
module IFDRoundTrip {
  import opened Arithmetic
  import opened Sequences
  import opened Storage
  import opened ByteOrders
  import opened Options
  import opened IFDFormat

  ghost predicate AllValid(fields: seq<Field>)
  {
    forall i :: 0 <= i < |fields| ==> fields[i].Valid()
  }

  /** Where the data outside of the table begins: behind the count, the entries and the next offset. */
  function DataBase(p: nat, n: nat): nat
  {
    p + 2 + 12 * n + 4
  }

  /** Where the data of entry k goes, when the data of all entries begins at base. */
  ghost function DataStart(fields: seq<Field>, base: nat, k: nat): (start: nat)
    requires AllValid(fields) && k <= |fields|
    ensures base <= start
  {
    if k == 0 then base else DataStart(fields, base, k - 1) + fields[k - 1].Outside()
  }

  /** The first k entries of the table. */
  ghost function Table(order: ByteOrder, fields: seq<Field>, base: nat, k: nat): seq<byte>
    requires AllValid(fields) && k <= |fields|
  {
    if k == 0 then []
    else Table(order, fields, base, k - 1) + fields[k - 1].Bytes(order, DataStart(fields, base, k - 1))
  }

  /** The data of entry k is in the file. */
  ghost predicate DataStored(d: seq<byte>, fields: seq<Field>, base: nat, k: nat)
    requires AllValid(fields) && k < |fields|
  {
    var f, start := fields[k], DataStart(fields, base, k);
    0 < f.Outside() ==> start + f.Size() <= |d| && d[start..start + f.Size()] == Flatten(f.values)
  }

  /** Where serialize puts the offset of the next directory. */
  ghost function NextPosition(order: ByteOrder, p: nat, fields: seq<Field>): nat
    requires AllValid(fields)
  {
    p + 2 + |Table(order, fields, DataBase(p, |fields|), |fields|)|
  }

  /** The file holds the directory at position p. */
  ghost predicate Stored(order: ByteOrder, d: seq<byte>, p: nat, fields: seq<Field>)
    requires AllValid(fields)
  {
    var n := |fields|;
    var base := DataBase(p, n);
    var next := NextPosition(order, p, fields);
    && next + 4 <= |d|
    && d[p..p + 2] == Encode(order, 2, n % 0x10000)
    && d[p + 2..next] == Table(order, fields, base, n)
    && d[next..next + 4] == Encode(order, 4, 0)
    && forall k :: 0 <= k < n ==> DataStored(d, fields, base, k)
  }

  /** The data of the entries lies in order, apart from one another, and behind the table. */
  lemma {:induction false} DataApart(fields: seq<Field>, base: nat, i: nat, j: nat)
    requires AllValid(fields) && i < j <= |fields|
    ensures base <= DataStart(fields, base, i)
    ensures DataStart(fields, base, i) + fields[i].Outside() <= DataStart(fields, base, j)
    decreases j
  {
    if i + 1 < j {
      DataApart(fields, base, i, j - 1);
    }
  }

  /** No entry takes more than its twelve bytes. */
  lemma BytesLength(order: ByteOrder, f: Field, offset: nat)
    requires f.Valid()
    ensures |f.Bytes(order, offset)| <= 12
    ensures |f.Bytes(order, offset)| == 12 <==> f.FillsItsSlot()
  {
    hide Repeated, Field.Iterations, Times;
    if f.Size() <= 4 {
      SlotLength(f);
    }
  }

  ghost predicate AllFill(fields: seq<Field>, k: nat)
    requires AllValid(fields) && k <= |fields|
  {
    forall i :: 0 <= i < k ==> fields[i].FillsItsSlot()
  }

  /** The table is as long as readers take it to be exactly when every entry fills its slot. */
  lemma {:induction false} TableLength(order: ByteOrder, fields: seq<Field>, base: nat, k: nat)
    requires AllValid(fields) && k <= |fields|
    ensures |Table(order, fields, base, k)| <= 12 * k
    ensures |Table(order, fields, base, k)| == 12 * k <==> AllFill(fields, k)
  {
    hide Field.Bytes, Field.FillsItsSlot, Field.Outside, Field.Valid, DataStart;
    if k != 0 {
      TableLength(order, fields, base, k - 1);
      BytesLength(order, fields[k - 1], DataStart(fields, base, k - 1));
    }
  }

  /** An entry of the table is where the table has it. */
  lemma {:induction false} EntryInTable(order: ByteOrder, fields: seq<Field>, base: nat, k: nat, n: nat)
    requires AllValid(fields) && k < n <= |fields| && AllFill(fields, n)
    ensures |Table(order, fields, base, n)| == 12 * n
    ensures Table(order, fields, base, n)[12 * k..12 * k + 12] == fields[k].Bytes(order, DataStart(fields, base, k))
    decreases n
  {
    hide Field.Bytes, Field.FillsItsSlot, Field.Outside, DataStart;
    TableLength(order, fields, base, n);
    TableLength(order, fields, base, n - 1);
    BytesLength(order, fields[n - 1], DataStart(fields, base, n - 1));
    var before, last := Table(order, fields, base, n - 1), fields[n - 1].Bytes(order, DataStart(fields, base, n - 1));
    if k == n - 1 {
      SliceRight(before, last, 0, 12);
    } else {
      EntryInTable(order, fields, base, k, n - 1);
      SliceLeft(before, last, 12 * k, 12 * k + 12);
    }
  }

  /** What a reader makes of an entry that fills its slot. */
  ghost function ReadBack(f: Field): Field
    requires f.Valid() && f.FillsItsSlot()
  {
    if f.Size() > 4 then f
    else
      SlotReread(f);
      f.(values := Cut(Repeated(f.values, f.Iterations()), |f.values|, SizeOf(f.kind)))
  }

  lemma FourParts(d: seq<byte>, q: nat, a: seq<byte>, b: seq<byte>, c: seq<byte>, e: seq<byte>)
    requires |a| == 2 && |b| == 2 && |c| == 4 && |e| == 4 && q + 12 <= |d| && d[q..q + 12] == a + b + c + e
    ensures d[q..q + 2] == a && d[q + 2..q + 4] == b && d[q + 4..q + 8] == c && d[q + 8..q + 12] == e
  {
    var s := a + b + c + e;
    SliceOfSlice(d, q, q + 12, 0, 2);
    SliceOfSlice(d, q, q + 12, 2, 4);
    SliceOfSlice(d, q, q + 12, 4, 8);
    SliceOfSlice(d, q, q + 12, 8, 12);
    assert s[0..2] == a && s[2..4] == b && s[4..8] == c && s[8..12] == e;
  }

  lemma Limits()
    ensures Limit(2) == 0x10000 && Limit(4) == 0x1_0000_0000
  {
  }

  /** The count of an entry fits wherever its data fits. */
  lemma CountFits(f: Field)
    requires f.Valid()
    ensures |f.values| <= f.Size()
  {
    SmallCounts(|f.values|, SizeOf(f.kind));
  }

  /** Reading one entry. */
  lemma EntryReread(order: ByteOrder, d: seq<byte>, q: nat, f: Field, offset: nat)
    requires f.Valid() && f.FillsItsSlot() && q + 12 <= |d|
    requires d[q..q + 12] == f.Bytes(order, offset) && offset < Limit(4) && f.Size() < Limit(4)
    requires f.Size() > 4 ==> offset + f.Size() <= |d| && d[offset..offset + f.Size()] == Flatten(f.values)
    ensures ParseEntry(order, d, q) == Some(ReadBack(f))
  {
    hide Decode, Encode, Cut, Repeated, Flatten, Times, Limit, Field.Iterations, Field.FillsItsSlot, Field.Readable;
    Limits();
    CountFits(f);
    BytesLength(order, f, offset);
    var rest := if f.Size() > 4 then Encode(order, 4, offset) else Repeated(f.values, f.Iterations());
    FourParts(d, q, Encode(order, 2, f.tag), Encode(order, 2, f.kind), Encode(order, 4, |f.values|), rest);
    DecodeOfEncode(order, 2, f.tag);
    DecodeOfEncode(order, 2, f.kind);
    DecodeOfEncode(order, 4, |f.values|);
    if f.Size() > 4 {
      DecodeOfEncode(order, 4, offset);
      CutOfConcat(f.values, SizeOf(f.kind));
    }
  }

  ghost function ReadBackAll(fields: seq<Field>, k: nat): (r: seq<Field>)
    requires AllValid(fields) && k <= |fields| && AllFill(fields, |fields|)
    ensures |r| == k && forall i :: 0 <= i < k ==> r[i] == ReadBack(fields[i])
  {
    if k == 0 then [] else ReadBackAll(fields, k - 1) + [ReadBack(fields[k - 1])]
  }

  ghost predicate AllReadable(fields: seq<Field>)
    requires AllValid(fields)
  {
    forall i :: 0 <= i < |fields| ==> fields[i].Readable()
  }

  lemma StoredEntry(order: ByteOrder, d: seq<byte>, p: nat, fields: seq<Field>, k: nat)
    requires AllValid(fields) && Stored(order, d, p, fields) && AllFill(fields, |fields|) && k < |fields|
    ensures p + 2 + 12 * k + 12 <= |d|
    ensures d[p + 2 + 12 * k..p + 2 + 12 * k + 12]
      == fields[k].Bytes(order, DataStart(fields, DataBase(p, |fields|), k))
  {
    hide Table, Field.Bytes, Field.FillsItsSlot, DataStart, Field.Outside, DataStored, Encode, Flatten;
    var n, base := |fields|, DataBase(p, |fields|);
    TableLength(order, fields, base, n);
    EntryInTable(order, fields, base, k, n);
    SliceOfSlice(d, p + 2, p + 2 + 12 * n, 12 * k, 12 * k + 12);
  }

  lemma StoredData(order: ByteOrder, d: seq<byte>, p: nat, fields: seq<Field>, k: nat)
    requires AllValid(fields) && Stored(order, d, p, fields) && k < |fields|
    ensures DataStored(d, fields, DataBase(p, |fields|), k)
  {
  }

  /** Reading one entry of a stored directory. */
  lemma StoredEntryReread(order: ByteOrder, d: seq<byte>, p: nat, fields: seq<Field>, k: nat)
    requires AllValid(fields) && Stored(order, d, p, fields) && AllFill(fields, |fields|) && k < |fields|
    requires DataStart(fields, DataBase(p, |fields|), |fields|) < Limit(4)
    ensures ParseEntry(order, d, p + 2 + 12 * k) == Some(ReadBack(fields[k]))
  {
    hide Stored, Field.Bytes, Field.FillsItsSlot, Field.Valid, SizeOf, DataStart, Limit, ReadBack, ParseEntry, Flatten;
    hide Times, Encode;
    Limits();
    StoredEntry(order, d, p, fields, k);
    StoredData(order, d, p, fields, k);
    DataApart(fields, DataBase(p, |fields|), k, |fields|);
    EntryReread(order, d, p + 2 + 12 * k, fields[k], DataStart(fields, DataBase(p, |fields|), k));
  }

  lemma {:induction false} EntriesReread(order: ByteOrder, d: seq<byte>, p: nat, fields: seq<Field>, k: nat)
    requires AllValid(fields) && Stored(order, d, p, fields) && AllFill(fields, |fields|) && k <= |fields|
    requires DataStart(fields, DataBase(p, |fields|), |fields|) < Limit(4)
    ensures ParseEntries(order, d, p + 2, k) == Some(ReadBackAll(fields, k))
  {
    hide Stored, AllFill, DataStart, Limit, ReadBack, ParseEntry;
    if k != 0 {
      EntriesReread(order, d, p, fields, k - 1);
      StoredEntryReread(order, d, p, fields, k - 1);
    }
  }

  /** Reading changes nothing exactly when every entry is readable. */
  lemma ReadBackSame(fields: seq<Field>)
    requires AllValid(fields) && AllFill(fields, |fields|)
    ensures ReadBackAll(fields, |fields|) == fields <==> AllReadable(fields)
  {
    hide Field.FillsItsSlot, Field.Readable, Field.Iterations, Cut, Repeated, Times, ReadBackAll;
    var r := ReadBackAll(fields, |fields|);
    forall i | 0 <= i < |fields|
      ensures r[i] == fields[i] <==> fields[i].Readable()
    {
      OneReadBackSame(fields[i]);
    }
  }

  lemma OneReadBackSame(f: Field)
    requires f.Valid() && f.FillsItsSlot()
    ensures ReadBack(f) == f <==> f.Readable()
  {
    if f.Size() <= 4 {
      SlotReread(f);
    }
  }

  lemma ReadableFills(fields: seq<Field>)
    requires AllValid(fields) && AllReadable(fields)
    ensures AllFill(fields, |fields|)
  {
  }

  lemma CountReread(order: ByteOrder, d: seq<byte>, p: nat, fields: seq<Field>)
    requires AllValid(fields) && Stored(order, d, p, fields)
    ensures p + 2 <= |d| && Decode(order, d[p..p + 2]) == |fields| % 0x10000
  {
    hide Encode, Decode, Limit;
    Limits();
    DecodeOfEncode(order, 2, |fields| % 0x10000);
  }

  /** When every entry fills its slot, all of them are read. */
  lemma AlignedReread(order: ByteOrder, d: seq<byte>, p: nat, fields: seq<Field>)
    requires AllValid(fields) && Stored(order, d, p, fields) && |fields| < 0x10000 && AllFill(fields, |fields|)
    requires DataStart(fields, DataBase(p, |fields|), |fields|) < Limit(4)
    ensures Parse(order, d, p) == Some(Directory(ReadBackAll(fields, |fields|), NextPosition(order, p, fields)))
  {
    hide Stored, DataStart, Limit, Decode, ReadBackAll, ParseEntries, AllFill, AllValid, Table, SizeOf;
    CountReread(order, d, p, fields);
    TableLength(order, fields, DataBase(p, |fields|), |fields|);
    EntriesReread(order, d, p, fields, |fields|);
  }

  /** When an entry does not, or the count does not fit, the reader stops somewhere else or reads fewer. */
  lemma MisalignedReread(order: ByteOrder, d: seq<byte>, p: nat, fields: seq<Field>)
    requires AllValid(fields) && Stored(order, d, p, fields)
    requires |fields| >= 0x10000 || !AllFill(fields, |fields|)
    ensures Parse(order, d, p) != Some(Directory(fields, NextPosition(order, p, fields)))
  {
    hide Stored, DataStart, Decode, ParseEntries, AllFill, AllValid, Table, SizeOf;
    CountReread(order, d, p, fields);
    TableLength(order, fields, DataBase(p, |fields|), |fields|);
  }

  /** Reading a stored directory gives the same entries, and finds the offset of the next directory where
      it was put, exactly when there are fewer than 65536 entries and each of them is readable. */
  lemma RoundTripExactly(order: ByteOrder, d: seq<byte>, p: nat, fields: seq<Field>)
    requires AllValid(fields) && Stored(order, d, p, fields)
    requires DataStart(fields, DataBase(p, |fields|), |fields|) < Limit(4)
    ensures Parse(order, d, p) == Some(Directory(fields, NextPosition(order, p, fields)))
            <==> |fields| < 0x10000 && AllReadable(fields)
  {
    hide Stored, DataStart, Limit, ReadBackAll, AllFill, AllValid, AllReadable, NextPosition, Parse, SizeOf;
    if |fields| < 0x10000 && AllFill(fields, |fields|) {
      AlignedReread(order, d, p, fields);
      ReadBackSame(fields);
    } else {
      MisalignedReread(order, d, p, fields);
      if AllReadable(fields) {
        ReadableFills(fields);
      }
    }
  }

  lemma FlattenThree(v: seq<byte>)
    ensures Flatten([v, v, v]) == v + v + v
  {
    hide *;
    FlattenNone<byte>();
    FlattenNext([], v);
    FlattenNext([v], v);
    FlattenNext([v, v], v);
    assert [] + [v] == [v] && [v] + [v] == [v, v] && [v, v] + [v] == [v, v, v] && [] + v == v;
  }

  lemma ShortsEntry(f: Field)
    requires f == Field(258, 3, [[8, 0], [8, 0], [8, 0]])
    ensures f.Valid() && f.Size() == 6 && Flatten(f.values) == [8, 0, 8, 0, 8, 0]
    ensures f.Bytes(LittleEndian, 18) == [2, 1] + [3, 0] + [3, 0, 0, 0] + [18, 0, 0, 0]
  {
    hide Encode, Flatten;
    SmallCounts(3, 2);
    FlattenThree([8, 0]);
    TwoBytes(LittleEndian, 258);
    TwoBytes(LittleEndian, 3);
    FourBytes(LittleEndian, 3);
    FourBytes(LittleEndian, 18);
  }

  /** A directory at the beginning of a file, little endian, with three SHORTs of 8: count, entry with the offset 18,
      next offset, and the values. */
  lemma StoredShorts(d: seq<byte>, f: Field)
    requires f == Field(258, 3, [[8, 0], [8, 0], [8, 0]])
    requires AllValid([f]) && Stored(LittleEndian, d, 0, [f])
    ensures 24 <= |d| && d[0..2] == [1, 0]
    ensures d[2..14] == [2, 1] + [3, 0] + [3, 0, 0, 0] + [18, 0, 0, 0]
    ensures d[14..18] == [0, 0, 0, 0] && d[18..24] == [8, 0, 8, 0, 8, 0]
  {
    hide *;
    ShortsEntry(f);
    OneStored(LittleEndian, d, f);
    TwoBytes(LittleEndian, 1);
    FourBytes(LittleEndian, 0);
  }

  /** Where the parts of a directory with one entry are, whose values do not fit the slot. */
  lemma OneStored(order: ByteOrder, d: seq<byte>, f: Field)
    requires f.Valid() && 4 < f.Size() && AllValid([f]) && Stored(order, d, 0, [f])
    ensures 18 + f.Size() <= |d| && d[0..2] == Encode(order, 2, 1) && d[2..14] == f.Bytes(order, 18)
    ensures d[14..18] == Encode(order, 4, 0) && d[18..18 + f.Size()] == Flatten(f.values)
  {
    hide Encode, Flatten;
    assert DataStart([f], 18, 0) == 18;
    assert Table(order, [f], 18, 1) == [] + f.Bytes(order, 18) == f.Bytes(order, 18);
    StoredData(order, d, 0, [f], 0);
  }

  // ----- Directories that do not come back -----

  /** A file with a single entry that needs no space outside of the table. */
  ghost function OneEntry(order: ByteOrder, f: Field): seq<byte>
    requires f.Valid()
  {
    Encode(order, 2, 1) + f.Bytes(order, DataBase(0, 1)) + Encode(order, 4, 0)
  }

  lemma OneEntryStored(order: ByteOrder, f: Field)
    requires f.Valid() && f.Size() <= 4
    ensures AllValid([f]) && Stored(order, OneEntry(order, f), 0, [f])
    ensures NextPosition(order, 0, [f]) == 2 + |f.Bytes(order, DataBase(0, 1))|
    ensures DataStart([f], DataBase(0, 1), 1) == DataBase(0, 1) == 18
  {
    hide Encode, Field.Bytes;
    var count, entry, next := Encode(order, 2, 1), f.Bytes(order, DataBase(0, 1)), Encode(order, 4, 0);
    assert DataStart([f], 18, 0) == 18 && DataStart([f], 18, 1) == 18;
    assert Table(order, [f], 18, 0) == [];
    assert Table(order, [f], 18, 1) == [] + entry == entry;
    var d := OneEntry(order, f);
    assert d[0..2] == count;
    assert d[2..2 + |entry|] == entry;
    assert d[2 + |entry|..2 + |entry| + 4] == next;
  }

  lemma TwoBytesReadBack(f: Field)
    requires f.Valid() && f.kind == 1 && |f.values| == 2
    ensures f.Size() == 2 && f.FillsItsSlot() && ReadBack(f) == f.(values := [f.values[0], f.values[0]])
  {
    SmallCounts(2, 1);
    hide Cut, Repeated, Times;
    assert f.Iterations() == 2;
    TwoBytesReread(f.values);
  }

  /** Two different values of one byte: the first is read twice. */
  lemma TwoBytesMisread(order: ByteOrder)
    ensures var f := Field(1, 1, [[10], [20]]);
            && f.Valid() && AllValid([f]) && Stored(order, OneEntry(order, f), 0, [f])
            && Parse(order, OneEntry(order, f), 0)
               == Some(Directory([f.(values := [[10], [10]])], NextPosition(order, 0, [f])))
  {
    hide Stored, Parse, Encode, Field.Bytes, NextPosition, DataStart, Cut, Repeated, Times, OneEntry, ReadBack;
    var f := Field(1, 1, [[10], [20]]);
    TwoBytesReadBack(f);
    OneEntryStored(order, f);
    Limits();
    AlignedReread(order, OneEntry(order, f), 0, [f]);
    assert ReadBackAll([f], 1) == [ReadBack(f)];
  }

  /** An entry that does not fill its slot: the offset of the next directory is before 14, where a reader
      looks for it. */
  lemma ShortEntryMisplaces(order: ByteOrder, f: Field)
    requires f.Valid() && f.Size() <= 4 && !f.FillsItsSlot()
    ensures AllValid([f]) && Stored(order, OneEntry(order, f), 0, [f]) && NextPosition(order, 0, [f]) < 14
    ensures var parsed := Parse(order, OneEntry(order, f), 0);
            parsed.Some? ==> parsed.value.end == 14
  {
    hide Stored, Encode, Decode, Field.Bytes, NextPosition, OneEntry, Field.FillsItsSlot, ParseEntries;
    OneEntryStored(order, f);
    BytesLength(order, f, DataBase(0, 1));
    CountReread(order, OneEntry(order, f), 0, [f]);
  }

  /** Three values of one byte, or none, are such an entry. */
  lemma ThreeBytesMisplace(order: ByteOrder, f: Field)
    requires f == Field(1, 1, [[10], [20], [30]]) || f == Field(1, 1, [])
    ensures f.Valid() && AllValid([f]) && Stored(order, OneEntry(order, f), 0, [f])
    ensures NextPosition(order, 0, [f]) < 14
    ensures var parsed := Parse(order, OneEntry(order, f), 0);
            parsed.Some? ==> parsed.value.end == 14
  {
    hide Stored, Parse, NextPosition, OneEntry, Times;
    SmallCounts(|f.values|, 1);
    ShortEntryMisplaces(order, f);
  }

  /** A directory of 65536 entries is read as an empty one. */
  lemma AllEntriesLost(order: ByteOrder, d: seq<byte>, p: nat, fields: seq<Field>)
    requires AllValid(fields) && Stored(order, d, p, fields) && |fields| == 0x10000
    ensures Parse(order, d, p) == Some(Directory([], p + 2))
  {
    hide Stored, Encode, Decode;
    CountReread(order, d, p, fields);
    assert ParseEntries(order, d, p + 2, 0) == Some([]);
  }
}
