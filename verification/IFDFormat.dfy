/** The image file directory of a TIFF file: its bytes, and how they are read (Section 2 of TIFF 6.0). */
module IFDFormat {
  import opened Arithmetic
  import opened Sequences
  import opened Storage
  import opened ByteOrders
  import opened Options

  /** The bytes of one value of a type; type 0 has none, and there are twelve types. */
  const TYPE_SIZES: seq<nat> := [0, 1, 1, 2, 4, 8, 1, 1, 2, 4, 8, 4, 8]

  predicate KnownType(kind: nat) { 1 <= kind <= 12 }

  function SizeOf(kind: nat): (size: nat)
    requires kind <= 12
    ensures KnownType(kind) ==> size in {1, 2, 4, 8}
  {
    TYPE_SIZES[kind]
  }

  /** What an entry says: a tag, a type and the bytes of its values. */
  datatype Field = Field(tag: nat, kind: nat, values: seq<seq<byte>>) {
    predicate Valid()
    {
      && tag < 0x10000 && KnownType(kind)
      && forall i :: 0 <= i < |values| ==> |values[i]| == SizeOf(kind)
    }

    function Size(): nat
      requires KnownType(kind)
    {
      Times(|values|, SizeOf(kind))
    }

    /** The bytes that the entry needs outside of the table. */
    function Outside(): nat
      requires KnownType(kind)
    {
      if Size() > 4 then Size() else 0
    }

    /** How often serialize repeats each value of a small entry. */
    function Iterations(): nat
      requires KnownType(kind)
    {
      if values == [] then 0 else 4 / |values| / SizeOf(kind)
    }

    /** The bytes of the entry in the table. */
    function Bytes(order: ByteOrder, offset: nat): (b: seq<byte>)
      requires KnownType(kind)
    {
      Encode(order, 2, tag) + Encode(order, 2, kind) + Encode(order, 4, |values|)
      + if Size() > 4 then Encode(order, 4, offset) else Repeated(values, Iterations())
    }

    /** The entry takes its twelve bytes. */
    predicate FillsItsSlot()
      requires KnownType(kind)
    {
      Size() >= 4 || |values| == 1 || (|values| == 2 && SizeOf(kind) == 1)
    }

    /** The entry can be read back: its values lie outside, fill the slot, or are all the same. */
    predicate Readable()
      requires KnownType(kind)
    {
      Size() >= 4 || |values| == 1 || (|values| == 2 && SizeOf(kind) == 1 && values[0] == values[1])
    }
  }

  function Repeat(v: seq<byte>, n: nat): seq<byte>
  {
    if n == 0 then [] else Repeat(v, n - 1) + v
  }

  function Repeated(values: seq<seq<byte>>, n: nat): (b: seq<byte>)
  {
    if values == [] then [] else Repeated(values[..|values| - 1], n) + Repeat(values[|values| - 1], n)
  }

  /** The values that parseValues finds in a run of bytes. */
  function Cut(b: seq<byte>, count: nat, size: nat): (values: seq<seq<byte>>)
    requires Times(count, size) <= |b|
    ensures |values| == count
  {
    if count == 0 then [] else Cut(b, count - 1, size) + [b[Times(count - 1, size)..Times(count, size)]]
  }

  predicate AllOf(values: seq<seq<byte>>, size: nat)
  {
    forall i :: 0 <= i < |values| ==> |values[i]| == size
  }

  lemma {:induction false} ConcatLength(values: seq<seq<byte>>, size: nat)
    requires AllOf(values, size)
    ensures |Flatten(values)| == Times(|values|, size)
  {
    if values != [] {
      ConcatLength(values[..|values| - 1], size);
    }
  }

  lemma {:induction false} RepeatLength(v: seq<byte>, n: nat)
    ensures |Repeat(v, n)| == Times(n, |v|)
  {
    if n != 0 {
      RepeatLength(v, n - 1);
    }
  }

  lemma {:induction false} RepeatedLength(values: seq<seq<byte>>, n: nat, size: nat)
    requires AllOf(values, size)
    ensures |Repeated(values, n)| == Times(|values|, Times(n, size))
  {
    if values != [] {
      RepeatedLength(values[..|values| - 1], n, size);
      RepeatLength(values[|values| - 1], n);
    }
  }

  /** What follows the values does not matter. */
  lemma {:induction false} CutPrefix(b: seq<byte>, rest: seq<byte>, count: nat, size: nat)
    requires Times(count, size) <= |b|
    ensures Cut(b + rest, count, size) == Cut(b, count, size)
  {
    if count != 0 {
      CutPrefix(b, rest, count - 1, size);
      SliceLeft(b, rest, Times(count - 1, size), Times(count, size));
    }
  }

  /** Parsing inverts writing the values one behind the other. */
  lemma {:induction false} CutOfConcat(values: seq<seq<byte>>, size: nat)
    requires AllOf(values, size)
    ensures |Flatten(values)| == Times(|values|, size)
    ensures Cut(Flatten(values), |values|, size) == values
  {
    ConcatLength(values, size);
    if values != [] {
      var before, last := values[..|values| - 1], values[|values| - 1];
      CutOfConcat(before, size);
      CutPrefix(Flatten(before), last, |before|, size);
      SliceRight(Flatten(before), last, 0, size);
      assert last[0..size] == last;
      assert values == before + [last];
    }
  }

  /** Every value once is the values one behind the other. */
  lemma {:induction false} RepeatedOnce(values: seq<seq<byte>>)
    ensures Repeated(values, 1) == Flatten(values)
  {
    if values != [] {
      RepeatedOnce(values[..|values| - 1]);
      var v := values[|values| - 1];
      assert Repeat(v, 0) == [];
      assert Repeat(v, 1) == v;
    }
  }

  // ----- Entries that keep their values in the table -----

  lemma {:induction false} SmallCounts(n: nat, size: nat)
    requires size in {1, 2, 4, 8}
    ensures Times(n, size) == n * size
  {
    if n != 0 {
      SmallCounts(n - 1, size);
    }
  }

  /** A small entry never takes more than its slot, and less exactly when it has no values,
      or three values of one byte. */
  lemma SlotLength(f: Field)
    requires f.Valid() && f.Size() <= 4
    ensures |Repeated(f.values, f.Iterations())| <= 4
    ensures |Repeated(f.values, f.Iterations())| == 4 <==> f.FillsItsSlot()
  {
    var n, size := |f.values|, SizeOf(f.kind);
    RepeatedLength(f.values, f.Iterations(), size);
    SmallCounts(n, size);
    SmallCounts(f.Iterations(), size);
    if n != 0 {
      assert n == 1 || n == 2 || n == 3 || n == 4;
      var each := Times(f.Iterations(), size);
      TimesIs(n, each);
    }
  }

  lemma RepeatTwice(v: seq<byte>)
    ensures Repeat(v, 2) == v + v
  {
    assert Repeat(v, 1) == Repeat(v, 0) + v == v;
  }

  /** Two values of one byte are written as aabb and read as aa. */
  lemma TwoBytesReread(values: seq<seq<byte>>)
    requires |values| == 2 && AllOf(values, 1)
    ensures |Repeated(values, 2)| == 4 && Cut(Repeated(values, 2), 2, 1) == [values[0], values[0]]
  {
    var a, b := values[0], values[1];
    RepeatTwice(a);
    RepeatTwice(b);
    assert values[..1] == [a] && values[..1][..0] == values[..0];
    assert Repeated([a], 2) == a + a;
    var r := Repeated(values, 2);
    assert r == a + a + (b + b);
    assert Times(1, 1) == 1 && Times(2, 1) == 2;
    assert Cut(r, 1, 1) == Cut(r, 0, 1) + [r[0..1]];
    assert r[0..1] == a && r[1..2] == a;
  }

  /** One value is read from the first of its copies. */
  lemma {:induction false} OneValueReread(v: seq<byte>, n: nat)
    requires 0 < n
    ensures |v| <= |Repeat(v, n)| && Repeat(v, n)[..|v|] == v
  {
    if n == 1 {
      assert Repeat(v, 1) == Repeat(v, 0) + v == v;
    } else {
      OneValueReread(v, n - 1);
      SliceLeft(Repeat(v, n - 1), v, 0, |v|);
    }
  }

  lemma IterationsAre(f: Field)
    requires f.Valid() && f.Size() <= 4 && f.FillsItsSlot()
    ensures |f.values| == 1 ==> 0 < f.Iterations()
    ensures f.Size() == 4 ==> f.Iterations() == 1
    ensures f.Size() != 4 && |f.values| != 1 ==> |f.values| == 2 && SizeOf(f.kind) == 1 && f.Iterations() == 2
  {
    var n, size := |f.values|, SizeOf(f.kind);
    SmallCounts(n, size);
    assert n == 1 || n == 2 || n == 4;
  }

  /** What is read from the slot of a small entry is what was written exactly when the entry is readable. */
  lemma SlotReread(f: Field)
    requires f.Valid() && f.Size() <= 4 && f.FillsItsSlot()
    ensures f.Size() <= |Repeated(f.values, f.Iterations())|
    ensures Cut(Repeated(f.values, f.Iterations()), |f.values|, SizeOf(f.kind)) == f.values <==> f.Readable()
  {
    hide Cut, Repeated, Times, Field.Iterations, Flatten;
    SlotLength(f);
    IterationsAre(f);
    if |f.values| == 1 {
      OneValueSlot(f.values, f.Iterations(), SizeOf(f.kind));
    } else if f.Size() == 4 {
      RepeatedOnce(f.values);
      CutOfConcat(f.values, SizeOf(f.kind));
    } else {
      TwoBytesReread(f.values);
      assert f.values == [f.values[0], f.values[1]];
    }
  }

  lemma OneValueSlot(values: seq<seq<byte>>, n: nat, size: nat)
    requires |values| == 1 && AllOf(values, size) && 0 < n
    ensures size <= |Repeated(values, n)| && Times(1, size) == size
    ensures Cut(Repeated(values, n), 1, size) == values
  {
    var v := values[0];
    OneValueReread(v, n);
    assert Repeated(values, n) == Repeat(v, n);
    var r := Repeat(v, n);
    assert Times(1, size) == size;
    assert Cut(r, 0, size) == [];
    assert r[0..size] == r[..|v|];
    assert values == [v];
  }

  // ----- Reading -----

  /** The entry with this tag, type, count and offset, whose last four bytes in the table are slot.
      It cannot be read when its type is unknown, nor when its values lie behind the end of the file. */
  function ParseRest(d: seq<byte>, tag: nat, kind: nat, count: nat, offset: nat, slot: seq<byte>): Option<Field>
    requires |slot| == 4
  {
    if kind > 12 || (kind == 0 && count > 0) then None
    else
      var size := Times(count, SizeOf(kind));
      if size <= 4 then Some(Field(tag, kind, Cut(slot, count, SizeOf(kind))))
      else if |d| < offset + size then None
      else Some(Field(tag, kind, Cut(d[offset..offset + size], count, SizeOf(kind))))
  }

  /** The entry at position p. */
  function ParseEntry(order: ByteOrder, d: seq<byte>, p: nat): Option<Field>
  {
    if |d| < p + 12 then None
    else
      ParseRest(d, Decode(order, d[p..p + 2]), Decode(order, d[p + 2..p + 4]), Decode(order, d[p + 4..p + 8]),
                Decode(order, d[p + 8..p + 12]), d[p + 8..p + 12])
  }

  /** The first n entries of the table at position p. */
  function ParseEntries(order: ByteOrder, d: seq<byte>, p: nat, n: nat): (fields: Option<seq<Field>>)
    ensures fields.Some? ==> |fields.value| == n
  {
    if n == 0 then Some([])
    else
      var before, last := ParseEntries(order, d, p, n - 1), ParseEntry(order, d, p + 12 * (n - 1));
      if before.Some? && last.Some? then Some(before.value + [last.value]) else None
  }

  /** The entries of a directory, and where it ends: there the reader looks for the next one. */
  datatype Directory = Directory(fields: seq<Field>, end: nat)

  function Parse(order: ByteOrder, d: seq<byte>, p: nat): Option<Directory>
  {
    if |d| < p + 2 then None
    else
      var n := Decode(order, d[p..p + 2]);
      var fields := ParseEntries(order, d, p + 2, n);
      if fields.None? then None else Some(Directory(fields.value, p + 2 + 12 * n))
  }

  // ----- What entries mean, byte by byte -----

  lemma {:induction false} CutAt(b: seq<byte>, count: nat, size: nat, i: nat)
    requires Times(count, size) <= |b| && i < count
    ensures i * size + size <= |b| && Cut(b, count, size)[i] == b[i * size..i * size + size]
  {
    TimesIs(i, size);
    TimesIs(i + 1, size);
    TimesMono(i + 1, count, size);
    assert (i + 1) * size == i * size + size;
    if i < count - 1 {
      CutAt(b, count - 1, size, i);
    }
  }

  lemma Widths(kind: nat)
    requires 1 <= kind <= 12
    ensures SizeOf(kind) == if kind in {1, 2, 6, 7} then 1 else if kind in {3, 8} then 2
                            else if kind in {4, 9, 11} then 4 else 8
  {
  }

  /** An entry can be read when its type is one of the twelve, or 0 without values, and its values lie in the
      file. */
  lemma EntryReadable(order: ByteOrder, d: seq<byte>, p: nat)
    requires p + 12 <= |d|
    ensures var kind, count := Decode(order, d[p + 2..p + 4]), Decode(order, d[p + 4..p + 8]);
            var width := if kind in {1, 2, 6, 7} then 1 else if kind in {3, 8} then 2
                         else if kind in {4, 9, 11} then 4 else 8;
            ParseEntry(order, d, p).Some? <==>
              || (kind == 0 && count == 0)
              || (1 <= kind <= 12
                  && (count * width <= 4 || Decode(order, d[p + 8..p + 12]) + count * width <= |d|))
  {
    hide Decode;
    var kind, count := Decode(order, d[p + 2..p + 4]), Decode(order, d[p + 4..p + 8]);
    if 1 <= kind <= 12 {
      Widths(kind);
      TimesIs(count, SizeOf(kind));
    }
  }

  /** Every value of an entry that was read is as wide as its type says, and comes from the slot if all of them
      together take at most four bytes, and from the offset otherwise. */
  lemma ValueRead(order: ByteOrder, d: seq<byte>, p: nat, i: nat, width: nat, from: nat)
    requires p + 12 <= |d| && ParseEntry(order, d, p).Some?
    requires var f := ParseEntry(order, d, p).value;
             && i < |f.values|
             && width == (if f.kind in {1, 2, 6, 7} then 1 else if f.kind in {3, 8} then 2
                          else if f.kind in {4, 9, 11} then 4 else 8)
             && from == (if |f.values| * width <= 4 then p + 8 else Decode(order, d[p + 8..p + 12])) + i * width
    ensures var f := ParseEntry(order, d, p).value;
            && 1 <= f.kind <= 12 && |f.values| == Decode(order, d[p + 4..p + 8])
            && f.tag == Decode(order, d[p..p + 2]) && f.kind == Decode(order, d[p + 2..p + 4])
            && from + width <= |d| && f.values[i] == d[from..from + width]
  {
    hide Decode, ParseRest;
    var kind, count := Decode(order, d[p + 2..p + 4]), Decode(order, d[p + 4..p + 8]);
    var slot := d[p + 8..p + 12];
    RestRead(d, Decode(order, d[p..p + 2]), kind, count, Decode(order, slot), slot, i);
    if count * SizeOf(kind) <= 4 {
      SliceOfSlice(d, p + 8, p + 12, i * SizeOf(kind), i * SizeOf(kind) + SizeOf(kind));
    }
    Widths(kind);
  }

  lemma RestRead(d: seq<byte>, tag: nat, kind: nat, count: nat, offset: nat, slot: seq<byte>, i: nat)
    requires |slot| == 4 && ParseRest(d, tag, kind, count, offset, slot).Some?
    requires i < |ParseRest(d, tag, kind, count, offset, slot).value.values|
    ensures var f := ParseRest(d, tag, kind, count, offset, slot).value;
            && 1 <= kind <= 12 && f.tag == tag && f.kind == kind && |f.values| == count
            && var width := SizeOf(kind);
               if count * width <= 4 then i * width + width <= 4 && f.values[i] == slot[i * width..i * width + width]
               else offset + i * width + width <= |d|
                    && f.values[i] == d[offset + i * width..offset + i * width + width]
  {
    hide Cut;
    var width := SizeOf(kind);
    TimesIs(count, width);
    if count * width <= 4 {
      CutAt(slot, count, width, i);
    } else {
      CutAt(d[offset..offset + count * width], count, width, i);
      SliceOfSlice(d, offset, offset + count * width, i * width, i * width + width);
    }
  }

  lemma EntryParts(d: seq<byte>, tag: seq<byte>, kind: seq<byte>, count: seq<byte>, slot: seq<byte>, rest: seq<byte>)
    requires |tag| == 2 && |kind| == 2 && |count| == 4 && |slot| == 4 && d == tag + kind + count + slot + rest
    ensures d[0..2] == tag && d[2..4] == kind && d[4..8] == count && d[8..12] == slot && d[12..] == rest
  {
  }

  /** BitsPerSample, two SHORTs of 8, little endian: both are in the slot. */
  lemma TwoShorts(rest: seq<byte>)
    ensures ParseEntry(LittleEndian, [2, 1] + [3, 0] + [2, 0, 0, 0] + [8, 0, 8, 0] + rest, 0)
         == Some(Field(258, 3, [[8, 0], [8, 0]]))
  {
    hide Decode, Cut, Times;
    var slot: seq<byte> := [8, 0, 8, 0];
    EntryParts([2, 1] + [3, 0] + [2, 0, 0, 0] + slot + rest, [2, 1], [3, 0], [2, 0, 0, 0], slot, rest);
    DecodeTwo(LittleEndian, 2, 1);
    DecodeTwo(LittleEndian, 3, 0);
    DecodeFour(LittleEndian, 2, 0, 0, 0);
    TimesIs(2, 2);
    CutAt(slot, 2, 2, 0);
    CutAt(slot, 2, 2, 1);
    assert slot[0..2] == [8, 0] && slot[2..4] == [8, 0];
    assert Cut(slot, 2, 2) == [[8, 0], [8, 0]];
  }

  /** ImageWidth, the LONG 600, big endian. */
  lemma OneLong(rest: seq<byte>)
    ensures ParseEntry(BigEndian, [1, 0] + [0, 4] + [0, 0, 0, 1] + [0, 0, 2, 0x58] + rest, 0)
         == Some(Field(256, 4, [[0, 0, 2, 0x58]]))
    ensures Decode(BigEndian, [0, 0, 2, 0x58]) == 600
  {
    hide Decode, Cut, Times;
    var slot: seq<byte> := [0, 0, 2, 0x58];
    EntryParts([1, 0] + [0, 4] + [0, 0, 0, 1] + slot + rest, [1, 0], [0, 4], [0, 0, 0, 1], slot, rest);
    DecodeTwo(BigEndian, 1, 0);
    DecodeTwo(BigEndian, 0, 4);
    DecodeFour(BigEndian, 0, 0, 0, 1);
    DecodeFour(BigEndian, 0, 0, 2, 0x58);
    TimesIs(1, 4);
    CutAt(slot, 1, 4, 0);
    assert slot[0..4] == slot;
    assert Cut(slot, 1, 4) == [slot];
  }

  /** XResolution, the RATIONAL 72/1, little endian: it is where the offset says. */
  lemma OneRational(rest: seq<byte>)
    ensures ParseEntry(LittleEndian,
                       [0x1A, 1] + [5, 0] + [1, 0, 0, 0] + [12, 0, 0, 0] + ([72, 0, 0, 0, 1, 0, 0, 0] + rest), 0)
         == Some(Field(282, 5, [[72, 0, 0, 0, 1, 0, 0, 0]]))
  {
    hide Decode, Cut, Times;
    var ratio: seq<byte> := [72, 0, 0, 0, 1, 0, 0, 0];
    var d := [0x1A, 1] + [5, 0] + [1, 0, 0, 0] + [12, 0, 0, 0] + (ratio + rest);
    EntryParts(d, [0x1A, 1], [5, 0], [1, 0, 0, 0], [12, 0, 0, 0], ratio + rest);
    DecodeTwo(LittleEndian, 0x1A, 1);
    DecodeTwo(LittleEndian, 5, 0);
    DecodeFour(LittleEndian, 1, 0, 0, 0);
    DecodeFour(LittleEndian, 12, 0, 0, 0);
    TimesIs(1, 8);
    assert d[12..20] == ratio;
    CutAt(ratio, 1, 8, 0);
    assert ratio[0..8] == ratio;
    assert Cut(ratio, 1, 8) == [ratio];
  }
}
