/** The header of an SIO file: its bytes, and how a reader of either byte order takes it apart. */
module SioFormat {
  import opened Sequences
  import opened Storage
  import opened ByteOrders
  import opened Options

  /** A signed number of 32 bits, and its value as an unsigned one. */
  type int32 = n: int | -0x8000_0000 <= n < 0x8000_0000

  function Unsigned(n: int32): (u: nat)
    ensures u < 0x1_0000_0000
  {
    if n < 0 then n + 0x1_0000_0000 else n
  }

  function Signed(u: nat): (n: int32)
    requires u < 0x1_0000_0000
    ensures Unsigned(n) == u
  {
    if u < 0x8000_0000 then u else u - 0x1_0000_0000
  }

  /** What is left of a number in 32 bits. */
  function Wrapped(n: int): (w: int32)
    ensures -0x8000_0000 <= n < 0x8000_0000 ==> w == n
  {
    Signed(n % 0x1_0000_0000)
  }

  const UNSIGNED: int32 := 1
  const SIGNED: int32 := 2
  const N_BYTE_UNSIGNED: int32 := 21
  const N_BYTE_SIGNED: int32 := 22

  predicate LegalType(et: int32)
  {
    et in {1, 2, 3, 11, 12, 13, 21, 22}
  }

  /** One field of user data. */
  datatype Field = Field(key: seq<byte>, data: seq<byte>)

  predicate NulFree(key: seq<byte>)
  {
    0 !in key
  }

  // ----- The dictionary of user data: ordered, one field for each key -----

  predicate Distinct(fields: seq<Field>)
  {
    forall i, j :: 0 <= i < j < |fields| ==> fields[i].key != fields[j].key
  }

  function Without(fields: seq<Field>, key: seq<byte>): seq<Field>
  {
    if fields == [] then []
    else
      var last := fields[|fields| - 1];
      var before := Without(fields[..|fields| - 1], key);
      if last.key == key then before else before + [last]
  }

  /** A new field comes last; an old one of the same key is removed. */
  function Add(fields: seq<Field>, f: Field): seq<Field>
  {
    Without(fields, f.key) + [f]
  }

  predicate KeyIn(fields: seq<Field>, key: seq<byte>)
  {
    exists i :: 0 <= i < |fields| && fields[i].key == key
  }

  /** No field of the key is left, the others stay, in their order. */
  lemma {:induction false} WithoutKey(fields: seq<Field>, key: seq<byte>)
    ensures !KeyIn(Without(fields, key), key)
    ensures forall k :: KeyIn(Without(fields, key), k) ==> KeyIn(fields, k)
    ensures !KeyIn(fields, key) ==> Without(fields, key) == fields
    ensures Distinct(fields) ==> Distinct(Without(fields, key))
  {
    if fields != [] {
      var before, last := fields[..|fields| - 1], fields[|fields| - 1];
      WithoutKey(before, key);
      var kept := Without(before, key);
      assert fields == before + [last];
      forall k | KeyIn(before, k)
        ensures KeyIn(fields, k)
      {
        var i :| 0 <= i < |before| && before[i].key == k;
        assert fields[i].key == k;
      }
      assert fields[|before|].key == last.key;
      if Distinct(fields) {
        assert !KeyIn(kept, last.key) by {
          assert !KeyIn(before, last.key);
        }
      }
    }
  }

  lemma AddDistinct(fields: seq<Field>, f: Field)
    requires Distinct(fields)
    ensures Distinct(Add(fields, f))
  {
    WithoutKey(fields, f.key);
  }

  /** The string that begins a run of bytes. */
  function UpToNul(b: seq<byte>): seq<byte>
  {
    if b == [] || b[0] == 0 then [] else [b[0]] + UpToNul(b[1..])
  }

  lemma {:induction false} UpToNulIs(b: seq<byte>)
    ensures NulFree(UpToNul(b)) && (NulFree(b) ==> UpToNul(b) == b)
  {
    if b != [] && b[0] != 0 {
      UpToNulIs(b[1..]);
      assert b == [b[0]] + b[1..];
    }
  }

  /** All fields added one after the other, each with its key up to the first NUL. */
  function AddAll(fields: seq<Field>): seq<Field>
  {
    if fields == [] then []
    else
      var f := fields[|fields| - 1];
      Add(AddAll(fields[..|fields| - 1]), Field(UpToNul(f.key), f.data))
  }

  predicate AllNulFree(fields: seq<Field>)
  {
    forall i :: 0 <= i < |fields| ==> NulFree(fields[i].key)
  }

  lemma {:induction false} AddAllIsNulFree(fields: seq<Field>)
    ensures AllNulFree(AddAll(fields))
  {
    if fields != [] {
      var before, f := AddAll(fields[..|fields| - 1]), fields[|fields| - 1];
      AddAllIsNulFree(fields[..|fields| - 1]);
      UpToNulIs(f.key);
      WithoutIsNulFree(before, UpToNul(f.key));
    }
  }

  lemma {:induction false} WithoutIsNulFree(fields: seq<Field>, key: seq<byte>)
    requires AllNulFree(fields)
    ensures AllNulFree(Without(fields, key))
  {
    if fields != [] {
      WithoutIsNulFree(fields[..|fields| - 1], key);
    }
  }

  lemma {:induction false} AddAllNulFree(fields: seq<Field>)
    requires Distinct(fields) && AllNulFree(fields)
    ensures AddAll(fields) == fields
  {
    if fields != [] {
      var before, last := fields[..|fields| - 1], fields[|fields| - 1];
      AddAllNulFree(before);
      UpToNulIs(last.key);
      WithoutKey(before, last.key);
      assert fields == before + [last];
    }
  }

  /** Distinct keys come back as they were exactly when none of them has a NUL in it. */
  lemma AddAllExactly(fields: seq<Field>)
    requires Distinct(fields)
    ensures AddAll(fields) == fields <==> AllNulFree(fields)
  {
    AddAllIsNulFree(fields);
    if AllNulFree(fields) {
      AddAllNulFree(fields);
    }
  }

  // ----- Bytes -----

  /** The magic number: it tells the version, and the byte order of the writer. */
  function Magic(version: nat): (m: nat)
    requires version <= 255
  {
    (255 - version) + 127 * 0x100 + version * 0x10000 + 255 * 0x1000000
  }

  function IntBytes(order: ByteOrder, n: int32): (b: seq<byte>)
    ensures |b| == 4
  {
    Encode(order, 4, Unsigned(n))
  }

  predicate Small(f: Field)
  {
    |f.key| + 1 < 0x8000_0000 && |f.data| < 0x8000_0000
  }

  predicate AllSmall(fields: seq<Field>)
  {
    |fields| < 0x8000_0000 && forall i :: 0 <= i < |fields| ==> Small(fields[i])
  }

  function FieldLength(f: Field): nat
  {
    4 + |f.key| + 1 + 4 + |f.data|
  }

  function FieldBytes(order: ByteOrder, f: Field): (b: seq<byte>)
    requires Small(f)
    ensures |b| == FieldLength(f)
  {
    IntBytes(order, |f.key| + 1) + (f.key + [0]) + IntBytes(order, |f.data|) + f.data
  }

  function FieldsBytes(order: ByteOrder, fields: seq<Field>, n: nat): (b: seq<byte>)
    requires AllSmall(fields) && n <= |fields|
    ensures |b| == FieldsLength(fields, n)
  {
    if n == 0 then [] else FieldsBytes(order, fields, n - 1) + FieldBytes(order, fields[n - 1])
  }

  lemma FieldsBytesNext(order: ByteOrder, fields: seq<Field>, i: nat)
    requires AllSmall(fields)
    ensures FieldsBytes(order, fields, 0) == []
    ensures i < |fields| ==>
      FieldsBytes(order, fields, i + 1) == FieldsBytes(order, fields, i) + FieldBytes(order, fields[i])
  {
  }

  function FieldsLength(fields: seq<Field>, n: nat): nat
    requires n <= |fields|
  {
    if n == 0 then 0 else FieldsLength(fields, n - 1) + FieldLength(fields[n - 1])
  }

  /** The four numbers of a header. */
  datatype Numbers = Numbers(nl: int32, ne: int32, et: int32, es: int32)

  function VersionOf(fields: seq<Field>): nat
  {
    if |fields| > 0 then 2 else 1
  }

  function NumbersBytes(order: ByteOrder, numbers: Numbers): (b: seq<byte>)
    ensures |b| == 16
  {
    IntBytes(order, numbers.nl) + IntBytes(order, numbers.ne) + IntBytes(order, numbers.et)
      + IntBytes(order, numbers.es)
  }

  function HeaderLength(fields: seq<Field>): nat
  {
    20 + if |fields| > 0 then 4 + FieldsLength(fields, |fields|) else 0
  }

  lemma {:induction false} FieldsLengthOf(a: seq<Field>, b: seq<Field>, n: nat)
    requires n <= |a| && n <= |b| && a[..n] == b[..n]
    ensures FieldsLength(a, n) == FieldsLength(b, n)
  {
    if n != 0 {
      assert a[n - 1] == a[..n][n - 1] == b[..n][n - 1] == b[n - 1];
      assert a[..n - 1] == a[..n][..n - 1] == b[..n][..n - 1] == b[..n - 1];
      FieldsLengthOf(a, b, n - 1);
    }
  }

  lemma FieldsLengthNext(fields: seq<Field>, f: Field)
    ensures FieldsLength(fields + [f], |fields| + 1) == FieldsLength(fields, |fields|) + FieldLength(f)
  {
    assert (fields + [f])[..|fields|] == fields == fields[..|fields|];
    FieldsLengthOf(fields + [f], fields, |fields|);
  }

  lemma {:induction false} WithoutShorter(fields: seq<Field>, key: seq<byte>)
    ensures FieldsLength(Without(fields, key), |Without(fields, key)|) <= FieldsLength(fields, |fields|)
  {
    hide FieldsLength, FieldLength;
    if fields != [] {
      var before, last := fields[..|fields| - 1], fields[|fields| - 1];
      WithoutShorter(before, key);
      assert fields == before + [last];
      FieldsLengthNext(before, last);
      FieldsLengthNext(Without(before, key), last);
    }
  }

  lemma {:induction false} UpToNulShorter(b: seq<byte>)
    ensures |UpToNul(b)| <= |b| && (|UpToNul(b)| == |b| <==> NulFree(b))
  {
    if b != [] && b[0] != 0 {
      UpToNulShorter(b[1..]);
      assert b == [b[0]] + b[1..];
    }
  }

  lemma {:induction false} AddAllShorter(fields: seq<Field>)
    ensures FieldsLength(AddAll(fields), |AddAll(fields)|) <= FieldsLength(fields, |fields|)
    ensures !AllNulFree(fields) ==> FieldsLength(AddAll(fields), |AddAll(fields)|) < FieldsLength(fields, |fields|)
  {
    hide FieldsLength, Without, UpToNul;
    if fields != [] {
      var before, f := fields[..|fields| - 1], fields[|fields| - 1];
      var g := Field(UpToNul(f.key), f.data);
      assert fields == before + [f];
      AddAllShorter(before);
      UpToNulShorter(f.key);
      WithoutShorter(AddAll(before), g.key);
      FieldsLengthNext(before, f);
      FieldsLengthNext(Without(AddAll(before), g.key), g);
    }
  }

  /** Fields of distinct keys take as many bytes again when they have come back exactly when no key has a NUL in it. */
  lemma LengthExactly(fields: seq<Field>)
    requires Distinct(fields)
    ensures HeaderLength(AddAll(fields)) == HeaderLength(fields) <==> AllNulFree(fields)
  {
    AddAllShorter(fields);
    AddAllExactly(fields);
    hide FieldsLength;
  }

  /** The key "A\0B" comes back as "A", and the header two bytes shorter. */
  lemma KeyIsCut()
    ensures AddAll([Field([65, 0, 66], [])]) == [Field([65], [])]
    ensures HeaderLength([Field([65, 0, 66], [])]) == 36 && HeaderLength([Field([65], [])]) == 34
  {
    var fields := [Field([65, 0, 66], [])];
    assert UpToNul([65, 0, 66]) == [65] + UpToNul([0, 66]) == [65];
    assert AddAll(fields[..0]) == [];
    assert FieldsLength(fields, 0) == 0;
    assert FieldsLength([Field([65], [])], 0) == 0;
  }

  function HeaderBytes(order: ByteOrder, numbers: Numbers, fields: seq<Field>): (b: seq<byte>)
    requires AllSmall(fields)
    ensures |b| == HeaderLength(fields)
  {
    Encode(order, 4, Magic(VersionOf(fields))) + NumbersBytes(order, numbers)
    + if |fields| > 0 then IntBytes(order, |fields|) + FieldsBytes(order, fields, |fields|) else []
  }

  // ----- Reading -----

  /** What the magic bytes tell: whether the byte order is not the reader's own, and the version. */
  datatype Origin = Origin(different: bool, version: nat)

  function CheckedMagic(native: ByteOrder, b: seq<byte>): Option<Origin>
    requires |b| == 4
  {
    if b[0] == 0xFF && b[2] == 0x7F && b[1] as int + b[3] as int == 0xFF then Some(Origin(native != BigEndian, b[1]))
    else if b[3] == 0xFF && b[1] == 0x7F && b[0] as int + b[2] as int == 0xFF then
      Some(Origin(native == BigEndian, b[2]))
    else None
  }

  /** The next integer: its bytes are swapped when they are in the other order. */
  function IntAt(native: ByteOrder, different: bool, d: seq<byte>, p: nat): Option<int32>
  {
    if |d| < p + 4 then None
    else
      LimitFour();
      Some(Signed(Decode(native, if different then Swapped(d[p..p + 4]) else d[p..p + 4])))
  }

  lemma LimitFour()
    ensures Limit(4) == 0x1_0000_0000
  {
  }

  /** Something that was read, and the position behind it. */
  datatype Read<T> = Read(value: T, pos: nat)

  /** A length-prefixed run of bytes. */
  function RunAt(native: ByteOrder, different: bool, d: seq<byte>, p: nat): (r: Option<Read<seq<byte>>>)
  {
    match IntAt(native, different, d, p)
    case None => None
    case Some(size) =>
      if size < 0 || |d| < p + 4 + size then None else Some(Read(d[p + 4..p + 4 + size], p + 4 + size))
  }

  /** A field of user data. An identifier without its NUL cannot be read. */
  function FieldAt(native: ByteOrder, different: bool, d: seq<byte>, p: nat): Option<Read<Field>>
  {
    match RunAt(native, different, d, p)
    case None => None
    case Some(id) =>
      if 0 !in id.value then None
      else
        match RunAt(native, different, d, id.pos)
        case None => None
        case Some(data) => Some(Read(Field(UpToNul(id.value), data.value), data.pos))
  }

  function FieldsAt(native: ByteOrder, different: bool, d: seq<byte>, p: nat, n: nat): Option<Read<seq<Field>>>
  {
    if n == 0 then Some(Read([], p))
    else
      match FieldsAt(native, different, d, p, n - 1)
      case None => None
      case Some(before) =>
        match FieldAt(native, different, d, before.pos)
        case None => None
        case Some(f) => Some(Read(Add(before.value, f.value), f.pos))
  }

  /** The last identifier ends in a NUL. */
  predicate EndsInNul(native: ByteOrder, different: bool, d: seq<byte>, p: nat, n: nat)
  {
    n == 0
    || (FieldsAt(native, different, d, p, n - 1).Some?
        && var id := RunAt(native, different, d, FieldsAt(native, different, d, p, n - 1).value.pos);
           id.Some? && id.value.value != [] && id.value.value[|id.value.value| - 1] == 0)
  }

  lemma FieldsAtNone(native: ByteOrder, different: bool, d: seq<byte>, p: nat)
    ensures FieldsAt(native, different, d, p, 0) == Some(Read([], p))
  {
  }

  /** Reading goes on with the next field, or has failed for good. */
  lemma {:induction false} FieldsAtNext(native: ByteOrder, different: bool, d: seq<byte>, p: nat, i: nat, n: nat)
    requires i < n && FieldsAt(native, different, d, p, i).Some?
    ensures var before := FieldsAt(native, different, d, p, i).value;
            var f := FieldAt(native, different, d, before.pos);
            && (f.None? ==> FieldsAt(native, different, d, p, n).None?)
            && (f.Some? ==>
                FieldsAt(native, different, d, p, i + 1)
                == Some(Read(Add(before.value, f.value.value), f.value.pos)))
  {
    hide FieldAt, Add;
    if i + 1 < n {
      FieldsAtNext(native, different, d, p, i, n - 1);
    }
  }

  function NumbersAt(native: ByteOrder, different: bool, d: seq<byte>, p: nat): Option<Numbers>
  {
    var nl, ne := IntAt(native, different, d, p), IntAt(native, different, d, p + 4);
    var et, es := IntAt(native, different, d, p + 8), IntAt(native, different, d, p + 12);
    if es.None? then None else Some(Numbers(nl.value, ne.value, et.value, es.value))
  }

  function UserDataAt(native: ByteOrder, different: bool, d: seq<byte>, p: nat): Option<Read<seq<Field>>>
  {
    match IntAt(native, different, d, p)
    case None => None
    case Some(n) => FieldsAt(native, different, d, p + 4, if n < 0 then 0 else n)
  }

  /** Everything in a header. */
  datatype Header = Header(numbers: Numbers, version: nat, different: bool, fields: seq<Field>)

  function HeaderAt(native: ByteOrder, d: seq<byte>, p: nat): Option<Read<Header>>
  {
    if |d| < p + 4 then None
    else
      match CheckedMagic(native, d[p..p + 4])
      case None => None
      case Some(origin) =>
        match NumbersAt(native, origin.different, d, p + 4)
        case None => None
        case Some(numbers) =>
          if origin.version < 2 then Some(Read(Header(numbers, origin.version, origin.different, []), p + 20))
          else
            match UserDataAt(native, origin.different, d, p + 20)
            case None => None
            case Some(fields) => Some(Read(Header(numbers, origin.version, origin.different, fields.value), fields.pos))
  }

  lemma PrintedNumbers()
    ensures NumbersBytes(BigEndian, Numbers(2, 3, 1, -1))
         == [0, 0, 0, 2] + [0, 0, 0, 3] + [0, 0, 0, 1] + [255, 255, 255, 255]
  {
    hide Encode;
    FourBytes(BigEndian, 2);
    FourBytes(BigEndian, 3);
    FourBytes(BigEndian, 1);
    FourBytes(BigEndian, 0xFFFF_FFFF);
  }

  lemma PrintedField()
    ensures Small(Field([65], [7, 8])) && AllSmall([Field([65], [7, 8])])
    ensures FieldBytes(BigEndian, Field([65], [7, 8])) == [0, 0, 0, 2] + [65, 0] + [0, 0, 0, 2] + [7, 8]
  {
    hide Encode;
    FourBytes(BigEndian, 2);
    assert [65] + [0] == [65, 0];
  }

  /** The bytes of a header of version 2, big endian. */
  lemma PrintedHeader()
    ensures HeaderBytes(BigEndian, Numbers(2, 3, 1, -1), [Field([65], [7, 8])])
         == [0xFF, 2, 0x7F, 0xFD] + ([0, 0, 0, 2] + [0, 0, 0, 3] + [0, 0, 0, 1] + [255, 255, 255, 255])
            + ([0, 0, 0, 1] + ([0, 0, 0, 2] + [65, 0] + [0, 0, 0, 2] + [7, 8]))
  {
    hide *;
    PrintedNumbers();
    PrintedField();
    PrintedOne(Numbers(2, 3, 1, -1), Field([65], [7, 8]));
  }

  lemma PrintedOne(numbers: Numbers, f: Field)
    requires Small(f)
    ensures HeaderBytes(BigEndian, numbers, [f])
         == [0xFF, 2, 0x7F, 0xFD] + NumbersBytes(BigEndian, numbers) + ([0, 0, 0, 1] + FieldBytes(BigEndian, f))
  {
    FieldsBytesNext(BigEndian, [f], 0);
    hide Encode, NumbersBytes, FieldBytes, FieldsBytes;
    FourBytes(BigEndian, Magic(2));
    FourBytes(BigEndian, 1);
    assert [] + FieldBytes(BigEndian, f) == FieldBytes(BigEndian, f);
  }

  // ----- Reading what was written -----

  predicate Holds(d: seq<byte>, p: nat, b: seq<byte>)
  {
    p + |b| <= |d| && d[p..p + |b|] == b
  }

  lemma HoldsParts(d: seq<byte>, p: nat, a: seq<byte>, b: seq<byte>)
    requires Holds(d, p, a + b)
    ensures Holds(d, p, a) && Holds(d, p + |a|, b)
  {
    SliceOfSlice(d, p, p + |a + b|, 0, |a|);
    SliceOfSlice(d, p, p + |a + b|, |a|, |a + b|);
    SliceRight(a, b, 0, |b|);
    SliceLeft(a, b, 0, |a|);
  }

  lemma HoldsFour(d: seq<byte>, p: nat, a: seq<byte>, b: seq<byte>, c: seq<byte>, e: seq<byte>)
    requires Holds(d, p, a + b + c + e)
    ensures Holds(d, p, a) && Holds(d, p + |a|, b) && Holds(d, p + |a| + |b|, c) && Holds(d, p + |a| + |b| + |c|, e)
  {
    HoldsParts(d, p, a + b + c, e);
    HoldsParts(d, p, a + b, c);
    HoldsParts(d, p, a, b);
  }

  /** A reader of any byte order reads the integer that a writer of any byte order wrote. */
  lemma IntReread(writer: ByteOrder, native: ByteOrder, d: seq<byte>, p: nat, n: int32)
    requires Holds(d, p, IntBytes(writer, n))
    ensures IntAt(native, writer != native, d, p) == Some(n)
  {
    hide Encode, Decode, Limit, Swapped;
    LimitFour();
    EncodeSwapped(writer, 4, Unsigned(n));
    DecodeOfEncode(native, 4, Unsigned(n));
    assert writer != native ==> native == Other(writer);
  }

  /** The magic bytes of each byte order are recognised, and told apart. */
  lemma MagicReread(writer: ByteOrder, native: ByteOrder, version: nat)
    requires version == 1 || version == 2
    ensures CheckedMagic(native, Encode(writer, 4, Magic(version))) == Some(Origin(writer != native, version))
  {
    var m := Magic(version);
    assert m % 256 == 255 - version && m / 256 == 127 + version * 0x100 + 255 * 0x10000;
    assert m / 256 / 256 == version + 255 * 0x100 && m / 256 / 256 / 256 == 255;
    FourBytes(writer, m);
  }

  /** Nothing else is recognised. */
  lemma OnlyMagic(native: ByteOrder, b: seq<byte>)
    requires |b| == 4 && CheckedMagic(native, b).Some?
    ensures var origin := CheckedMagic(native, b).value;
            origin.version <= 255
            && b == Encode(if origin.different then Other(native) else native, 4, Magic(origin.version))
  {
    hide Encode;
    var version := CheckedMagic(native, b).value.version;
    var m := Magic(version);
    assert m % 256 == 255 - version && m / 256 == 127 + version * 0x100 + 255 * 0x10000;
    assert m / 256 / 256 == version + 255 * 0x100 && m / 256 / 256 / 256 == 255;
    FourBytes(LittleEndian, m);
    FourBytes(BigEndian, m);
  }

  lemma RunReread(writer: ByteOrder, native: ByteOrder, d: seq<byte>, p: nat, run: seq<byte>)
    requires |run| < 0x8000_0000 && Holds(d, p, IntBytes(writer, |run|)) && Holds(d, p + 4, run)
    ensures RunAt(native, writer != native, d, p) == Some(Read(run, p + 4 + |run|))
  {
    hide IntAt, IntBytes;
    IntReread(writer, native, d, p, |run|);
  }

  lemma {:induction false} UpToEnd(key: seq<byte>)
    ensures UpToNul(key + [0]) == UpToNul(key)
  {
    var b := key + [0];
    if key != [] && key[0] != 0 {
      assert b[1..] == key[1..] + [0];
      UpToEnd(key[1..]);
    }
  }

  lemma FieldReread(writer: ByteOrder, native: ByteOrder, d: seq<byte>, p: nat, f: Field)
    requires Small(f) && Holds(d, p, FieldBytes(writer, f))
    ensures FieldAt(native, writer != native, d, p) == Some(Read(Field(UpToNul(f.key), f.data), p + FieldLength(f)))
  {
    hide *;
    FieldHolds(writer, d, p, f);
    EndsWithNul(f.key);
    UpToEnd(f.key);
    var id := f.key + [0];
    RunReread(writer, native, d, p, id);
    RunReread(writer, native, d, p + 4 + |id|, f.data);
    FieldFromRuns(native, writer != native, d, p, f);
  }

  lemma FieldHolds(writer: ByteOrder, d: seq<byte>, p: nat, f: Field)
    requires Small(f) && Holds(d, p, FieldBytes(writer, f))
    ensures var id := f.key + [0];
            && |id| < 0x8000_0000 && |f.data| < 0x8000_0000
            && Holds(d, p, IntBytes(writer, |id|)) && Holds(d, p + 4, id)
            && Holds(d, p + 4 + |id|, IntBytes(writer, |f.data|)) && Holds(d, p + 4 + |id| + 4, f.data)
  {
    hide IntBytes, Holds;
    HoldsFour(d, p, IntBytes(writer, |f.key| + 1), f.key + [0], IntBytes(writer, |f.data|), f.data);
  }

  lemma EndsWithNul(key: seq<byte>)
    ensures 0 in key + [0]
  {
  }

  lemma FieldFromRuns(native: ByteOrder, different: bool, d: seq<byte>, p: nat, f: Field)
    requires RunAt(native, different, d, p) == Some(Read(f.key + [0], p + 4 + |f.key + [0]|))
    requires RunAt(native, different, d, p + 4 + |f.key + [0]|)
      == Some(Read(f.data, p + 4 + |f.key + [0]| + 4 + |f.data|))
    requires 0 in f.key + [0] && UpToNul(f.key + [0]) == UpToNul(f.key)
    ensures FieldAt(native, different, d, p) == Some(Read(Field(UpToNul(f.key), f.data), p + FieldLength(f)))
  {
  }

  lemma {:induction false} FieldsReread(writer: ByteOrder, native: ByteOrder, d: seq<byte>, p: nat, fields: seq<Field>,
                                        n: nat)
    requires AllSmall(fields) && n <= |fields| && Holds(d, p, FieldsBytes(writer, fields, n))
    ensures FieldsAt(native, writer != native, d, p, n) == Some(Read(AddAll(fields[..n]), p + FieldsLength(fields, n)))
  {
    hide *;
    if n == 0 {
      FieldsNone(native, writer != native, d, p, fields);
    } else {
      FieldsHold(writer, d, p, fields, n - 1);
      FieldsReread(writer, native, d, p, fields, n - 1);
      FieldReread(writer, native, d, p + FieldsLength(fields, n - 1), fields[n - 1]);
      AddAllNext(fields, n - 1);
      FieldsNext(native, writer != native, d, p, fields, n - 1);
    }
  }

  lemma FieldsNone(native: ByteOrder, different: bool, d: seq<byte>, p: nat, fields: seq<Field>)
    ensures FieldsAt(native, different, d, p, 0) == Some(Read(AddAll(fields[..0]), p + FieldsLength(fields, 0)))
  {
  }

  lemma FieldsHold(writer: ByteOrder, d: seq<byte>, p: nat, fields: seq<Field>, i: nat)
    requires AllSmall(fields) && i < |fields| && Holds(d, p, FieldsBytes(writer, fields, i + 1))
    ensures Small(fields[i]) && Holds(d, p, FieldsBytes(writer, fields, i))
    ensures Holds(d, p + FieldsLength(fields, i), FieldBytes(writer, fields[i]))
  {
    hide FieldBytes, Holds, FieldsLength;
    HoldsParts(d, p, FieldsBytes(writer, fields, i), FieldBytes(writer, fields[i]));
  }

  lemma FieldsNext(native: ByteOrder, different: bool, d: seq<byte>, p: nat, fields: seq<Field>, i: nat)
    requires i < |fields|
    requires FieldsAt(native, different, d, p, i) == Some(Read(AddAll(fields[..i]), p + FieldsLength(fields, i)))
    requires FieldAt(native, different, d, p + FieldsLength(fields, i))
          == Some(Read(Field(UpToNul(fields[i].key), fields[i].data),
                       p + FieldsLength(fields, i) + FieldLength(fields[i])))
    ensures FieldsAt(native, different, d, p, i + 1)
         == Some(Read(Add(AddAll(fields[..i]), Field(UpToNul(fields[i].key), fields[i].data)),
                      p + FieldsLength(fields, i + 1)))
  {
    hide FieldAt, AddAll, Add, UpToNul, FieldLength;
  }

  lemma AddAllNext(fields: seq<Field>, i: nat)
    requires i < |fields|
    ensures AddAll(fields[..i + 1]) == Add(AddAll(fields[..i]), Field(UpToNul(fields[i].key), fields[i].data))
  {
    assert fields[..i + 1][..i] == fields[..i];
  }

  lemma NumbersReread(writer: ByteOrder, native: ByteOrder, d: seq<byte>, p: nat, numbers: Numbers)
    requires Holds(d, p, NumbersBytes(writer, numbers))
    ensures NumbersAt(native, writer != native, d, p) == Some(numbers)
  {
    hide IntBytes, IntAt, Holds;
    var nl, ne := IntBytes(writer, numbers.nl), IntBytes(writer, numbers.ne);
    var et, es := IntBytes(writer, numbers.et), IntBytes(writer, numbers.es);
    HoldsFour(d, p, nl, ne, et, es);
    IntReread(writer, native, d, p, numbers.nl);
    IntReread(writer, native, d, p + 4, numbers.ne);
    IntReread(writer, native, d, p + 8, numbers.et);
    IntReread(writer, native, d, p + 12, numbers.es);
  }

  /** Whatever the byte orders of writer and reader, the reader gets the numbers, the version, whether the orders
      differ, and all user data, and stops right behind the header. Only the keys end at their first NUL. */
  lemma HeaderReread(writer: ByteOrder, native: ByteOrder, d: seq<byte>, p: nat, numbers: Numbers, fields: seq<Field>)
    requires AllSmall(fields) && Holds(d, p, HeaderBytes(writer, numbers, fields))
    ensures HeaderAt(native, d, p)
         == Some(Read(Header(numbers, VersionOf(fields), writer != native, AddAll(fields)), p + HeaderLength(fields)))
  {
    hide *;
    HeaderHolds(writer, d, p, numbers, fields);
    NoFields(fields);
    MagicReread(writer, native, VersionOf(fields));
    NumbersReread(writer, native, d, p + 4, numbers);
    if |fields| > 0 {
      UserDataReread(writer, native, d, p + 20, fields);
    }
    HeaderFromParts(native, writer != native, d, p, numbers, fields, AddAll(fields));
  }

  lemma NoFields(fields: seq<Field>)
    ensures fields == [] ==> AddAll(fields) == []
    ensures VersionOf(fields) == 1 || VersionOf(fields) == 2
  {
  }

  lemma HeaderHolds(writer: ByteOrder, d: seq<byte>, p: nat, numbers: Numbers, fields: seq<Field>)
    requires AllSmall(fields) && Holds(d, p, HeaderBytes(writer, numbers, fields))
    ensures p + 4 <= |d| && d[p..p + 4] == Encode(writer, 4, Magic(VersionOf(fields)))
    ensures Holds(d, p + 4, NumbersBytes(writer, numbers))
    ensures |fields| > 0 ==> Holds(d, p + 20, IntBytes(writer, |fields|) + FieldsBytes(writer, fields, |fields|))
  {
    hide IntBytes, NumbersBytes, FieldsBytes, Encode, Magic, Holds;
    var magic := Encode(writer, 4, Magic(VersionOf(fields)));
    var rest := if |fields| > 0 then IntBytes(writer, |fields|) + FieldsBytes(writer, fields, |fields|) else [];
    HoldsParts(d, p, magic + NumbersBytes(writer, numbers), rest);
    HoldsParts(d, p, magic, NumbersBytes(writer, numbers));
    HoldsIs(d, p, magic);
  }

  lemma HeaderFromParts(native: ByteOrder, different: bool, d: seq<byte>, p: nat, numbers: Numbers, fields: seq<Field>,
                        reread: seq<Field>)
    requires p + 4 <= |d| && CheckedMagic(native, d[p..p + 4]) == Some(Origin(different, VersionOf(fields)))
    requires NumbersAt(native, different, d, p + 4) == Some(numbers)
    requires |fields| > 0 ==>
      UserDataAt(native, different, d, p + 20) == Some(Read(reread, p + 20 + 4 + FieldsLength(fields, |fields|)))
    requires |fields| == 0 ==> reread == []
    ensures HeaderAt(native, d, p)
         == Some(Read(Header(numbers, VersionOf(fields), different, reread),
                      p + HeaderLength(fields)))
  {
    hide CheckedMagic, NumbersAt, UserDataAt, FieldsLength;
  }

  lemma HoldsIs(d: seq<byte>, p: nat, b: seq<byte>)
    requires Holds(d, p, b)
    ensures p + |b| <= |d| && d[p..p + |b|] == b
  {
  }

  lemma UserDataReread(writer: ByteOrder, native: ByteOrder, d: seq<byte>, p: nat, fields: seq<Field>)
    requires AllSmall(fields) && Holds(d, p, IntBytes(writer, |fields|) + FieldsBytes(writer, fields, |fields|))
    ensures UserDataAt(native, writer != native, d, p)
      == Some(Read(AddAll(fields), p + 4 + FieldsLength(fields, |fields|)))
  {
    hide IntBytes, IntAt, FieldsBytes, FieldsAt, Holds, AddAll, FieldsLength;
    HoldsParts(d, p, IntBytes(writer, |fields|), FieldsBytes(writer, fields, |fields|));
    IntReread(writer, native, d, p, |fields|);
    FieldsReread(writer, native, d, p + 4, fields, |fields|);
    assert fields[..|fields|] == fields;
  }

  /** The identifiers that were written all end in a NUL. */
  lemma FieldsEndInNul(writer: ByteOrder, native: ByteOrder, d: seq<byte>, p: nat, fields: seq<Field>)
    requires AllSmall(fields) && Holds(d, p, FieldsBytes(writer, fields, |fields|))
    ensures EndsInNul(native, writer != native, d, p, |fields|)
  {
    hide *;
    if |fields| > 0 {
      var i := |fields| - 1;
      FieldsHold(writer, d, p, fields, i);
      FieldHolds(writer, d, p + FieldsLength(fields, i), fields[i]);
      FieldsReread(writer, native, d, p, fields, i);
      RunReread(writer, native, d, p + FieldsLength(fields, i), fields[i].key + [0]);
      LastEndsInNul(native, writer != native, d, p, fields);
    } else {
      NoneEndsInNul(native, writer != native, d, p);
    }
  }

  lemma NoneEndsInNul(native: ByteOrder, different: bool, d: seq<byte>, p: nat)
    ensures EndsInNul(native, different, d, p, 0)
  {
  }

  lemma LastEndsInNul(native: ByteOrder, different: bool, d: seq<byte>, p: nat, fields: seq<Field>)
    requires fields != []
    requires var i := |fields| - 1;
             && FieldsAt(native, different, d, p, i) == Some(Read(AddAll(fields[..i]), p + FieldsLength(fields, i)))
             && RunAt(native, different, d, p + FieldsLength(fields, i))
                == Some(Read(fields[i].key + [0], p + FieldsLength(fields, i) + 4 + |fields[i].key + [0]|))
    ensures EndsInNul(native, different, d, p, |fields|)
  {
    hide FieldsAt, RunAt, AddAll, FieldsLength;
    var id := fields[|fields| - 1].key + [0];
    assert id[|id| - 1] == 0;
  }

  /** Whether the reader takes identifiers to end in a NUL. */
  predicate FlagAt(native: ByteOrder, d: seq<byte>, p: nat)
    requires HeaderAt(native, d, p).Some?
  {
    var h := HeaderAt(native, d, p).value.value;
    h.version < 2
    || var n := IntAt(native, h.different, d, p + 20);
       n.Some? && EndsInNul(native, h.different, d, p + 24, if n.value < 0 then 0 else n.value)
  }

  lemma FlagReread(writer: ByteOrder, native: ByteOrder, d: seq<byte>, p: nat, numbers: Numbers, fields: seq<Field>)
    requires AllSmall(fields) && Holds(d, p, HeaderBytes(writer, numbers, fields))
    ensures HeaderAt(native, d, p).Some? && FlagAt(native, d, p)
  {
    hide *;
    HeaderReread(writer, native, d, p, numbers, fields);
    HeaderHolds(writer, d, p, numbers, fields);
    if |fields| > 0 {
      CountIsSmall(fields);
      HoldsParts(d, p + 20, IntBytes(writer, |fields|), FieldsBytes(writer, fields, |fields|));
      IntReread(writer, native, d, p + 20, |fields|);
      FieldsEndInNul(writer, native, d, p + 24, fields);
    }
    FlagFromParts(native, writer != native, d, p, numbers, fields);
  }

  lemma CountIsSmall(fields: seq<Field>)
    requires AllSmall(fields)
    ensures |fields| < 0x8000_0000
  {
  }

  lemma FlagFromParts(native: ByteOrder, different: bool, d: seq<byte>, p: nat, numbers: Numbers, fields: seq<Field>)
    requires HeaderAt(native, d, p)
      == Some(Read(Header(numbers, VersionOf(fields), different, AddAll(fields)), p + HeaderLength(fields)))
    requires |fields| > 0 ==>
      IntAt(native, different, d, p + 20) == Some(|fields|) && EndsInNul(native, different, d, p + 24, |fields|)
    ensures FlagAt(native, d, p)
  {
  }
}
