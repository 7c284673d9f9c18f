/** Printing and parsing the header of an SIO file. */
module SioHeader {
  import opened Storage
  import opened ByteOrders
  import opened Options
  import opened SioFormat

  class OutputStream {
    var data: seq<byte>

    constructor (contents: seq<byte>)
      ensures data == contents
    {
      data := contents;
    }

    method Write(b: seq<byte>)
      modifies this
      ensures data == old(data) + b
    {
      data := data + b;
    }
  }

  class FileHeader {
    var nl: int32
    var ne: int32
    var es: int32
    var et: int32
    var version: nat
    var nullTerminatedIds: bool
    var differentByteOrdering: bool
    var userData: seq<Field>

    constructor (numLines: int32, numElements: int32, elementSize: int32, elementType: int32)
      ensures Valid() && userData == [] && nullTerminatedIds
      ensures nl == numLines && ne == numElements && es == elementSize && et == elementType && version == 1
    {
      nl, ne, es, et, version := numLines, numElements, elementSize, elementType, 1;
      nullTerminatedIds, differentByteOrdering, userData := true, false, [];
    }

    /** User data has one field for each key. */
    predicate Valid()
      reads `userData
    {
      Distinct(userData)
    }

    method AddUserData(field: Field)
      requires Valid()
      modifies `userData
      ensures Valid() && userData == Add(old(userData), field)
    {
      AddDistinct(userData, field);
      userData := Add(userData, field);
    }

    method GetLength() returns (length: nat)
      ensures nullTerminatedIds ==> length == HeaderLength(userData)
      ensures !nullTerminatedIds ==> length + |userData| == HeaderLength(userData)
    {
      length := 20;
      if |userData| > 0 {
        length := length + 4;
      }
      ghost var start := length;
      var i: nat := 0;
      while i < |userData|
        invariant i <= |userData|
        invariant length + (if nullTerminatedIds then 0 else i) == start + FieldsLength(userData, i)
      {
        length := length + 4 + |userData[i].key|;
        if nullTerminatedIds {
          length := length + 1;
        }
        length := length + 4 + |userData[i].data|;
        i := i + 1;
      }
    }

    /** The number of lines that the header has after it was printed for a number of bands. */
    function LinesFor(numBands: nat): int32
      reads this
    {
      if numBands > 2 && et != UNSIGNED && et != SIGNED then Wrapped(nl * numBands) else nl
    }

    /** The numbers that are printed for a number of bands: with more than two of them byte elements become
        longer ones, and for other elements the bands count as lines. */
    function NumbersFor(numBands: nat): Numbers
      reads this
    {
      if numBands > 2 && et == UNSIGNED then Numbers(nl, ne, N_BYTE_UNSIGNED, Wrapped(es * numBands))
      else if numBands > 2 && et == SIGNED then Numbers(nl, ne, N_BYTE_SIGNED, Wrapped(es * numBands))
      else Numbers(LinesFor(numBands), ne, et, es)
    }

    /** Prints the header; fails on an unknown element type, before anything is printed. */
    method To(order: ByteOrder, numBands0: nat, os: OutputStream) returns (ok: bool)
      requires AllSmall(userData)
      modifies os, `nl, `version
      ensures ok <==> LegalType(et)
      ensures nl == old(LinesFor(numBands0))
      ensures ok ==> os.data == old(os.data) + HeaderBytes(order, old(NumbersFor(numBands0)), userData)
      ensures ok ==> version == VersionOf(userData)
      ensures !ok ==> os.data == old(os.data) && version == old(version)
    {
      hide Encode, Magic, FieldsBytes, NumbersBytes, IntBytes;
      var numBands := if numBands0 == 0 then 1 else numBands0;
      var elementType, elementSize := et, es;
      if numBands > 2 {
        if elementType == UNSIGNED {
          elementType := N_BYTE_UNSIGNED;
          elementSize := Wrapped(elementSize * numBands);
        } else if elementType == SIGNED {
          elementType := N_BYTE_SIGNED;
          elementSize := Wrapped(elementSize * numBands);
        } else {
          nl := Wrapped(nl * numBands);
        }
      }
      if !LegalType(elementType) {
        return false;
      }
      version := VersionOf(userData);
      ghost var before, numbers := os.data, Numbers(nl, ne, elementType, elementSize);
      WriteNumbers(order, os, elementType, elementSize);
      if version > 1 {
        WriteUserData(order, os);
      }
      assert os.data == before + HeaderBytes(order, numbers, userData);
      ok := true;
    }

    method WriteNumbers(order: ByteOrder, os: OutputStream, elementType: int32, elementSize: int32)
      requires version <= 255
      modifies os
      ensures os.data == old(os.data)
        + (Encode(order, 4, Magic(version)) + NumbersBytes(order, Numbers(nl, ne, elementType, elementSize)))
    {
      hide Encode, Magic, IntBytes;
      var magic := Magic(version);
      os.Write(Encode(order, 4, magic));
      os.Write(IntBytes(order, nl));
      os.Write(IntBytes(order, ne));
      os.Write(IntBytes(order, elementType));
      os.Write(IntBytes(order, elementSize));
    }

    method WriteUserData(order: ByteOrder, os: OutputStream)
      requires AllSmall(userData)
      modifies os
      ensures os.data == old(os.data) + (IntBytes(order, |userData|) + FieldsBytes(order, userData, |userData|))
    {
      hide IntBytes, FieldsBytes, FieldBytes;
      ghost var before := os.data;
      os.Write(IntBytes(order, |userData|));
      ghost var start := os.data;
      var i: nat := 0;
      FieldsBytesNext(order, userData, 0);
      while i < |userData|
        invariant i <= |userData|
        invariant os.data == start + FieldsBytes(order, userData, i)
      {
        FieldsBytesNext(order, userData, i);
        WriteField(order, os, userData[i]);
        i := i + 1;
      }
    }
  }

  method WriteField(order: ByteOrder, os: OutputStream, f: Field)
    requires Small(f)
    modifies os
    ensures os.data == old(os.data) + FieldBytes(order, f)
  {
    ghost var before := os.data;
    os.Write(IntBytes(order, |f.key| + 1));
    os.Write(f.key + [0]);
    os.Write(IntBytes(order, |f.data|));
    ghost var start := IntBytes(order, |f.key| + 1) + (f.key + [0]) + IntBytes(order, |f.data|);
    assert os.data == before + start;
    var i: nat := 0;
    while i < |f.data|
      invariant i <= |f.data| && os.data == before + (start + f.data[..i])
    {
      os.Write([f.data[i]]);
      assert f.data[..i + 1] == f.data[..i] + [f.data[i]];
      i := i + 1;
    }
    assert f.data[..i] == f.data;
  }

  class StreamReader {
    const native: ByteOrder
    const inputStream: SeekableFile
    var header: FileHeader
    var headerLength: nat

    constructor (native: ByteOrder, inputStream: SeekableFile)
      ensures this.native == native && this.inputStream == inputStream && fresh(header)
    {
      this.native, this.inputStream, headerLength := native, inputStream, 0;
      header := new FileHeader(0, 0, 0, 0);
    }

    method CheckMagic() returns (ok: bool)
      modifies header`differentByteOrdering, header`version, inputStream`pos
      ensures ok <==> var d, p := inputStream.data, old(inputStream.pos);
                      p + 4 <= |d| && CheckedMagic(native, d[p..p + 4]).Some?
      ensures ok ==>
        && CheckedMagic(native, inputStream.data[old(inputStream.pos)..old(inputStream.pos) + 4])
           == Some(Origin(header.differentByteOrdering, header.version))
        && inputStream.pos == old(inputStream.pos) + 4
    {
      var b := inputStream.Read(4);
      if |b| < 4 {
        return false;
      }
      if b[0] == 0xFF && b[2] == 0x7F && b[1] as int + b[3] as int == 0xFF {
        header.differentByteOrdering := native != BigEndian;
        header.version := b[1];
        ok := true;
      } else if b[3] == 0xFF && b[1] == 0x7F && b[0] as int + b[2] as int == 0xFF {
        header.differentByteOrdering := native == BigEndian;
        header.version := b[2];
        ok := true;
      } else {
        ok := false;
      }
    }

    method GetNextInteger() returns (ok: bool, n: int32)
      modifies inputStream`pos
      ensures ok <==> IntAt(native, header.differentByteOrdering, inputStream.data, old(inputStream.pos)).Some?
      ensures ok ==> IntAt(native, header.differentByteOrdering, inputStream.data, old(inputStream.pos)) == Some(n)
                     && inputStream.pos == old(inputStream.pos) + 4
    {
      hide Decode, Swapped;
      n := 0;
      var buf := inputStream.Read(4);
      ok := |buf| == 4;
      if ok {
        if header.differentByteOrdering {
          buf := Swapped(buf);
        }
        LimitFour();
        n := Signed(Decode(native, buf));
      }
    }

    method GetRun() returns (ok: bool, run: seq<byte>)
      modifies inputStream`pos
      ensures ok <==> RunAt(native, header.differentByteOrdering, inputStream.data, old(inputStream.pos)).Some?
      ensures ok ==>
        RunAt(native, header.differentByteOrdering, inputStream.data, old(inputStream.pos))
        == Some(Read(run, inputStream.pos))
    {
      hide Decode, Swapped;
      run := [];
      var size;
      ok, size := GetNextInteger();
      if ok {
        ok := size >= 0;
        if ok {
          run := inputStream.Read(size);
          ok := |run| == size;
        }
      }
    }

    method ReadType2Header() returns (ok: bool)
      modifies header`userData, header`nullTerminatedIds, inputStream`pos
      requires header.userData == [] && header.nullTerminatedIds
      ensures ok <==> UserDataAt(native, header.differentByteOrdering, inputStream.data, old(inputStream.pos)).Some?
      ensures ok ==> UserDataAt(native, header.differentByteOrdering, inputStream.data, old(inputStream.pos))
                     == Some(Read(header.userData, inputStream.pos))
      ensures ok ==> var n := IntAt(native, header.differentByteOrdering, inputStream.data, old(inputStream.pos)).value;
                     header.nullTerminatedIds
                       == EndsInNul(native, header.differentByteOrdering, inputStream.data, old(inputStream.pos) + 4,
                                    if n < 0 then 0 else n)
    {
      hide IntAt, RunAt, FieldsAt, Add;
      ghost var d, p := inputStream.data, inputStream.pos;
      var numUDEntries;
      ok, numUDEntries := GetNextInteger();
      if !ok {
        return;
      }
      FieldsAtNone(native, header.differentByteOrdering, d, p + 4);
      var i: nat := 0;
      while i < numUDEntries
        invariant (i == 0 || i <= numUDEntries) && ok
        invariant FieldsAt(native, header.differentByteOrdering, d, p + 4, i)
          == Some(Read(header.userData, inputStream.pos))
        invariant header.nullTerminatedIds == EndsInNul(native, header.differentByteOrdering, d, p + 4, i)
        decreases numUDEntries - i
      {
        ok := ReadField(p + 4, i, numUDEntries);
        if !ok {
          return;
        }
        i := i + 1;
      }
    }

    method ReadField(ghost p: nat, i: nat, ghost n: nat) returns (ok: bool)
      requires i < n
      requires FieldsAt(native, header.differentByteOrdering, inputStream.data, p, i)
        == Some(Read(header.userData, inputStream.pos))
      modifies header`userData, header`nullTerminatedIds, inputStream`pos
      ensures !ok ==> FieldsAt(native, header.differentByteOrdering, inputStream.data, p, n).None?
      ensures ok ==>
        FieldsAt(native, header.differentByteOrdering, inputStream.data, p, i + 1)
        == Some(Read(header.userData, inputStream.pos))
      ensures ok ==>
        header.nullTerminatedIds
        == EndsInNul(native, header.differentByteOrdering, inputStream.data, p, i + 1)
    {
      hide RunAt, FieldsAt, Add, UpToNul;
      ghost var d, q, different := inputStream.data, inputStream.pos, header.differentByteOrdering;
      FieldsAtNext(native, different, d, p, i, n);
      var id;
      ok, id := GetRun();
      if ok {
        ok := 0 in id;
        if ok {
          header.nullTerminatedIds := id[|id| - 1] == 0;
          var data;
          ok, data := GetRun();
          if ok {
            header.userData := Add(header.userData, Field(UpToNul(id), data));
          }
        }
      }
    }

    /** Parses a header at the cursor. */
    method ParseHeader() returns (ok: bool)
      modifies this, inputStream`pos
      ensures ok <==> HeaderAt(native, inputStream.data, old(inputStream.pos)).Some?
      ensures ok ==> fresh(header) && HeaderAt(native, inputStream.data, old(inputStream.pos))
                     == Some(Read(Header(Numbers(header.nl, header.ne, header.et, header.es), header.version,
                                         header.differentByteOrdering, header.userData), inputStream.pos))
      ensures ok ==> header.nullTerminatedIds == FlagAt(native, inputStream.data, old(inputStream.pos))
      ensures ok && header.nullTerminatedIds ==> headerLength == HeaderLength(header.userData)
    {
      hide CheckedMagic, IntAt, FieldsAt, EndsInNul, HeaderLength;
      headerLength := 0;
      header := new FileHeader(0, 0, 0, 0);
      ok := CheckMagic();
      if ok {
        ok := ReadNumbers();
      }
      if ok && header.version >= 2 {
        ok := ReadType2Header();
      }
      if ok {
        headerLength := header.GetLength();
      }
    }

    method ReadNumbers() returns (ok: bool)
      modifies header`nl, header`ne, header`et, header`es, inputStream`pos
      ensures ok <==> NumbersAt(native, header.differentByteOrdering, inputStream.data, old(inputStream.pos)).Some?
      ensures ok ==> NumbersAt(native, header.differentByteOrdering, inputStream.data, old(inputStream.pos))
                     == Some(Numbers(header.nl, header.ne, header.et, header.es))
                       && inputStream.pos == old(inputStream.pos) + 16
    {
      var n;
      ok, n := GetNextInteger();
      header.nl := n;
      if ok {
        ok, n := GetNextInteger();
        header.ne := n;
      }
      if ok {
        ok, n := GetNextInteger();
        header.et := n;
      }
      if ok {
        ok, n := GetNextInteger();
        header.es := n;
      }
    }
  }

  /** Printing a header behind anything and parsing it, in any byte orders of writer and reader: the reader gets
      the version, whether the orders differ, and stops right behind the header. It gets the user data, and the
      length of the header, exactly when no key has a NUL in it. It gets the header's own numbers for up to two
      bands; for more, byte elements become longer ones by the number of bands, and for other elements the lines are
      multiplied, in 32 bits. */
  method PrintThenParse(writer: ByteOrder, native: ByteOrder, header: FileHeader, numBands: nat, before: seq<byte>,
                        behind: seq<byte>)
    returns (printed: bool, ok: bool, reader: StreamReader)
    requires header.Valid() && AllSmall(header.userData)
    modifies header`nl, header`version
    ensures printed <==> header.et in {1, 2, 3, 11, 12, 13, 21, 22}
    ensures printed ==> ok
    ensures ok ==>
      && reader.header.ne == header.ne
      && (numBands <= 2 ==>
          reader.header.et == header.et && reader.header.es == header.es && reader.header.nl == old(header.nl))
      && (2 < numBands && header.et in {1, 2} ==>
          && reader.header.et == (if header.et == 1 then 21 else 22) && reader.header.nl == old(header.nl)
          && (reader.header.es - header.es * numBands) % 0x1_0000_0000 == 0
          && (-0x8000_0000 <= header.es * numBands < 0x8000_0000 ==> reader.header.es == header.es * numBands))
      && (2 < numBands && header.et !in {1, 2} ==>
          && reader.header.et == header.et && reader.header.es == header.es
          && (reader.header.nl - old(header.nl) * numBands) % 0x1_0000_0000 == 0
          && (-0x8000_0000 <= old(header.nl) * numBands < 0x8000_0000 ==>
              reader.header.nl == old(header.nl) * numBands))
    ensures ok ==>
      && fresh(reader.header)
      && reader.header.version == header.version == (if |header.userData| > 0 then 2 else 1)
      && (reader.header.differentByteOrdering <==> writer != native)
      && (reader.header.userData == header.userData <==> AllNulFree(header.userData))
      && reader.inputStream.pos == |before| + HeaderLength(header.userData)
      && (reader.headerLength == HeaderLength(header.userData) <==> AllNulFree(header.userData))
  {
    hide HeaderAt, HeaderBytes, HeaderLength, AddAll, AllNulFree, AllSmall, FlagAt;
    hide LegalType, FileHeader.NumbersFor, FileHeader.LinesFor, Wrapped;
    ghost var fields, numbers := header.userData, header.NumbersFor(numBands);
    NumbersPrinted(header, numBands);
    WrappedIs(header.es * numBands);
    WrappedIs(header.nl * numBands);
    var os := new OutputStream(before);
    printed := header.To(writer, numBands, os);
    os.Write(behind);
    var input := new SeekableFile(os.data);
    input.Seek(|before|);
    reader := new StreamReader(native, input);
    ok := false;
    if printed {
      HeldBetween(before, HeaderBytes(writer, numbers, fields), behind);
      HeaderReread(writer, native, input.data, |before|, numbers, fields);
      FlagReread(writer, native, input.data, |before|, numbers, fields);
      AddAllExactly(fields);
      LengthExactly(fields);
      ok := reader.ParseHeader();
    }
  }

  lemma WrappedIs(n: int)
    ensures (Wrapped(n) - n) % 0x1_0000_0000 == 0 && (-0x8000_0000 <= n < 0x8000_0000 ==> Wrapped(n) == n)
  {
  }

  lemma NumbersPrinted(h: FileHeader, numBands: nat)
    ensures LegalType(h.et) <==> h.et in {1, 2, 3, 11, 12, 13, 21, 22}
    ensures var n := h.NumbersFor(numBands);
            && n.ne == h.ne
            && (numBands <= 2 ==> n.et == h.et && n.es == h.es && n.nl == h.nl)
            && (2 < numBands && h.et in {1, 2} ==>
                n.et == (if h.et == 1 then 21 else 22) && n.nl == h.nl && n.es == Wrapped(h.es * numBands))
            && (2 < numBands && h.et !in {1, 2} ==>
                n.et == h.et && n.es == h.es && n.nl == Wrapped(h.nl * numBands))
  {
    hide Wrapped;
  }

  lemma HeldBetween(a: seq<byte>, b: seq<byte>, c: seq<byte>)
    ensures Holds(a + b + c, |a|, b)
  {
  }
}
