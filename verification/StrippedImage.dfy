/** Writing a raster into a stripped image (Section 3 of the TIFF 6.0 specification) and reading it
    back, in any number of calls. */
module StrippedImage {
  import opened Arithmetic
  import opened Storage
  import opened Sequences

  /** The bytes of the first i strips. */
  function Prefix(counts: seq<nat>, i: nat): nat
    requires i <= |counts|
  {
    if i == 0 then 0 else Prefix(counts, i - 1) + counts[i - 1]
  }

  /** Every strip lies inside the file. */
  ghost predicate InFile(data: seq<byte>, offsets: seq<nat>, counts: seq<nat>)
  {
    && |offsets| == |counts|
    && forall i :: 0 <= i < |counts| ==> offsets[i] + counts[i] <= |data|
  }

  /** The image that the first i strips hold: their bytes, in strip order, wherever they lie. */
  ghost function Image(data: seq<byte>, offsets: seq<nat>, counts: seq<nat>, i: nat): (image: seq<byte>)
    requires InFile(data, offsets, counts) && i <= |counts|
    ensures |image| == Prefix(counts, i)
  {
    if i == 0 then [] else Image(data, offsets, counts, i - 1) + data[offsets[i - 1]..offsets[i - 1] + counts[i - 1]]
  }

  lemma {:induction false} PrefixMono(counts: seq<nat>, i: nat, j: nat)
    requires i <= j <= |counts|
    ensures Prefix(counts, i) <= Prefix(counts, j)
    ensures i < j ==> Prefix(counts, i) + counts[i] <= Prefix(counts, j)
    decreases j
  {
    if i < j {
      PrefixMono(counts, i, j - 1);
    }
  }

  /** A piece of a strip is a piece of the image. */
  lemma {:induction false} PieceOfImage(data: seq<byte>, offsets: seq<nat>, counts: seq<nat>, n: nat, i: nat, p: nat,
                                        k: nat)
    requires InFile(data, offsets, counts) && i < n <= |counts| && p + k <= counts[i]
    ensures Prefix(counts, i) + p + k <= Prefix(counts, n)
    ensures Image(data, offsets, counts, n)[Prefix(counts, i) + p..Prefix(counts, i) + p + k]
         == data[offsets[i] + p..offsets[i] + p + k]
    decreases n
  {
    hide Image, Prefix, InFile;
    PrefixMono(counts, i, n);
    ImageGoesOn(data, offsets, counts, n - 1);
    ImageGoesOn(data, offsets, counts, i);
    ghost var before, last := Image(data, offsets, counts, n - 1), data[offsets[n - 1]..offsets[n - 1] + counts[n - 1]];
    if i + 1 < n {
      PieceOfImage(data, offsets, counts, n - 1, i, p, k);
      SliceLeft(before, last, Prefix(counts, i) + p, Prefix(counts, i) + p + k);
    } else {
      SliceRight(before, last, p, p + k);
      SliceOfSlice(data, offsets[i], offsets[i] + counts[i], p, p + k);
    }
  }

  /** Strips of size bytes each follow one another from base on; only the last may be shorter. */
  ghost predicate Uniform(offsets: seq<nat>, counts: seq<nat>, base: nat, size: nat)
  {
    && 0 < |offsets| == |counts|
    && (forall i :: 0 <= i < |offsets| ==> offsets[i] == base + Times(i, size))
    && (forall i :: 0 <= i < |counts| - 1 ==> counts[i] == size)
    && 0 < counts[|counts| - 1] <= size
  }

  lemma {:induction false} UniformPrefix(offsets: seq<nat>, counts: seq<nat>, base: nat, size: nat, i: nat)
    requires Uniform(offsets, counts, base, size) && i < |counts|
    ensures Prefix(counts, i) == Times(i, size)
  {
    if i != 0 {
      UniformPrefix(offsets, counts, base, size, i - 1);
    }
  }

  /** Uniform strips that were written through from base on hold what was written. */
  lemma {:induction false} UniformImage(data: seq<byte>, offsets: seq<nat>, counts: seq<nat>, base: nat, size: nat,
                                        i: nat)
    requires Uniform(offsets, counts, base, size) && i <= |counts|
    requires InFile(data, offsets, counts)
    ensures base + Prefix(counts, i) <= |data|
      && Image(data, offsets, counts, i) == data[base..base + Prefix(counts, i)]
  {
    hide Uniform, InFile, Times, Image, Prefix;
    if i == 0 {
      UniformBase(data, offsets, counts, base, size);
      ImageBegins(data, offsets, counts);
    } else {
      UniformImage(data, offsets, counts, base, size, i - 1);
      StripStart(offsets, counts, base, size, i - 1);
      ImageGoesOn(data, offsets, counts, i - 1);
      var p := base + Prefix(counts, i - 1);
      SlicesJoin(data, base, p, p + counts[i - 1]);
    }
  }

  lemma ImageBegins(data: seq<byte>, offsets: seq<nat>, counts: seq<nat>)
    requires InFile(data, offsets, counts)
    ensures Prefix(counts, 0) == 0 && Image(data, offsets, counts, 0) == []
  {
  }

  lemma ImageGoesOn(data: seq<byte>, offsets: seq<nat>, counts: seq<nat>, i: nat)
    requires InFile(data, offsets, counts) && i < |counts|
    ensures |offsets| == |counts| && offsets[i] + counts[i] <= |data|
    ensures Prefix(counts, i + 1) == Prefix(counts, i) + counts[i]
    ensures Image(data, offsets, counts, i + 1)
      == Image(data, offsets, counts, i) + data[offsets[i]..offsets[i] + counts[i]]
  {
  }

  lemma UniformBase(data: seq<byte>, offsets: seq<nat>, counts: seq<nat>, base: nat, size: nat)
    requires Uniform(offsets, counts, base, size) && InFile(data, offsets, counts)
    ensures base <= |data|
  {
  }

  lemma StripStart(offsets: seq<nat>, counts: seq<nat>, base: nat, size: nat, i: nat)
    requires Uniform(offsets, counts, base, size) && i < |counts|
    ensures |offsets| == |counts| && offsets[i] == base + Prefix(counts, i)
  {
  }

  lemma UniformInFile(data: seq<byte>, offsets: seq<nat>, counts: seq<nat>, base: nat, size: nat)
    requires Uniform(offsets, counts, base, size) && base + Prefix(counts, |counts|) <= |data|
    ensures InFile(data, offsets, counts)
  {
    forall k | 0 <= k < |counts|
      ensures offsets[k] + counts[k] <= |data|
    {
      StripStart(offsets, counts, base, size, k);
      PrefixMono(counts, k, |counts|);
    }
  }

  class ImageWriter {
    const output: SeekableFile
    const imageWidth: nat
    const imageLength: nat
    const elementSize: nat
    const idealChunkSize: nat
    var rowsPerStrip: nat
    var stripOffsets: seq<nat>
    var stripByteCounts: seq<nat>
    var bytePosition: nat
    ghost var base: nat

    constructor (output: SeekableFile, imageWidth: nat, imageLength: nat, elementSize: nat, idealChunkSize: nat)
      ensures this.output == output && this.imageWidth == imageWidth && this.imageLength == imageLength
      ensures this.elementSize == elementSize && this.idealChunkSize == idealChunkSize && bytePosition == 0
    {
      this.output, this.imageWidth, this.imageLength := output, imageWidth, imageLength;
      this.elementSize, this.idealChunkSize := elementSize, idealChunkSize;
      rowsPerStrip, stripOffsets, stripByteCounts, bytePosition, base := 0, [], [], 0, 0;
    }

    function BytesPerLine(): nat { Scaled(imageWidth, elementSize) }

    function ImageSize(): nat { Times(imageLength, BytesPerLine()) }

    ghost predicate Valid()
      reads this
    {
      && 0 < elementSize && 0 < imageWidth
      && Uniform(stripOffsets, stripByteCounts, base, Times(rowsPerStrip, BytesPerLine()))
      && Prefix(stripByteCounts, |stripByteCounts|) == ImageSize()
      && bytePosition <= ImageSize() && Whole(bytePosition, elementSize)
    }

    lemma LineIs()
      ensures BytesPerLine() == imageWidth * elementSize
    {
    }

    /** Cuts the image into strips of whole lines: one line, if that is longer than the ideal size, or else as many as
        fit into one and a half times the ideal size. */
    method InitStrips()
      requires 0 < imageWidth && 0 < imageLength && 0 < elementSize && bytePosition == 0
      modifies this
      ensures Valid() && bytePosition == 0 && base == output.pos
      ensures 0 < rowsPerStrip && |stripByteCounts| == (imageLength + rowsPerStrip - 1) / rowsPerStrip
      ensures idealChunkSize < imageWidth * elementSize ==> rowsPerStrip == 1
      ensures imageWidth * elementSize <= idealChunkSize ==>
        2 * (rowsPerStrip * (imageWidth * elementSize)) <= 3 * idealChunkSize
        < 2 * ((rowsPerStrip + 1) * (imageWidth * elementSize))
    {
      LineIs();
      hide Whole, Scaled;
      ScaledSign(imageWidth, elementSize);
      ScaledIsWhole(0, elementSize);
      ScaledSign(0, elementSize);
      var bytesPerLine := BytesPerLine();
      var stripByteCount;
      rowsPerStrip, stripByteCount := Rows(bytesPerLine, idealChunkSize);
      var stripsPerImage := (imageLength + rowsPerStrip - 1) / rowsPerStrip;
      base := output.pos;
      LastStrip(imageLength, rowsPerStrip, bytesPerLine, stripsPerImage);
      stripOffsets, stripByteCounts :=
        StripEntries(imageLength, bytesPerLine, stripByteCount, stripsPerImage, output.pos);
    }

    /** Writes the next elements of the raster at the cursor, strip by strip. */
    method PutStripData(buffer: seq<byte>, numElementsToWrite0: nat, ghost image: seq<byte>)
      requires Valid() && |image| == ImageSize()
      requires Scaled(numElementsToWrite0, elementSize) <= |buffer|
      requires bytePosition + Scaled(numElementsToWrite0, elementSize) <= |image|
      requires buffer[..Scaled(numElementsToWrite0, elementSize)]
        == image[bytePosition..bytePosition + Scaled(numElementsToWrite0, elementSize)]
      requires output.pos == base + bytePosition && base <= |output.data|
        && Written(output.data, base, image, bytePosition)
      modifies `bytePosition, output
      ensures Valid() && bytePosition == old(bytePosition) + Scaled(numElementsToWrite0, elementSize)
      ensures output.pos == base + bytePosition && Written(output.data, base, image, bytePosition)
      ensures base <= |output.data| && output.data[..base] == old(output.data[..base])
      ensures bytePosition == |image| ==> HoldsStrips(output.data, stripOffsets, stripByteCounts, image)
    {
      hide Scaled, Whole, BytesPerLine, ImageSize, HoldsStrips, Valid, Written;
      ghost var start, total: nat := bytePosition, Scaled(numElementsToWrite0, elementSize);
      var bufferIndex: nat := 0;
      var numElementsToWrite: int := numElementsToWrite0;
      ElementsExist();
      while numElementsToWrite != 0
        invariant Valid() && bytePosition == start + bufferIndex
        invariant Scaled(numElementsToWrite, elementSize) + bufferIndex == total
        invariant bufferIndex <= total
        invariant output.pos == base + bytePosition && Written(output.data, base, image, bytePosition)
        invariant base <= |output.data| && output.data[..base] == old(output.data[..base])
        decreases total - bufferIndex
      {
        ScaledSign(numElementsToWrite, elementSize);
        ScaledIsWhole(numElementsToWrite, elementSize);
        var bytesToWrite: nat := Scaled(numElementsToWrite, elementSize);
        var remainingBytesInStrip := RemainingBytesInStrip();
        if bytesToWrite > remainingBytesInStrip {
          bytesToWrite := remainingBytesInStrip;
        }
        ScaledLess(numElementsToWrite, bytesToWrite, elementSize);
        SameRun(buffer, image, start, total, bufferIndex, bytesToWrite);
        WriteRun(buffer[bufferIndex..bufferIndex + bytesToWrite], image);
        bufferIndex := bufferIndex + bytesToWrite;
        numElementsToWrite := numElementsToWrite - bytesToWrite / elementSize;
      }
      ScaledSign(0, elementSize);
      if bytePosition == |image| {
        AllWritten(image);
      }
    }

    lemma ElementsExist()
      requires Valid()
      ensures 0 < elementSize
    {
    }

    lemma AllWritten(image: seq<byte>)
      requires Valid() && |image| == ImageSize() == bytePosition && Written(output.data, base, image, bytePosition)
      ensures HoldsStrips(output.data, stripOffsets, stripByteCounts, image)
    {
      hide Uniform, HoldsStrips, Written, ImageSize;
      StripsHold(output.data, stripOffsets, stripByteCounts, base, Times(rowsPerStrip, BytesPerLine()), image);
    }

    /** What the strip of the cursor still has room for. */
    method RemainingBytesInStrip() returns (remaining: nat)
      requires Valid() && bytePosition < ImageSize()
      ensures 0 < remaining && bytePosition + remaining <= ImageSize() && Whole(remaining, elementSize)
    {
      hide Whole, BytesPerLine, ImageSize, Uniform;
      StripsWhole();
      StripOf(stripOffsets, stripByteCounts, base, Times(rowsPerStrip, BytesPerLine()), elementSize, bytePosition);
      var stripSize := stripByteCounts[0];
      var stripIndex := bytePosition / stripSize;
      var stripPosition := bytePosition % stripSize;
      remaining := stripByteCounts[stripIndex] - stripPosition;
      PrefixMono(stripByteCounts, stripIndex, |stripByteCounts|);
    }

    method WriteRun(b: seq<byte>, ghost image: seq<byte>)
      requires Valid() && |image| == ImageSize() && bytePosition + |b| <= |image| && Whole(|b|, elementSize)
      requires b == image[bytePosition..bytePosition + |b|]
      requires output.pos == base + bytePosition && Written(output.data, base, image, bytePosition)
      modifies `bytePosition, output
      ensures Valid() && bytePosition == old(bytePosition) + |b|
      ensures output.pos == base + bytePosition && Written(output.data, base, image, bytePosition)
      ensures base <= |old(output.data)| && base <= |output.data| && output.data[..base] == old(output.data)[..base]
    {
      hide Whole, BytesPerLine, ImageSize, Uniform;
      WrittenMore(output.data, base, image, bytePosition, b);
      WholeSum(bytePosition, |b|, elementSize);
      output.Write(b);
      bytePosition := bytePosition + |b|;
    }

    /** Strips begin and end between elements. */
    lemma StripsWhole()
      requires Valid()
      ensures Whole(Times(rowsPerStrip, BytesPerLine()), elementSize) && Whole(ImageSize(), elementSize)
    {
      hide Whole, Scaled;
      ScaledIsWhole(imageWidth, elementSize);
      TimesWhole(rowsPerStrip, BytesPerLine(), elementSize);
      TimesWhole(imageLength, BytesPerLine(), elementSize);
    }
  }

  /** The first x bytes of the image are in the file, from base on. */
  ghost predicate Written(data: seq<byte>, base: nat, image: seq<byte>, x: nat)
  {
    x <= |image| && base + x <= |data| && data[base..base + x] == image[..x]
  }

  /** The strips of the file hold the image. */
  ghost predicate HoldsStrips(data: seq<byte>, offsets: seq<nat>, counts: seq<nat>, image: seq<byte>)
  {
    InFile(data, offsets, counts) && Image(data, offsets, counts, |counts|) == image
  }

  lemma StripsHeld(data: seq<byte>, offsets: seq<nat>, counts: seq<nat>, image: seq<byte>)
    requires HoldsStrips(data, offsets, counts, image)
    ensures |offsets| == |counts| && |image| == Prefix(counts, |counts|)
  {
  }

  lemma WrittenMore(data: seq<byte>, base: nat, image: seq<byte>, x: nat, b: seq<byte>)
    requires Written(data, base, image, x) && x + |b| <= |image| && b == image[x..x + |b|]
    ensures Written(Overwrite(data, base + x, b), base, image, x + |b|)
    ensures Overwrite(data, base + x, b)[..base] == data[..base]
  {
    var after := Overwrite(data, base + x, b);
    assert after[base..base + x] == data[base..base + x];
    assert after[base + x..base + x + |b|] == b;
    SlicesJoin(after, base, base + x, base + x + |b|);
    SlicesJoin(image, 0, x, x + |b|);
  }

  /** A run of the buffer is the run of the image it was cut from. */
  lemma SameRun(buffer: seq<byte>, image: seq<byte>, start: nat, total: nat, i: nat, n: nat)
    requires total <= |buffer| && start + total <= |image| && i + n <= total
    requires buffer[..total] == image[start..start + total]
    ensures buffer[i..i + n] == image[start + i..start + i + n]
  {
    SliceOfSlice(buffer, 0, total, i, i + n);
    SliceOfSlice(image, start, start + total, i, i + n);
  }

  lemma StripsHold(data: seq<byte>, offsets: seq<nat>, counts: seq<nat>, base: nat, size: nat, image: seq<byte>)
    requires Uniform(offsets, counts, base, size) && Prefix(counts, |counts|) == |image|
    requires Written(data, base, image, |image|)
    ensures HoldsStrips(data, offsets, counts, image)
  {
    hide Uniform, InFile;
    UniformInFile(data, offsets, counts, base, size);
    UniformImage(data, offsets, counts, base, size, |counts|);
  }

  /** The rows of a strip, and its bytes. */
  method Rows(bytesPerLine: nat, idealChunkSize: nat) returns (rowsPerStrip: nat, stripByteCount: nat)
    requires 0 < bytesPerLine
    ensures 0 < rowsPerStrip && stripByteCount == Times(rowsPerStrip, bytesPerLine)
    ensures idealChunkSize < bytesPerLine ==> rowsPerStrip == 1
    ensures bytesPerLine <= idealChunkSize ==>
      2 * (rowsPerStrip * bytesPerLine) <= 3 * idealChunkSize < 2 * ((rowsPerStrip + 1) * bytesPerLine)
  {
    rowsPerStrip := 1;
    if bytesPerLine > idealChunkSize {
      stripByteCount := bytesPerLine;
    } else {
      rowsPerStrip := (idealChunkSize + idealChunkSize / 2) / bytesPerLine;
      QuotientPositive(idealChunkSize + idealChunkSize / 2, bytesPerLine);
      OneAndAHalf(idealChunkSize, bytesPerLine);
      stripByteCount := bytesPerLine * rowsPerStrip;
    }
    TimesIs(rowsPerStrip, bytesPerLine);
  }

  /** The quotient of one and a half times n, rounded down twice. */
  lemma OneAndAHalf(n: nat, d: nat)
    requires 0 < d
    ensures var q := (n + n / 2) / d;
            2 * (q * d) <= 3 * n < 2 * ((q + 1) * d)
  {
    var x := n + n / 2;
    assert 2 * x <= 3 * n <= 2 * x + 1;
    assert x / d * d <= x < x / d * d + d;
    assert (x / d + 1) * d == x / d * d + d;
  }

  lemma QuotientPositive(a: nat, d: nat)
    requires 0 < d <= a
    ensures 0 < a / d
  {
  }

  /** The loop of initStrips, and the shorter last strip. */
  method StripEntries(imageLength: nat, bytesPerLine: nat, stripByteCount: nat, stripsPerImage: nat, offset0: nat)
    returns (stripOffsets: seq<nat>, stripByteCounts: seq<nat>)
    requires 0 < stripsPerImage && Times(stripsPerImage - 1, stripByteCount) < Times(imageLength, bytesPerLine)
    requires Times(imageLength, bytesPerLine) <= Times(stripsPerImage - 1, stripByteCount) + stripByteCount
    ensures Uniform(stripOffsets, stripByteCounts, offset0, stripByteCount) && |stripOffsets| == stripsPerImage
    ensures Prefix(stripByteCounts, |stripByteCounts|) == Times(imageLength, bytesPerLine)
  {
    hide Times, Prefix;
    stripOffsets, stripByteCounts := [], [];
    var offset := offset0;
    var i: nat := 0;
    TimesNext(0, stripByteCount);
    while i < stripsPerImage - 1
      invariant i <= stripsPerImage - 1 && |stripOffsets| == |stripByteCounts| == i
      invariant offset == offset0 + Times(i, stripByteCount)
      invariant forall k :: 0 <= k < i ==> stripOffsets[k] == offset0 + Times(k, stripByteCount)
      invariant forall k :: 0 <= k < i ==> stripByteCounts[k] == stripByteCount
    {
      stripOffsets := stripOffsets + [offset];
      stripByteCounts := stripByteCounts + [stripByteCount];
      offset := offset + stripByteCount;
      TimesNext(i, stripByteCount);
      i := i + 1;
    }
    var remainingBytes := Rest(imageLength, bytesPerLine, stripsPerImage - 1, stripByteCount);
    stripOffsets, stripByteCounts := stripOffsets + [offset], stripByteCounts + [remainingBytes];
    UniformPrefix(stripOffsets, stripByteCounts, offset0, stripByteCount, stripsPerImage - 1);
    PrefixNext(stripByteCounts, stripsPerImage - 1);
  }

  lemma PrefixNext(counts: seq<nat>, i: nat)
    requires i < |counts|
    ensures Prefix(counts, i + 1) == Prefix(counts, i) + counts[i]
  {
  }

  /** What remains of the image after k strips of the same size. */
  method Rest(imageLength: nat, bytesPerLine: nat, k: nat, stripByteCount: nat) returns (remainingBytes: nat)
    requires Times(k, stripByteCount) <= Times(imageLength, bytesPerLine)
    ensures Times(k, stripByteCount) + remainingBytes == Times(imageLength, bytesPerLine)
  {
    hide Times;
    TimesIs(imageLength, bytesPerLine);
    TimesIs(k, stripByteCount);
    remainingBytes := imageLength * bytesPerLine - k * stripByteCount;
  }

  /** The strips before the last one do not reach the end of the image, and one more would. */
  lemma LastStrip(imageLength: nat, rowsPerStrip: nat, bytesPerLine: nat, n: nat)
    requires 0 < imageLength && 0 < rowsPerStrip && 0 < bytesPerLine
    requires n == (imageLength + rowsPerStrip - 1) / rowsPerStrip
    ensures 0 < n
    ensures Times(n - 1, Times(rowsPerStrip, bytesPerLine)) < Times(imageLength, bytesPerLine)
    ensures Times(imageLength, bytesPerLine) <= Times(n - 1, Times(rowsPerStrip, bytesPerLine))
      + Times(rowsPerStrip, bytesPerLine)
  {
    TimesSplit(imageLength + rowsPerStrip - 1, rowsPerStrip);
    if n == 0 {
      assert false;
    }
    LinesOfStrips(n - 1, rowsPerStrip, bytesPerLine);
    LinesOfStrips(n, rowsPerStrip, bytesPerLine);
    TimesMono(Times(n - 1, rowsPerStrip), imageLength, bytesPerLine);
    TimesMono(imageLength, Times(n, rowsPerStrip), bytesPerLine);
  }

  /** The bytes of n strips are the bytes of their lines. */
  lemma {:induction false} LinesOfStrips(n: nat, rows: nat, bytesPerLine: nat)
    ensures Times(n, Times(rows, bytesPerLine)) == Times(Times(n, rows), bytesPerLine)
  {
    if n != 0 {
      LinesOfStrips(n - 1, rows, bytesPerLine);
      TimesAdd(Times(n - 1, rows), rows, bytesPerLine);
    }
  }

  /** The strip of a position of the image that is being written. */
  lemma StripOf(offsets: seq<nat>, counts: seq<nat>, base: nat, size: nat, elementSize: nat, x: nat)
    requires Uniform(offsets, counts, base, size) && x < Prefix(counts, |counts|)
    requires 0 < elementSize && Whole(size, elementSize) && Whole(Prefix(counts, |counts|), elementSize)
      && Whole(x, elementSize)
    ensures 0 < counts[0]
    ensures x / counts[0] < |counts| && x % counts[0] < counts[x / counts[0]]
    ensures x == Prefix(counts, x / counts[0]) + x % counts[0]
    ensures Whole(counts[x / counts[0]] - x % counts[0], elementSize)
  {
    hide Whole;
    var n := |counts|;
    UniformPrefix(offsets, counts, base, size, n - 1);
    if n == 1 {
      TimesDivMod(x, 0, counts[0], x);
      WholeSum(Prefix(counts, n), x, elementSize);
    } else {
      var q := x / size;
      TimesSplit(x, size);
      if n <= q {
        TimesMono(n, q, size);
        assert false;
      }
      UniformPrefix(offsets, counts, base, size, q);
      TimesWhole(q, size, elementSize);
      TimesWhole(n - 1, size, elementSize);
      WholeSum(x, Times(q, size), elementSize);
      WholeSum(Prefix(counts, n), Times(n - 1, size), elementSize);
      WholeSum(counts[q], x % size, elementSize);
    }
  }

  class ImageReader {
    const input: SeekableFile
    const elementSize: nat
    const stripOffsets: seq<nat>
    const stripByteCounts: seq<nat>
    var bytePosition: nat
    var stripIndex: nat

    constructor (input: SeekableFile, elementSize: nat, stripOffsets: seq<nat>, stripByteCounts: seq<nat>)
      ensures this.input == input && this.elementSize == elementSize
      ensures this.stripOffsets == stripOffsets && this.stripByteCounts == stripByteCounts
      ensures bytePosition == 0 && stripIndex == 0
    {
      this.input, this.elementSize, this.stripOffsets, this.stripByteCounts :=
        input, elementSize, stripOffsets, stripByteCounts;
      bytePosition, stripIndex := 0, 0;
    }

    /** The cursor lies in the current strip, at its end, or behind the last strip. */
    ghost predicate Valid()
      reads this, input
    {
      && 0 < elementSize
      && InFile(input.data, stripOffsets, stripByteCounts)
      && stripIndex <= |stripByteCounts|
      && Prefix(stripByteCounts, stripIndex) <= bytePosition
      && (if stripIndex == |stripByteCounts| then bytePosition == Prefix(stripByteCounts, stripIndex)
          else bytePosition <= Prefix(stripByteCounts, stripIndex) + stripByteCounts[stripIndex])
    }

    /** Reads the next elements of the image, or as many as there are before it fails. */
    method GetStripData(buffer: array<byte>, numElementsToRead: nat, ghost image: seq<byte>) returns (ok: bool)
      requires Valid() && HoldsStrips(input.data, stripOffsets, stripByteCounts, image)
      requires Scaled(numElementsToRead, elementSize) <= buffer.Length
      modifies this, input`pos, buffer
      ensures Valid()
      ensures ok <==> old(bytePosition) + Scaled(numElementsToRead, elementSize) <= |image|
      ensures bytePosition == if ok then old(bytePosition) + Scaled(numElementsToRead, elementSize) else |image|
      ensures old(bytePosition) <= bytePosition && bytePosition - old(bytePosition) <= buffer.Length
      ensures buffer[..bytePosition - old(bytePosition)] == image[old(bytePosition)..bytePosition]
    {
      StripsHeld(input.data, stripOffsets, stripByteCounts, image);
      hide Scaled, Image, Prefix, InFile, HoldsStrips;
      ghost var start, total: nat, n := bytePosition, Scaled(numElementsToRead, elementSize), |stripByteCounts|;
      var stripPosition: nat := PositionInStrip();
      var bufferOffset: nat := 0;
      var numBytesToRead: nat := Scaled(numElementsToRead, elementSize);
      PrefixMono(stripByteCounts, stripIndex, n);
      while numBytesToRead != 0
        invariant Valid() && numBytesToRead + bufferOffset == total && bytePosition == start + bufferOffset <= |image|
        invariant bytePosition == Prefix(stripByteCounts, stripIndex) + stripPosition || numBytesToRead == 0
        invariant buffer[..bufferOffset] == image[start..bytePosition]
        decreases numBytesToRead, n - stripIndex
      {
        if stripIndex >= |stripOffsets| {
          return false;
        }
        var thisRead := ReadStrip(buffer, bufferOffset, numBytesToRead, stripPosition, start, image);
        numBytesToRead := numBytesToRead - thisRead;
        bufferOffset := bufferOffset + thisRead;
        stripPosition := 0;
      }
      ok := true;
    }

    /** Reads from the current strip what is wanted, or what is left of it, and then goes on to the next strip. */
    method ReadStrip(buffer: array<byte>, bufferOffset: nat, numBytesToRead: nat, stripPosition: nat, ghost start: nat,
                     ghost image: seq<byte>)
      returns (thisRead: nat)
      requires Valid() && HoldsStrips(input.data, stripOffsets, stripByteCounts, image)
      requires stripIndex < |stripOffsets| && bytePosition == Prefix(stripByteCounts, stripIndex) + stripPosition
      requires bufferOffset + numBytesToRead <= buffer.Length && bytePosition == start + bufferOffset <= |image|
      requires buffer[..bufferOffset] == image[start..bytePosition]
      modifies this, input`pos, buffer
      ensures Valid() && bytePosition == old(bytePosition) + thisRead <= |image| && thisRead <= numBytesToRead
      ensures buffer[..bufferOffset + thisRead] == image[start..bytePosition]
      ensures stripIndex == old(stripIndex) + if thisRead < numBytesToRead then 1 else 0
      ensures thisRead < numBytesToRead ==> bytePosition == Prefix(stripByteCounts, stripIndex)
    {
      hide Image, Prefix;
      ghost var current := stripIndex;
      PrefixNext(stripByteCounts, current);
      var remainingBytesInStrip: nat := stripByteCounts[stripIndex] - stripPosition;
      var seekPos := stripOffsets[stripIndex] + stripPosition;
      thisRead := numBytesToRead;
      if numBytesToRead > remainingBytesInStrip {
        thisRead := remainingBytesInStrip;
        stripIndex := stripIndex + 1;
      }
      ReadRun(buffer, bufferOffset, seekPos, thisRead, current, stripPosition, start, image);
      bytePosition := bytePosition + thisRead;
    }

    /** Seeks into a strip and reads a piece of it behind what the buffer holds. */
    method ReadRun(buffer: array<byte>, bufferOffset: nat, seekPos: nat, thisRead: nat,
                   ghost strip: nat, ghost position: nat, ghost start: nat, ghost image: seq<byte>)
      requires InFile(input.data, stripOffsets, stripByteCounts)
      requires HoldsStrips(input.data, stripOffsets, stripByteCounts, image)
      requires strip < |stripByteCounts| && position + thisRead <= stripByteCounts[strip]
        && seekPos == stripOffsets[strip] + position
      requires bufferOffset + thisRead <= buffer.Length
      requires start + bufferOffset == Prefix(stripByteCounts, strip) + position <= |image|
      requires buffer[..bufferOffset] == image[start..start + bufferOffset]
      modifies input`pos, buffer
      ensures start + bufferOffset + thisRead <= |image|
      ensures buffer[..bufferOffset + thisRead] == image[start..start + bufferOffset + thisRead]
    {
      hide Image, Prefix;
      PieceOfImage(input.data, stripOffsets, stripByteCounts, |stripByteCounts|, strip, position, thisRead);
      input.Seek(seekPos);
      var read := input.Read(thisRead);
      CopyBytes(buffer, bufferOffset, read, 0, thisRead);
      Appended(buffer[..], bufferOffset, thisRead, image, start, start + bufferOffset);
    }

    /** How far the cursor is in the current strip. */
    method PositionInStrip() returns (stripPosition: nat)
      requires Valid()
      ensures bytePosition == Prefix(stripByteCounts, stripIndex) + stripPosition
    {
      var stripOffset := 0;
      for i := 0 to stripIndex
        invariant stripOffset == Prefix(stripByteCounts, i)
      {
        stripOffset := stripOffset + stripByteCounts[i];
      }
      stripPosition := bytePosition - stripOffset;
    }
  }

  /** Cuts an image into strips behind what the file already holds, in calls of one kind of sizes,
      and reads it back in calls of another. */
  method RoundTrip(image: seq<byte>, imageWidth: nat, imageLength: nat, elementSize: nat, idealChunkSize: nat,
                   header: seq<byte>, puts: seq<nat>, gets: seq<nat>)
    returns (result: seq<byte>, file: seq<byte>)
    requires 0 < imageWidth && 0 < imageLength && 0 < elementSize
    requires |image| == Times(imageLength, Scaled(imageWidth, elementSize))
    requires Scaled(Sum(puts), elementSize) == |image| == Scaled(Sum(gets), elementSize)
    ensures result == image
    ensures header + image <= file
  {
    var output := new SeekableFile(header);
    output.Seek(|header|);
    var writer := new ImageWriter(output, imageWidth, imageLength, elementSize, idealChunkSize);
    writer.InitStrips();
    hide Scaled, HoldsStrips, Whole, Uniform;
    WriteImage(writer, image, puts);
    file := output.data;
    var reader := new ImageReader(output, elementSize, writer.stripOffsets, writer.stripByteCounts);
    result := ReadImage(reader, gets, image);
  }

  /** Any run of putStripData calls that transfers the whole raster leaves the whole image in the file. */
  method WriteImage(writer: ImageWriter, image: seq<byte>, calls: seq<nat>)
    requires writer.Valid() && writer.bytePosition == 0 && |image| == writer.ImageSize() && 0 < |image|
    requires writer.base == writer.output.pos <= |writer.output.data|
    requires Scaled(Sum(calls), writer.elementSize) == |image|
    modifies writer`bytePosition, writer.output
    ensures HoldsStrips(writer.output.data, writer.stripOffsets, writer.stripByteCounts, image)
    ensures old(writer.output.data[..writer.base]) + image <= writer.output.data
  {
    hide Scaled, HoldsStrips, Whole, Uniform, ImageWriter.BytesPerLine, ImageWriter.ImageSize;
    var rest := calls;
    while rest != []
      invariant writer.Valid() && writer.bytePosition + Scaled(Sum(rest), writer.elementSize) == |image|
      invariant writer.output.pos == writer.base + writer.bytePosition
      invariant Written(writer.output.data, writer.base, image, writer.bytePosition)
      invariant writer.output.data[..writer.base] == old(writer.output.data[..writer.base])
      invariant writer.bytePosition == |image| ==>
        HoldsStrips(writer.output.data, writer.stripOffsets, writer.stripByteCounts, image)
      decreases |rest|
    {
      ScaledAdd(rest[0], Sum(rest[1..]), writer.elementSize);
      var buffer := image[writer.bytePosition..writer.bytePosition + Scaled(rest[0], writer.elementSize)];
      writer.PutStripData(buffer, rest[0], image);
      rest := rest[1..];
    }
    ScaledSign(0, writer.elementSize);
    SlicesJoin(writer.output.data, 0, writer.base, writer.base + |image|);
  }

  /** Any run of getStripData calls that transfers the whole raster returns the image in the file. */
  method ReadImage(reader: ImageReader, calls: seq<nat>, ghost image: seq<byte>) returns (result: seq<byte>)
    requires reader.Valid() && reader.bytePosition == 0
    requires HoldsStrips(reader.input.data, reader.stripOffsets, reader.stripByteCounts, image)
    requires Scaled(Sum(calls), reader.elementSize) == |image|
    modifies reader, reader.input`pos
    ensures result == image
  {
    hide Scaled, HoldsStrips, Image, InFile;
    result := [];
    var rest := calls;
    while rest != []
      invariant reader.Valid() && reader.bytePosition + Scaled(Sum(rest), reader.elementSize) == |image|
      invariant result == image[..reader.bytePosition]
      decreases |rest|
    {
      ScaledAdd(rest[0], Sum(rest[1..]), reader.elementSize);
      ghost var start := reader.bytePosition;
      var buffer := new byte[Scaled(rest[0], reader.elementSize)](i => 0);
      var ok := reader.GetStripData(buffer, rest[0], image);
      SlicesJoin(image, 0, start, reader.bytePosition);
      result := result + buffer[..];
      rest := rest[1..];
    }
    ScaledSign(0, reader.elementSize);
  }
}
