/** The tiled half of ImageReader, and the round trip through a tiled file. */
module TiledReader {
  import opened Arithmetic
  import opened Sequences
  import opened Storage
  import opened TileLayout
  import opened TiledImage
  import opened TileGathering
  import opened TileSweepContent
  import opened TilePosition
  import opened TiledWriter

  class ImageReader {
    const input: SeekableFile
    const imageWidth: nat
    const imageLength: nat
    const elementSize: nat
    const tileWidth: nat
    const tileLength: nat
    const tileOffsets: seq<nat>
    var bytePosition: nat
    ghost const base: nat

    /** A reader of the image that the given entries describe. */
    constructor (input: SeekableFile, imageWidth: nat, imageLength: nat, elementSize: nat,
                 tileWidth: nat, tileLength: nat, tileOffsets: seq<nat>, ghost base: nat)
      ensures this.input == input && bytePosition == 0 && this.elementSize == elementSize
      ensures Layout() == Tiling(Scaled(imageWidth, elementSize), imageLength, Scaled(tileWidth, elementSize),
                                 tileLength, base)
      ensures this.imageWidth == imageWidth && this.tileWidth == tileWidth && this.tileOffsets == tileOffsets
    {
      this.input, this.imageWidth, this.imageLength, this.elementSize := input, imageWidth, imageLength, elementSize;
      this.tileWidth, this.tileLength, this.tileOffsets, this.base := tileWidth, tileLength, tileOffsets, base;
      bytePosition := 0;
    }

    ghost function Layout(): Tiling
    {
      Tiling(Scaled(imageWidth, elementSize), imageLength, Scaled(tileWidth, elementSize), tileLength, base)
    }

    ghost predicate Valid()
      reads this
    {
      && 0 < imageWidth && 0 < elementSize && 0 < tileWidth
      && Layout().Valid()
      && |tileOffsets| == Layout().TileCount()
      && (forall t :: 0 <= t < |tileOffsets| ==> tileOffsets[t] == Layout().TileStart(t))
      && bytePosition <= Layout().ImageBytes() && Whole(bytePosition, elementSize)
    }

    lemma LayoutIs()
      ensures Layout().imageByteWidth == Scaled(imageWidth, elementSize)
        && Layout().tileByteWidth == Scaled(tileWidth, elementSize)
      ensures Layout().tileLength == tileLength
      ensures 0 < elementSize ==>
        Whole(Layout().imageByteWidth, elementSize) && Whole(Layout().tileByteWidth, elementSize)
    {
      if 0 < elementSize {
        ScaledIsWhole(imageWidth, elementSize);
        ScaledIsWhole(tileWidth, elementSize);
      }
    }

    /** The file position of the next byte, and how much of its image line the tile still holds. */
    method Locate() returns (seekPos: nat, remainingBytesThisLine: nat, ghost spot: Spot)
      requires Valid() && bytePosition < Layout().ImageBytes()
      ensures spot.Ok(Layout()) && spot.Position(Layout()) == bytePosition && spot.Address(Layout()) == seekPos
      ensures remainingBytesThisLine == Layout().Width(spot.j) - spot.c && Whole(remainingBytesThisLine, elementSize)
    {
      LayoutIs();
      hide Layout, Scaled, Whole, Tiling.TilesAcross, Tiling.Edge, Tiling.TileCount, Tiling.TileStart, Tiling.Tile;
      hide Tiling.ImageBytes, Spot.Position;
      var imageByteWidth := Scaled(imageWidth, elementSize);
      var tileByteWidth := Scaled(tileWidth, elementSize);
      var tilesAcross, widthPadding := Columns(Layout(), imageWidth, tileWidth, elementSize);
      var row, column, tileIndex, paddedBytes;
      row, column, tileIndex, paddedBytes, spot :=
        LocateTile(Layout(), imageByteWidth, tileByteWidth, tileLength, tilesAcross, widthPadding, bytePosition);
      var rowInTile := row % tileLength;
      var colInTile := column % tileByteWidth;
      remainingBytesThisLine := tileByteWidth - (paddedBytes + colInTile);
      TimesIs(rowInTile, tileByteWidth);
      seekPos := tileOffsets[tileIndex] + rowInTile * tileByteWidth + colInTile;
      spot.RestWhole(Layout(), elementSize);
    }

    /** Reads the next elements of the raster into the buffer. */
    method GetTileData(buffer: array<byte>, numElementsToRead0: nat, ghost raster: seq<byte>)
      requires Valid() && |raster| == Layout().ImageBytes()
      requires HoldsImage(Layout(), input.data, raster)
      requires Scaled(numElementsToRead0, elementSize) <= buffer.Length
      requires bytePosition + Scaled(numElementsToRead0, elementSize) <= |raster|
      modifies `bytePosition, input`pos, buffer
      ensures Valid() && bytePosition == old(bytePosition) + Scaled(numElementsToRead0, elementSize)
      ensures buffer[..Scaled(numElementsToRead0, elementSize)] == raster[old(bytePosition)..bytePosition]
    {
      hide Scaled, Whole, Layout, Tiling.TilesAcross, Tiling.Edge, Tiling.TileCount, Tiling.TileStart, Tiling.Tile;
      hide Tiling.ImageBytes, HoldsImage;
      hide Spot.Position, Spot.Address;
      ghost var start, total := bytePosition, Scaled(numElementsToRead0, elementSize);
      var numElementsToRead: int := numElementsToRead0;
      var bufferOffset: nat := 0;
      while numElementsToRead != 0
        invariant Valid() && bytePosition == start + bufferOffset
        invariant Scaled(numElementsToRead, elementSize) + bufferOffset == total
        invariant bufferOffset <= total
        invariant buffer[..bufferOffset] == raster[start..bytePosition]
        decreases total - bufferOffset
      {
        ScaledSign(numElementsToRead, elementSize);
        ScaledIsWhole(numElementsToRead, elementSize);
        var bytesToRead: nat := Scaled(numElementsToRead, elementSize);
        var seekPos, remainingBytesThisLine;
        ghost var spot;
        seekPos, remainingBytesThisLine, spot := Locate();
        if bytesToRead > remainingBytesThisLine {
          bytesToRead := remainingBytesThisLine;
        }
        spot.ReadableRun(Layout(), input.data, raster, bytesToRead);
        ScaledLess(numElementsToRead, bytesToRead, elementSize);
        WholeSum(bytePosition, bytesToRead, elementSize);
        input.Seek(seekPos);
        var read := input.Read(bytesToRead);
        CopyBytes(buffer, bufferOffset, read, 0, bytesToRead);
        Appended(buffer[..], bufferOffset, bytesToRead, raster, start, bytePosition);
        bytePosition := bytePosition + bytesToRead;
        bufferOffset := bufferOffset + bytesToRead;
        numElementsToRead := numElementsToRead - bytesToRead / elementSize;
      }
      ScaledSign(0, elementSize);
    }
  }

  /** A tiled file holds at most one image: the layout loses nothing. */
  lemma ImageIsUnique(g: Tiling, data: seq<byte>, raster1: seq<byte>, raster2: seq<byte>)
    requires g.Valid() && |raster1| == |raster2| == g.ImageBytes()
    requires HoldsImage(g, data, raster1) && HoldsImage(g, data, raster2)
    ensures raster1 == raster2
  {
    forall x | 0 <= x < |raster1|
      ensures raster1[x] == raster2[x]
    {
      var s := SpotOf(g, x);
      s.Readable(g, data, raster1);
      s.Readable(g, data, raster2);
    }
  }

  lemma NothingWritten(g: Tiling, data: seq<byte>, raster: seq<byte>)
    requires g.Valid() && |raster| == g.ImageBytes()
    ensures HoldsPrefix(g, data, raster, 0) && 0 < |raster|
  {
    hide Tiling.TilesAcross;
    TimesMono(1, g.imageLength, g.imageByteWidth);
    forall tr: nat, j: nat | j < g.TilesAcross()
      ensures SettledTo(g, data, raster, g.Tile(tr, j), g.Fill(tr, j, 0))
    {
      g.FillBefore(tr, j, 0);
    }
  }

  /** Any run of putTileData calls that transfers the whole raster leaves the whole image in the file. */
  method WriteImage(writer: ImageWriter, image: seq<byte>, calls: seq<nat>)
    requires writer.Valid() && writer.bytePosition == 0 && |image| == writer.Layout().ImageBytes()
    requires Scaled(Sum(calls), writer.elementSize) == |image|
    modifies writer`bytePosition, writer.output
    ensures writer.Valid() && writer.bytePosition == |image|
    ensures HoldsImage(writer.Layout(), writer.output.data, image)
    ensures SameOutside(writer.Layout(), old(writer.output.data), writer.output.data)
  {
    hide ImageWriter.Layout, Scaled, HoldsImage, HoldsPrefix, SameOutside, Tiling.ImageBytes, Tiling.TileCount;
    hide Tiling.TileStart;
    ghost var g := writer.Layout();
    NothingWritten(g, writer.output.data, image);
    SameOutsideSelf(g, writer.output.data);
    var rest := calls;
    while rest != []
      invariant writer.Valid() && writer.bytePosition + Scaled(Sum(rest), writer.elementSize) == |image|
      invariant HoldsPrefix(g, writer.output.data, image, writer.bytePosition)
      invariant writer.bytePosition == |image| ==> HoldsImage(g, writer.output.data, image)
      invariant SameOutside(g, old(writer.output.data), writer.output.data)
      decreases |rest|
    {
      ScaledAdd(rest[0], Sum(rest[1..]), writer.elementSize);
      var buffer := image[writer.bytePosition..writer.bytePosition + Scaled(rest[0], writer.elementSize)];
      ghost var before := writer.output.data;
      writer.PutTileData(buffer, rest[0], image);
      SameOutsideTwice(g, old(writer.output.data), before, writer.output.data);
      rest := rest[1..];
    }
    ScaledSign(0, writer.elementSize);
  }

  lemma SameOutsideTwice(g: Tiling, a: seq<byte>, b: seq<byte>, c: seq<byte>)
    requires g.Valid() && SameOutside(g, a, b) && SameOutside(g, b, c)
    ensures SameOutside(g, a, c)
  {
  }

  /** Any run of getTileData calls that transfers the whole raster returns the image in the file. */
  method ReadImage(reader: ImageReader, calls: seq<nat>, ghost image: seq<byte>) returns (result: seq<byte>)
    requires reader.Valid() && reader.bytePosition == 0 && |image| == reader.Layout().ImageBytes()
    requires Scaled(Sum(calls), reader.elementSize) == |image|
    requires HoldsImage(reader.Layout(), reader.input.data, image)
    modifies reader`bytePosition, reader.input`pos
    ensures result == image
  {
    hide ImageReader.Layout, Scaled, HoldsImage, Tiling.ImageBytes, Tiling.TileCount, Tiling.TileStart;
    result := [];
    var rest := calls;
    while rest != []
      invariant reader.Valid() && reader.bytePosition + Scaled(Sum(rest), reader.elementSize) == |image|
      invariant result == image[..reader.bytePosition]
      decreases |rest|
    {
      ScaledAdd(rest[0], Sum(rest[1..]), reader.elementSize);
      ghost var start := reader.bytePosition;
      var buffer := new byte[Scaled(rest[0], reader.elementSize)](i => 0);
      reader.GetTileData(buffer, rest[0], image);
      assert image[..reader.bytePosition] == image[..start] + image[start..reader.bytePosition];
      result := result + buffer[..];
      rest := rest[1..];
    }
    ScaledSign(0, reader.elementSize);
  }

  /** Tiles an image into a file behind what the file already holds, in calls of one kind of sizes,
      and reads it back in calls of another. */
  method RoundTrip(image: seq<byte>, imageWidth: nat, imageLength: nat, elementSize: nat, tileSize: nat,
                   header: seq<byte>, puts: seq<nat>, gets: seq<nat>)
    returns (result: seq<byte>, file: seq<byte>)
    requires 0 < imageWidth && 0 < imageLength && 0 < elementSize && 0 < tileSize
    requires |image| == Times(imageLength, Scaled(imageWidth, elementSize))
    requires Scaled(Sum(puts), elementSize) == |image| == Scaled(Sum(gets), elementSize)
    ensures result == image
    ensures header <= file
  {
    var output := new SeekableFile(header);
    output.Seek(|header|);
    var writer := new ImageWriter(output, imageWidth, imageLength, elementSize);
    writer.LayTiles(tileSize);
    writer.LayoutIs();
    hide Scaled, HoldsImage, Whole;
    WriteImage(writer, image, puts);
    file := output.data;
    assert header <= file by { KeepsHeader(writer.Layout(), header, file); }
    var reader := new ImageReader(output, imageWidth, imageLength, elementSize, tileSize, tileSize, writer.tileOffsets,
                                  writer.base);
    assert reader.Layout() == writer.Layout();
    ScaledIsWhole(0, elementSize);
    ScaledSign(0, elementSize);
    result := ReadImage(reader, gets, image);
  }

  lemma KeepsHeader(g: Tiling, header: seq<byte>, file: seq<byte>)
    requires g.Valid() && g.base == |header| && SameOutside(g, header, file)
    ensures header <= file
  {
  }
}
