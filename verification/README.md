# coda-oss: verified models

This project models the algorithms of coda-oss whose correctness does not follow from reading one body, and
proves what they are for. Each file is a module; `dafny verify dfyconfig.toml` checks all of them.

* **Tiled TIFF images** (`TileLayout`, `TileSweep`, `TileGathering`, `TileSweepContent`, `TiledImage`,
  `TilePosition`, `TileBottom`, `TiledWriter`, `TiledReader`; Section 15 of TIFF 6.0). `putTileData` scatters a
  piece of the raster into tiles with two nested loops and many running offsets, in an order that wraps around the
  tile row. The layout says which byte belongs at which offset of which tile. The writer's invariant is that each
  tile is settled as far as the raster written so far settles it; within a call a `Sweep` says which tile columns
  have had their share. The reader inverts the layout.
* **Stripped TIFF images** (`StrippedImage`; Section 3 of TIFF 6.0).
* **Image file directories** (`IFDFormat`, `IFDOrder`, `IFDRoundTrip`, `ImageFileDirectory`; Section 2 of TIFF 6.0),
  with numbers in either byte order (`ByteOrders`).
* **SIO headers** (`SioFormat`, `SioHeader`), for all four combinations of byte orders.
* **The stream splitter** (`LeftmostSplit`, `StreamSplitting`): a sliding buffer against a split of the whole input.
* **The DOM builder** (`MinidomHandling`, `Trimming`): one shared character buffer against a tree.
* **The rotating log file** (`RotatingFile`): renaming files against the history of writes.
* **XML escaping** (`Replacing`) and **paths** (`Tokenizing`, `Paths`).
* **Three protocols** as interleaved steps of any number of threads (`Totals`): the Win32 condition variable
  (`ConditionVariable`), the reader/writer lock (`ReadersWriter`), the generation thread pool (`GenerationPool`).
* **Interval sets** (`Ranges`, `RangeLists`), **aligned buffers** (`ScratchBuffers`), **binomial coefficients**
  (`Binomial`).

`Arithmetic`, `Sequences`, `Options` and `Storage` hold shared facts about products and slices, values that may be
missing, and a seekable file.

Objects that the program updates in place are classes, and its loops are loops. A method is proved against a
function or a predicate of the old and new state, and the lemmas are about those. An exception is a result `ok`
that is false, or a `None`. Parameters marked `ghost`, such as the raster that a buffer is a piece of, only name
what a contract speaks of.

Properties that turned out not to hold everywhere are stated with the exact condition, and with an input where they
fail:

* An entry of a directory with values that fit into its four bytes is written by repeating each value
  `(4 / count) / size` times. Two different one-byte values, three one-byte values, and no values at all are not read
  back; the last two also make the table shorter than readers take it to be. A directory of 65536 entries is counted
  as 0 (`RoundTripExactly`; `TwoBytesMisread`, `ThreeBytesMisplace`, `AllEntriesLost`).
* `RangeList::expand` by 0 does not cut off what lies beyond the maximum (`Expand`; `ExpandByNothing`).
* `ReadWriteMutex` with no permits excludes nobody (`ExclusionExactly`; `NoPermitsNoExclusion`).
* `normalizePath` makes a relative path absolute that leads down without leading up, and an absolute path in which no
  name survives relative (`MeaningKeptExactly`; `NameBecomesAbsolute`, `RootBecomesEmpty`).
* Keys of SIO user data end at their first NUL, and then the length of the header is wrong too (`PrintThenParse`;
  `KeyIsCut`).
* `nChooseK` needs room for k times its result, not only for its result (`NChooseK`; `NChooseTwoTooSmall`).
* `waitGroup` waits for ever when a null pointer is in the group, or when there is no worker for it
  (`ReturnsExactly`; `NullNeverReturns`).

Assumptions: sizes, offsets and counts of TIFF are unbounded and assumed to fit 32 bits, the end of a directory
explicitly so; the seekable stream is a byte sequence with a cursor that fills gaps with zeros; the semaphore of
the reader/writer lock starts with `mMaxReaders` permits; the queue of the thread pool is first in, first out, and
`dequeue` blocks until it is not empty; fewer than 2^30 threads use a condition variable, so that a release that the
semaphore's limit refuses finds enough tokens.

## Model

| member | source | states |
|---|---|---|
| `TiledReader.RoundTrip` | modules/c++/tiff/source/ImageWriter.cpp:314-460 | whatever the image and tile sizes, and however the raster is cut into calls on either side, what comes back is the image, and what the file held before the image is still there |
| `TiledReader.WriteImage` | modules/c++/tiff/source/ImageWriter.cpp:314-460 | any run of putTileData calls that adds up to the raster leaves the whole padded image in the file, and touches nothing outside of its tiles |
| `TiledReader.ReadImage` | modules/c++/tiff/source/ImageReader.cpp:136-215 | any run of getTileData calls that adds up to the raster returns the image that the file holds |
| `TiledWriter.ImageWriter.PutTileData` | modules/c++/tiff/source/ImageWriter.cpp:314-460 | one call, begun and ended anywhere in the raster, extends the prefix of the raster that is settled in the tiles; the call that completes the raster completes the image, padding included |
| `TiledWriter.ImageWriter.WriteTiles` | modules/c++/tiff/source/ImageWriter.cpp:336-418 | the outer loop ends, and settles every tile as far as the raster up to the end of the call does |
| `TiledWriter.ImageWriter.MoveOn` | modules/c++/tiff/source/ImageWriter.cpp:338-344 | at the head of the outer loop the position is set to the end of what was written exactly when that is the beginning of the tile row below, and stays otherwise |
| `TiledWriter.ImageWriter.WriteTile` | modules/c++/tiff/source/ImageWriter.cpp:346-418 | one pass of it writes all that this call has for the tile at the position, changes no byte of any other tile or outside of the tiles, and makes progress |
| `TileGathering.GatherTile` | modules/c++/tiff/source/ImageWriter.cpp:376-410 | the inner loop ends, stays inside the copy buffer and the caller's buffer, and gathers for the tile each byte that belongs there, with the padding of the right edge between the lines |
| `TileGathering.CopyLine` | modules/c++/tiff/source/ImageWriter.cpp:376-410 | one pass copies at least one byte of one image line, and never beyond the tile column |
| `TiledWriter.ImageWriter.PadBottom` | modules/c++/tiff/source/ImageWriter.cpp:422-459 | the last tile row is filled with zeros below the image, exactly where there is no image, and the cursor ends behind the last tile |
| `TiledWriter.ImageWriter.InitTiles` | modules/c++/tiff/source/ImageWriter.cpp:231-265 | fails, by a division by zero, exactly when the ideal size is smaller than one element; otherwise the tiles are square with a side that is a multiple of 16, and laid out from the cursor on |
| `TiledWriter.TileSide` | modules/c++/tiff/source/ImageWriter.cpp:233-236 | the side is the least multiple of 16 that is no smaller than the largest side of a square of elements within the ideal size |
| `TiledWriter.ImageWriter.LayTiles` | modules/c++/tiff/source/ImageWriter.cpp:238-265 | for any side, the tile offsets and byte counts lay the tiles one behind the other, row by row, from the cursor on |
| `TiledWriter.TileEntries` | modules/c++/tiff/source/ImageWriter.cpp:250-259 | offset t is the first one plus t tile sizes |
| `TiledWriter.RemainingBytesInTile` | modules/c++/tiff/source/ImageWriter.cpp:357-365 | what putTileData computes as the rest of the tile is the number of image bytes, without padding, that the tile still misses |
| `TiledReader.ImageReader.GetTileData` | modules/c++/tiff/source/ImageReader.cpp:136-215 | one call returns exactly the next bytes of the raster, and moves the cursor by as many |
| `TiledReader.ImageReader.Locate` | modules/c++/tiff/source/ImageReader.cpp:172-200 | the seek position is the address of the raster position in its tile, and the run that follows stays in one line of one tile |
| `TilePosition.LocateTile` | modules/c++/tiff/source/ImageReader.cpp:172-186 | row, column, tile index and padding computed from a raster position are those of its tile |
| `TilePosition.Columns` | modules/c++/tiff/source/ImageReader.cpp:140-165 | the number of tiles across, counted in elements, is that of the grid in bytes, and the padding completes the right edge |
| `TilePosition.LastColumn` | modules/c++/tiff/source/ImageWriter.cpp:360-361 | the integer quotient that switches the padding on is 1 in the last tile column and 0 elsewhere |
| `TilePosition.Spot.Readable` | modules/c++/tiff/source/ImageReader.cpp:172-207 | the padded tile layout has the byte of every raster position at the computed address |
| `TilePosition.PixelInFile` | modules/c++/tiff/source/ImageWriter.cpp:231-265 | in plain numbers, the address of each byte of the padded image: tile row by tile row, tile by tile, line by line; zeros beyond the right edge and below the last line |
| `TiledReader.ImageIsUnique` | modules/c++/tiff/source/ImageReader.cpp:136-215 | a file holds at most one image: the layout loses nothing |
| `TiledImage.TilesApart` | modules/c++/tiff/source/ImageWriter.cpp:231-265 | two addresses of tiles are equal only for the same offset of the same tile, so that a write never reaches another tile |
| `TiledImage.WriteSettles` | modules/c++/tiff/source/ImageWriter.cpp:403-416 | a write of the bytes that belong to a tile settles them and unsettles nothing that was settled before |
| `TileSweep.Sweep.PassedEnd` | modules/c++/tiff/source/ImageWriter.cpp:336-418 | once the order in which tiles are visited has passed the end of the data, all of the data is copied |
| `TileSweep.Sweep.StillInside` | modules/c++/tiff/source/ImageWriter.cpp:336-418 | while bytes of a tile row are missing, the visit is still before the end of the data: the outer loop cannot run away |
| `TileSweep.Sweep.Advance` | modules/c++/tiff/source/ImageWriter.cpp:336-418 | finishing a tile moves the visit by one tile column and accounts for exactly its bytes |
| `TileSweep.Sweep.AllSwept` | modules/c++/tiff/source/ImageWriter.cpp:336-418 | when the byte count of the call is reached, no tile column misses a byte |
| `TileSweepContent.SweepEnds` | modules/c++/tiff/source/ImageWriter.cpp:336-418 | the bytes settled tile by tile in one call are the prefix of the raster up to its end |
| `TileSweepContent.MovesOn` | modules/c++/tiff/source/ImageWriter.cpp:338-344 | the test at the head of the outer loop moves to the tile row below exactly when the present one is complete |
| `TileSweepContent.TileWritten` | modules/c++/tiff/source/ImageWriter.cpp:403-416 | writing what was gathered settles the tile to the end of the call and leaves all other tiles as they are |
| `TileBottom.WholeImage` | modules/c++/tiff/source/ImageWriter.cpp:422-459 | the raster together with the padded bottom row is the whole image |
| `TileLayout.Tiling.CellAt` | modules/c++/tiff/source/ImageWriter.cpp:314-460 | the byte at an offset of a tile is the pixel of its line and column, or padding |
| `StrippedImage.RoundTrip` | modules/c++/tiff/source/ImageWriter.cpp:462-487 | for every image and ideal chunk size, and any cut into calls on either side, the image comes back, and it lies in the file unbroken behind what was there |
| `StrippedImage.ImageWriter.InitStrips` | modules/c++/tiff/source/ImageWriter.cpp:267-312 | the strips are not empty, begin one behind the other, all but the last are of one size, and together they are the image; they have one line if a line is longer than the ideal size, and otherwise as many as fit into one and a half times that |
| `StrippedImage.LastStrip` | modules/c++/tiff/source/ImageWriter.cpp:277-308 | the strips before the last do not reach the end of the image, and one more of full size would: the remainder for the last is positive and no larger than a strip |
| `StrippedImage.ImageWriter.PutStripData` | modules/c++/tiff/source/ImageWriter.cpp:462-487 | one call appends exactly its bytes, and the call that completes the image leaves strips that hold it |
| `StrippedImage.StripOf` | modules/c++/tiff/source/ImageWriter.cpp:470-477 | quotient and remainder by the first strip's size find the strip and the place in it, also in the shorter last strip |
| `StrippedImage.UniformImage` | modules/c++/tiff/source/ImageWriter.cpp:267-312 | equal strips from one position on hold, in strip order, what was written through from there |
| `StrippedImage.ImageReader.GetStripData` | modules/c++/tiff/source/ImageReader.cpp:82-134 | for strips of any sizes at any offsets, empty ones included, a call returns the next bytes of the image; it fails exactly when it asks for more than there are, and then has returned all of them |
| `StrippedImage.PieceOfImage` | modules/c++/tiff/source/ImageReader.cpp:100-133 | a piece of a strip is a piece of the image, at the sum of the byte counts before it |
| `StrippedImage.WriteImage` | modules/c++/tiff/source/ImageWriter.cpp:462-487 | any run of putStripData calls that adds up to the image writes it |
| `StrippedImage.ReadImage` | modules/c++/tiff/source/ImageReader.cpp:82-134 | any run of getStripData calls that adds up to the image returns it, also when calls end at the end of a strip |
| `StreamSplitting.SplitAll` | modules/c++/io/source/StreamSplitter.cpp:62-118 | for every input, delimiter, buffer size and pattern of short reads, the substrings are the split of the whole input, as many as are counted, and the bytes processed end at its length; an empty delimiter or a buffer below twice the delimiter plus one is refused |
| `StreamSplitting.StreamSplitter.GetNext` | modules/c++/io/source/StreamSplitter.cpp:62-118 | each call ends and returns one more part of the split; false exactly at the end, with the substring left alone |
| `StreamSplitting.StreamSplitter.Create` | modules/c++/io/source/StreamSplitter.cpp:32-60 | the constructor's two refusals, and the state it begins with |
| `StreamSplitting.StreamSplitter.GetNumBytesProcessed` | modules/c++/io/source/StreamSplitter.cpp:135-138 | the count is the position in the stream where the next substring starts, and the length of the stream at the end |
| `StreamSplitting.StreamSplitter.GetNumSubstringsReturned` | modules/c++/io/source/StreamSplitter.cpp:125-128 | the number of substrings that were returned so far |
| `StreamSplitting.StreamSplitter.GetNumBytesReturned` | modules/c++/io/source/StreamSplitter.cpp:130-133 | the bytes of all returned substrings together, without delimiters |
| `StreamSplitting.StreamSplitter.HandleStreamRead` | modules/c++/io/source/StreamSplitter.cpp:158-186 | shifting and reading keep the window on the stream; when nothing was read the buffer is full from its first half on, so that the caller makes progress |
| `StreamSplitting.StreamSplitter.FindDelimiter` | modules/c++/io/source/StreamSplitter.cpp:79-98 | finds the first delimiter in the window, or none begins where it could still be complete |
| `StreamSplitting.StreamSplitter.TransferBufferSegmentToSubstring` | modules/c++/io/source/StreamSplitter.cpp:140-156 | the substring stays what the stream holds from its start up to the window |
| `StreamSplitting.InputStream.Read` | modules/c++/io/include/io/InputStream.h:120-128 | reads of any positive size until the end, where it returns 0 or -1 |
| `LeftmostSplit.SplitOfJoin` | modules/c++/io/source/StreamSplitter.cpp:62-118 | the specification: parts none of which holds the delimiter, nor begins one across its end, are the split of what they join to; there is only one such list |
| `LeftmostSplit.JoinOfSplit` | modules/c++/io/source/StreamSplitter.cpp:62-118 | joining the parts of a split with the delimiter gives the input, and the parts are such a list |
| `IFDRoundTrip.RoundTripExactly` | modules/c++/tiff/source/IFD.cpp:91-139 | reading a stored directory gives the same tags, types and values, and finds the next offset where it was put, if and only if there are fewer than 65536 entries and each is readable |
| `IFDRoundTrip.TwoBytesMisread` | modules/c++/tiff/source/IFDEntry.cpp:66-78 | a directory with two different values of one byte is read with the first of them twice |
| `IFDRoundTrip.ThreeBytesMisplace` | modules/c++/tiff/source/IFDEntry.cpp:66-78 | with three values of one byte, or none, the next offset is before the place where a reader looks for it |
| `IFDRoundTrip.AllEntriesLost` | modules/c++/tiff/source/IFD.cpp:116-119 | a directory of 65536 entries is read as an empty one |
| `ImageFileDirectory.SerializeThenDeserialize` | modules/c++/tiff/source/IFD.cpp:91-139 | the same for serialize followed by deserialize into an empty directory, in either byte order of the machine |
| `ImageFileDirectory.ReadIntoEmpty` | modules/c++/tiff/source/IFD.cpp:98-103 | the same for a reader that keeps the entries in a map by tag |
| `ImageFileDirectory.IFD.Serialize` | modules/c++/tiff/source/IFD.cpp:106-139 | the file holds count, table, next offset and all data blocks; bytes before are untouched; the cursor ends behind the data |
| `ImageFileDirectory.IFD.Finalize` | modules/c++/tiff/source/IFD.cpp:213-231 | each entry that needs it gets the next place behind the table, in tag order, and the result is the end of the last one |
| `ImageFileDirectory.IFD.Deserialize` | modules/c++/tiff/source/IFD.cpp:91-104 | entries are set by tag in the order they are read; it fails on a short file and on a type without values |
| `ImageFileDirectory.IFD.AddEntry` | modules/c++/tiff/source/IFD.cpp:65-70 | sets the entry of its tag |
| `ImageFileDirectory.IFDEntry.Finalize` | modules/c++/tiff/source/IFDEntry.cpp:222-234 | counts the values, and takes space exactly if they need more than four bytes |
| `ImageFileDirectory.IFDEntry.Serialize` | modules/c++/tiff/source/IFDEntry.cpp:36-79 | writes the table bytes at the cursor and large values at the offset, and leaves the cursor behind the table bytes |
| `ImageFileDirectory.IFDEntry.WriteRepeated` | modules/c++/tiff/source/IFDEntry.cpp:66-78 | small values are each repeated (4 / count) / size times |
| `ImageFileDirectory.IFDEntry.Deserialize` | modules/c++/tiff/source/IFDEntry.cpp:86-154 | reads twelve bytes, and the values from the slot or from the offset |
| `ImageFileDirectory.IFDEntry.ParseValues` | modules/c++/tiff/source/IFDEntry.cpp:209-220 | cuts the buffer into count values, or fails for a type that has none |
| `ImageFileDirectory.EntryWritten` | modules/c++/tiff/source/IFDEntry.cpp:36-79 | writing entry i extends the table and adds its data block, and keeps all that was written before |
| `IFDRoundTrip.DataApart` | modules/c++/tiff/source/IFD.cpp:213-231 | the data blocks lie behind the table, in order, and apart from one another |
| `IFDRoundTrip.TableLength` | modules/c++/tiff/source/IFDEntry.cpp:66-78 | the table is twelve bytes an entry if and only if every entry fills its slot; otherwise it is shorter |
| `IFDFormat.SlotLength` | modules/c++/tiff/source/IFDEntry.cpp:66-78 | a small entry fills its four bytes unless it has no value, or three values of one byte |
| `IFDFormat.SlotReread` | modules/c++/tiff/source/IFDEntry.cpp:66-78 | of the small entries that fill their slot, those read back are the ones with one value, four bytes, or two equal bytes |
| `IFDFormat.CutOfConcat` | modules/c++/tiff/source/IFDEntry.cpp:209-220 | parsing inverts writing values one behind the other |
| `IFDFormat.ValueRead` | modules/c++/tiff/source/Common.cpp:29-30 | each value that is read has 1, 2, 4 or 8 bytes as its type says, and comes from the slot if all values of the entry take at most four bytes, and from the offset otherwise |
| `IFDFormat.EntryReadable` | modules/c++/tiff/source/IFDEntry.cpp:86-154 | an entry can be read if and only if its type is one of the twelve and its values lie in the file, or it has type 0 and no values |
| `IFDFormat.TwoShorts` | modules/c++/tiff/source/IFDEntry.cpp:86-154 | the bytes of a BitsPerSample entry are read as two SHORTs |
| `IFDFormat.OneLong` | modules/c++/tiff/source/IFDEntry.cpp:86-154 | the bytes of an ImageWidth entry are read as a LONG |
| `IFDFormat.OneRational` | modules/c++/tiff/source/IFDEntry.cpp:86-154 | the bytes of an XResolution entry are read as a RATIONAL at the offset |
| `IFDRoundTrip.StoredShorts` | modules/c++/tiff/source/IFD.cpp:106-139 | the bytes of a whole directory with three SHORTs |
| `IFDOrder.PutKeepsOrder` | modules/c++/tiff/source/IFD.cpp:102 | setting an entry keeps the directory in ascending order of tags |
| `IFDOrder.PutKeepsOthers` | modules/c++/tiff/source/IFD.cpp:102 | setting an entry keeps the entries of all other tags, and no others appear |
| `IFDOrder.PutAllKeeps` | modules/c++/tiff/source/IFD.cpp:98-103 | any entries read into a directory leave it in ascending order, one for each tag |
| `IFDOrder.PutAllAscending` | modules/c++/tiff/source/IFD.cpp:98-103 | ascending entries read into an empty directory come out as they are |
| `ByteOrders.DecodeOfEncode` | modules/c++/tiff/source/IFDEntry.cpp:93-97 | a number written in a byte order is read back in it |
| `ByteOrders.EncodeSwapped` | modules/c++/sio.lite/source/StreamReader.cpp:42-45 | swapping the bytes of a number turns one byte order into the other |
| `MinidomHandling.Parse` | modules/c++/xml.lite/source/MinidomHandler.cpp:44-139 | feeding all events of a document, its text cut anywhere and between children, builds exactly its element tree, and leaves the handler empty |
| `MinidomHandling.ElementRun` | modules/c++/xml.lite/source/MinidomHandler.cpp:44-139 | with any elements open around it, an element is built as its document says, attached to its parent or as the root, and the shared buffer is left as it was found |
| `MinidomHandling.BufferIsShared` | modules/c++/xml.lite/source/MinidomHandler.cpp:44-90 | after any events the buffer is the texts of the open elements one behind the other, with the recorded lengths; the handler fails exactly where events are not well nested |
| `MinidomHandling.DomOfTree` | modules/c++/xml.lite/source/MinidomHandler.cpp:73-90 | a document comes back as it was if and only if character data is preserved or no text has white space at its ends |
| `MinidomHandling.TextOfElement` | modules/c++/xml.lite/source/MinidomHandler.cpp:73-111 | of the text of an element exactly the characters with codes 9 to 13 and 32 at its ends are dropped, or none if it is preserved |
| `MinidomHandling.MinidomHandler.StartElement` | modules/c++/xml.lite/source/MinidomHandler.cpp:55-70 | one step of the specification |
| `MinidomHandling.MinidomHandler.HandleCharacters` | modules/c++/xml.lite/source/MinidomHandler.cpp:44-53 | one step of the specification; characters outside of an element violate the assertion |
| `MinidomHandling.MinidomHandler.EndElement` | modules/c++/xml.lite/source/MinidomHandler.cpp:113-139 | one step of the specification |
| `MinidomHandling.MinidomHandler.AdjustCharacterData` | modules/c++/xml.lite/source/MinidomHandler.cpp:73-90 | takes the innermost element's text off the buffer, trimmed unless it is to be preserved |
| `Trimming.TrimString` | modules/c++/xml.lite/source/MinidomHandler.cpp:92-111 | the two loops cut off white space at both ends |
| `Trimming.TrimCutsSpace` | modules/c++/xml.lite/source/MinidomHandler.cpp:92-111 | what is cut off at both ends is white space only |
| `Trimming.TrimIsUnique` | modules/c++/xml.lite/source/MinidomHandler.cpp:92-111 | there is only one way to cut white space off until neither end is white space |
| `Trimming.SpaceCodes` | modules/c++/xml.lite/source/MinidomHandler.cpp:92-111 | white space are the characters with codes 9 to 13 and 32 |
| `ConditionVariable.StepInv` | modules/c++/sys/source/ConditionVarWin32.cpp:73-202 | every step of every thread keeps the protocol's invariant |
| `ConditionVariable.BroadcastReturns` | modules/c++/sys/source/ConditionVarWin32.cpp:173-202 | in every run, when broadcast returns, every waiter it found has passed the semaphore, uncounted itself and queues for the mutex; the event was set exactly once; nobody can read mWasBroadcast while it is reset without the lock |
| `ConditionVariable.TokensCoverBlocked` | modules/c++/sys/source/ConditionVarWin32.cpp:181-187 | while a broadcast waits there is a token for each waiter that is still blocked, and only waiters that it found are counted |
| `ConditionVariable.SomeStep` | modules/c++/sys/source/ConditionVarWin32.cpp:127-202 | until a broadcast has returned some thread can take a step: no waiter is stranded |
| `ConditionVariable.EveryStepCounts` | modules/c++/sys/source/ConditionVarWin32.cpp:127-202 | every step that any thread takes meanwhile lowers a rank |
| `ConditionVariable.BroadcastTerminates` | modules/c++/sys/source/ConditionVarWin32.cpp:173-202 | under every schedule a broadcast returns within as many steps as the rank |
| `ConditionVariable.SignalFindsWaiters` | modules/c++/sys/source/ConditionVarWin32.cpp:158-164 | in every run signal finds waiters if and only if a thread has counted itself and not uncounted itself yet |
| `ConditionVariable.SignalStays` | modules/c++/sys/source/ConditionVarWin32.cpp:158-171 | a signal that found waiters is not lost: whatever steps follow, each thread that is blocked can pass the semaphore until some thread does |
| `ConditionVariable.TokensAreGiven` | modules/c++/sys/source/ConditionVarWin32.cpp:158-187 | in every run the tokens and the passes of the semaphore together are no more than one for each signal that found waiters and the number of waiters for each broadcast, and just as many below the semaphore's limit |
| `ConditionVariable.EarlySignalIsLost` | modules/c++/sys/source/ConditionVarWin32.cpp:158-171 | the run: a signal before anybody waits leaves the thread that waits next blocked |
| `ConditionVariable.NoDeadlock` | modules/c++/sys/source/ConditionVarWin32.cpp:73-202 | unless every thread is outside or blocked without a token, some thread can go on with what it has begun: who was woken gets back to the mutex |
| `ConditionVariable.MutualExclusion` | modules/c++/sys/source/ConditionVarWin32.cpp:73-90 | at most one thread is past the external mutex |
| `RangeLists.RangeList.Insert` | modules/c++/types/source/RangeList.cpp:94-150 | the list stays sorted, with gaps and without empty ranges, and its set is the union |
| `RangeLists.RangeList.Remove` | modules/c++/types/source/RangeList.cpp:160-189 | the same, and its set is the difference |
| `RangeLists.RangeList.Intersect` | modules/c++/types/source/RangeList.cpp:214-245 | the two-pointer loop gives the canonical list of exactly the intersection |
| `RangeLists.RangeList.Expand` | modules/c++/types/source/RangeList.cpp:191-212 | the result is exactly the points below the maximum within the distance if and only if the distance is positive or no range ends beyond the maximum |
| `RangeLists.ExpandByNothing` | modules/c++/types/source/RangeList.cpp:193-196 | the input: expanding {0, 1} by 0 below 1 leaves the point 1 |
| `RangeLists.RangeList.GetTotalNumElements` | modules/c++/types/source/RangeList.cpp:76-84 | the sum of the lengths is the size of the set |
| `RangeLists.Difference` | modules/c++/types/source/RangeList.cpp:28-56 | at most two pieces, which are the range without the overlap |
| `RangeLists.MergingMerges` | modules/c++/types/source/RangeList.cpp:130-142 | a range that overlaps or touches the back one is swallowed by it, and the union stays the same |
| `RangeLists.MergingPushes` | modules/c++/types/source/RangeList.cpp:143-146 | a range that does neither lies behind it |
| `RangeLists.FirstToEnd` | modules/c++/types/source/RangeList.cpp:224-242 | of two ranges the one that ends first shares nothing more than what the two share |
| `Ranges.ElementsCount` | modules/c++/types/source/RangeList.cpp:76-84 | a canonical list counts no point twice |
| `Ranges.CanonicalIsUnique` | modules/c++/types/source/RangeList.cpp:94-189 | two canonical lists of the same set are the same list |
| `RotatingFile.WriteAll` | modules/c++/io/source/RotatingFileOutputStream.cpp:26-95 | after any run of writes from a fresh start the backups are exactly 1 to the smaller of the backup count and the number of rollovers that limit and lengths of the writes call for; backups and current file are the end of all that was written, and all of it until a backup is first dropped; each file is a run of whole writes, too long only if a single one of them has any bytes, and given up only when the next write did not fit; a limit of 0 never rolls over |
| `RotatingFile.RotatingFileOutputStream.Write` | modules/c++/io/source/RotatingFileOutputStream.cpp:90-95 | one write keeps all of this, and the number of rollovers and the length of the file stay those that the writes call for |
| `RotatingFile.RotatingFileOutputStream.DoRollover` | modules/c++/io/source/RotatingFileOutputStream.cpp:58-88 | each file becomes one older, the oldest is replaced, and the current one is new |
| `RotatingFile.RotatingFileOutputStream.ShiftBackups` | modules/c++/io/source/RotatingFileOutputStream.cpp:66-80 | the renaming loop never overwrites a backup that is yet to be moved |
| `RotatingFile.KeptIsSuffix` | modules/c++/io/source/RotatingFileOutputStream.cpp:58-95 | the files together, oldest first, are the last writes one behind the other |
| `RotatingFile.LongFiles` | modules/c++/io/source/RotatingFileOutputStream.cpp:37-56 | a file that is longer than the limit holds nothing but one of the writes |
| `SioHeader.PrintThenParse` | modules/c++/sio.lite/source/FileHeader.cpp:105-185 | in any byte orders of writer and reader the numbers, version and byte order flag come back and the reader stops right behind the header; the user data comes back if and only if no key has a NUL in it, and so does the length by which the program seeks; for more than two bands types 1 and 2 become 21 and 22 with the element size multiplied, and for other types the lines are multiplied, in 32 bits; it prints if and only if the type is one of eight |
| `SioHeader.FileHeader.To` | modules/c++/sio.lite/source/FileHeader.cpp:105-157 | prints the header, or fails on an unknown type before printing; more than two bands change type and size of byte elements, and the number of lines for the others |
| `SioHeader.FileHeader.WriteUserData` | modules/c++/sio.lite/source/FileHeader.cpp:159-185 | count, and for each field the key with its NUL and the data, both with their lengths |
| `SioHeader.FileHeader.GetLength` | modules/c++/sio.lite/source/FileHeader.cpp:64-81 | the length of the printed header |
| `SioHeader.FileHeader.AddUserData` | modules/c++/sio.lite/source/FileHeader.cpp:198-202 | sets a field and keeps keys distinct |
| `SioHeader.StreamReader.CheckMagic` | modules/c++/sio.lite/source/StreamReader.cpp:49-91 | decides as its specification, of which MagicReread and OnlyMagic say the meaning; moves behind the magic bytes |
| `SioHeader.StreamReader.GetNextInteger` | modules/c++/sio.lite/source/StreamReader.cpp:31-47 | the next four bytes, swapped if the order differs |
| `SioHeader.StreamReader.ReadType2Header` | modules/c++/sio.lite/source/StreamReader.cpp:140-167 | the fields one after the other, each added to the dictionary |
| `SioHeader.StreamReader.ParseHeader` | modules/c++/sio.lite/source/StreamReader.cpp:110-130 | what the bytes mean, or failure |
| `SioFormat.HeaderReread` | modules/c++/sio.lite/source/StreamReader.cpp:110-130 | a reader of any byte order reads the header of a writer of any byte order; only keys end at their first NUL |
| `SioFormat.PrintedHeader` | modules/c++/sio.lite/source/FileHeader.cpp:105-185 | the bytes of a whole header with one field of user data |
| `SioFormat.MagicReread` | modules/c++/sio.lite/source/StreamReader.cpp:49-91 | the magic number of each byte order is recognised as that order and version by readers of both |
| `SioFormat.OnlyMagic` | modules/c++/sio.lite/source/StreamReader.cpp:49-91 | what is recognised are the bytes of the magic number of the reported version in the reported order, and nothing else |
| `SioFormat.IntReread` | modules/c++/sio.lite/source/StreamReader.cpp:31-47 | integers cross byte orders |
| `SioFormat.AddAllExactly` | modules/c++/sio.lite/source/StreamReader.cpp:146-166 | distinct keys survive if and only if none has a NUL in it |
| `SioFormat.LengthExactly` | modules/c++/sio.lite/source/FileHeader.cpp:64-81 | fields of distinct keys that were read back take as many bytes again if and only if no key has a NUL in it |
| `SioFormat.KeyIsCut` | modules/c++/sio.lite/source/StreamReader.cpp:146-166 | the input: a key with a NUL in the middle comes back as the part before it, and the header as two bytes shorter |
| `SioFormat.WithoutKey` | modules/c++/sio.lite/include/sio/lite/UserDataDictionary.h:91-102 | removing a key removes its field only, and keeps the order |
| `SioFormat.AddDistinct` | modules/c++/sio.lite/include/sio/lite/UserDataDictionary.h:81-89 | adding keeps keys distinct |
| `ReadersWriter.StepInv` | modules/c++/sys/source/ReadWriteMutex.cpp:27-60 | every step keeps the permits together, and lets one writer at a time take them |
| `ReadersWriter.WriterExcludes` | modules/c++/sys/source/ReadWriteMutex.cpp:38-51 | in every run with at least one permit, a thread past lockWrite is alone: no reader, no other writer, and nobody holds a permit |
| `ReadersWriter.ExclusionExactly` | modules/c++/sys/source/ReadWriteMutex.cpp:38-51 | the lock excludes if and only if mMaxReaders is positive |
| `ReadersWriter.NoPermitsNoExclusion` | modules/c++/sys/source/ReadWriteMutex.cpp:43-50 | the run in which, without a permit, two threads are past lockWrite |
| `ReadersWriter.OneTakes` | modules/c++/sys/source/ReadWriteMutex.cpp:42-50 | two writers never both hold some permits and want more |
| `ReadersWriter.NoDeadlock` | modules/c++/sys/source/ReadWriteMutex.cpp:27-60 | unless all threads are outside one of them can go on: a writer that lacks permits waits for holders that can give them back |
| `ReadersWriter.ReadersShare` | modules/c++/sys/source/ReadWriteMutex.cpp:27-36 | in every run at most mMaxReaders threads read, and while nobody is on the way to write or back a waiting reader is let in if and only if fewer read |
| `ReadersWriter.ReadersTogether` | modules/c++/sys/source/ReadWriteMutex.cpp:27-31 | a run after which as many threads read at once as there are permits |
| `GenerationPool.StepInv` | modules/c++/mt/source/GenerationThreadPool.cpp:45-91 | pending, queued, running and signalled jobs are what the producer still waits for, and each job of the group is in exactly one place, after every step |
| `GenerationPool.GroupComplete` | modules/c++/mt/source/GenerationThreadPool.cpp:83-91 | in every run with any number of workers, when waitGroup returns each task of the group has run exactly as often as it was listed, nobody still has one, and no signal is left |
| `GenerationPool.AddGroupInv` | modules/c++/mt/source/GenerationThreadPool.cpp:71-80 | a group is refused unless the last one is complete, and then nothing of that is left: no job pending, queued or running, no signal, and no null taken |
| `GenerationPool.JobsInOrder` | modules/c++/mt/source/GenerationThreadPool.cpp:76-79 | in every run jobs are taken in the order of the group: what is left in the queue are its last ones |
| `GenerationPool.EveryStepCounts` | modules/c++/mt/source/GenerationThreadPool.cpp:83-91 | while the producer waits every step lowers a rank |
| `GenerationPool.WaitTerminates` | modules/c++/mt/source/GenerationThreadPool.cpp:83-91 | under every schedule waitGroup returns within as many steps as the rank |
| `GenerationPool.ReturnsExactly` | modules/c++/mt/source/GenerationThreadPool.cpp:45-91 | in every state that can be reached with the producer waiting, waitGroup comes back under all schedules, without a state where nobody can go on, if and only if the group has no null and there is a worker or nothing to do |
| `GenerationPool.SomeStep` | modules/c++/mt/source/GenerationThreadPool.cpp:45-91 | while the producer waits for such a group some step is always possible |
| `GenerationPool.GetsStuck` | modules/c++/mt/source/GenerationThreadPool.cpp:45-91 | for any other group every waiting state leads to one where nobody can take a step, without a return |
| `GenerationPool.NullNeverReturns` | modules/c++/mt/source/GenerationThreadPool.cpp:56-57 | the run: one worker and a group of one null, after which nobody can take a step |
| `Replacing.EscapeForXML` | modules/c++/str/source/Manip.cpp:269-280 | the seven passes equal one pass that looks at each character once, on every string |
| `Replacing.EachEscaped` | modules/c++/str/source/Manip.cpp:273-279 | what becomes of each of the seven characters, wherever it stands; all others stay |
| `Replacing.ReplaceAll` | modules/c++/str/source/Manip.cpp:124-136 | replaces every leftmost occurrence, and ends for every search string that is not empty, also when the replacement contains it |
| `Replacing.Replace` | modules/c++/str/source/Manip.cpp:104-122 | replaces the first occurrence behind the start |
| `Replacing.ReplacedIsJoin` | modules/c++/str/source/Manip.cpp:124-136 | replacing is splitting at the search string and joining with the replacement |
| `Replacing.EmptySearchMakesNoProgress` | modules/c++/str/source/Manip.cpp:128-135 | with an empty search string a turn of the loop gets no nearer to its end |
| `Replacing.PassIs` | modules/c++/str/source/Manip.cpp:273-279 | a pass does not touch what the passes before it have put in |
| `Replacing.DecodedOfEscaped` | modules/c++/str/source/Manip.cpp:269-280 | decoding the references recovers the text |
| `Replacing.EscapingIsInjective` | modules/c++/str/source/Manip.cpp:269-280 | different texts are escaped differently |
| `Replacing.EscapedIsSafe` | modules/c++/str/source/Manip.cpp:269-280 | no escaped character is left but ampersands that begin a reference |
| `Paths.Separate` | modules/c++/sys/source/Path.cpp:137-151 | ends, and gives the same components as the tokenizer, for every string |
| `Paths.SplitPath` | modules/c++/sys/source/Path.cpp:180-205 | the components of a path are those of its root and then its base; the root is a shorter beginning of the path, absolute exactly if the path is and there is a base, without slashes at its end, unless it is only slashes and then all of them; the base has no slash |
| `Tokenizing.Tokenize` | modules/c++/str/source/Tokenizer.cpp:27-49 | the longest runs without delimiters |
| `Tokenizing.TokensArePlain` | modules/c++/str/source/Tokenizer.cpp:27-49 | no token is empty or has a delimiter in it |
| `Tokenizing.TokensConcat` | modules/c++/str/source/Tokenizer.cpp:27-49 | a delimiter separates: the tokens of both sides, one behind the other |
| `Paths.NormalizePath` | modules/c++/sys/source/Path.cpp:62-117 | prints the resolution of the path's components |
| `Paths.NormalizedIsIdempotent` | modules/c++/sys/source/Path.cpp:62-117 | normalizing twice is normalizing once, for every string |
| `Paths.NormalizedAbsolute` | modules/c++/sys/source/Path.cpp:62-117 | the components of a normalized absolute path are the names that survive when the path is read from its end, each ".." taking away one name; none is empty, "." or ".." |
| `Paths.NormalizedIsTidy` | modules/c++/sys/source/Path.cpp:104-116 | a normalized path has no two slashes next to each other and none at its end |
| `Paths.DotsAreResolved` | modules/c++/sys/source/Path.cpp:62-117 | an example with a dot, two dots and a double slash |
| `Paths.ResolvedIsBehind` | modules/c++/sys/source/Path.cpp:79-98 | the deque and the counter hold what the reading from the end says |
| `Paths.MeaningKeptExactly` | modules/c++/sys/source/Path.cpp:62-117 | the normalized path leads to the same directory from every directory if and only if the path is absolute and a name survives in it, or it is relative and leads up or has no name that survives |
| `Paths.NameBecomesAbsolute` | modules/c++/sys/source/Path.cpp:62-117 | the input "a", which becomes "/a" and leads somewhere else |
| `Paths.RootBecomesEmpty` | modules/c++/sys/source/Path.cpp:62-117 | the input "/", which becomes the empty path and leads somewhere else |
| `Binomial.NChooseK` | modules/c++/math/source/Utilities.cpp:29-47 | fails for more outcomes than possibilities; in 64 bits the result is the binomial coefficient if and only if k times it fits, and otherwise it is too small |
| `Binomial.NChooseTwoTooSmall` | modules/c++/math/source/Utilities.cpp:29-47 | the input: 2 of 2^32 + 1, where the coefficient fits into 64 bits and the result is smaller |
| `Binomial.Step` | modules/c++/math/source/Utilities.cpp:41-45 | each division is exact as long as no product has wrapped around |
| `Binomial.Absorption` | modules/c++/math/source/Utilities.cpp:41-45 | the identity behind it, on Pascal's triangle |
| `Binomial.FitsExactly` | modules/c++/math/source/Utilities.cpp:41-45 | no product wraps around if and only if the last one does not |
| `ScratchBuffers.ScratchMemory.Setup` | modules/c++/mem/source/ScratchMemory.cpp:172-211 | lays out all buffers in the given or own memory; refuses memory that is too small or null |
| `ScratchBuffers.Carve` | modules/c++/mem/source/ScratchMemory.cpp:196-210 | the buffers of a key are aligned, in order, apart, as near to each other as that allows, and inside the reserved bytes |
| `ScratchBuffers.ScratchMemory.Put` | modules/c++/mem/include/mem/ScratchMemory.hpp:35-64 | reserves behind all earlier reservations, so that the bytes needed are the most that were ever reserved; an existing key fails, but the space is taken |
| `ScratchBuffers.BuffersApart` | modules/c++/mem/source/ScratchMemory.cpp:196-210 | no two buffers overlap, of the same key or of different ones, and all lie in the memory and are aligned |
| `ScratchBuffers.Align` | modules/c++/mem/source/Align.cpp:26-34 | the smallest address from the given one on that is aligned |

## Left out

- TiledWriter.TileSide: takes the square root exactly, not in floating point; the round trip is for tiles of any side, not only for these.
- TiledWriter.ImageWriter.PutTileData: 32-bit wrap-around of offsets and the 16-bit variables for the tile length are not modelled; `validate` and the choice between tiles and strips are not either.
- TiledReader.ImageReader.GetTileData: requires that the call stays inside the raster; the program does not check this and would read beyond the tile offsets.
- StrippedImage.ImageReader.GetStripData: requires that the strips lie inside the file; a file cut off is not modelled.
- ImageFileDirectory.IFD.Serialize: values of an entry have the size of its type, and the entry points to no other entry's values; names of tags and `print` are left out.
- ImageFileDirectory.IFD.Deserialize: reads in the byte order of the machine only; byte-swapped reading, whose test for rationals can never hold, is left out. A type beyond the table of sizes, which the program reads out of bounds, counts as a failure, as does a short read.
- StreamSplitting.StreamSplitter.GetNext: a stream that returns 0 before its end would end the split early; the model's stream does not.
- MinidomHandling.Parse: elements are values, so that sharing and ownership of element objects, parent pointers and the document object are not modelled; qualified names and attributes are opaque.
- Trimming.TrimString: negative characters, for which `isspace` is undefined, are ordinary characters.
- ConditionVariable.StepInv: timed waits are left out, since a timeout during a broadcast changes the count; signal and broadcast are called with the external mutex held; acquisition of the inner critical section is one step with what it protects.
- RangeLists.RangeList.Expand: requires, for a positive distance, that no range begins more than the distance beyond the maximum, where the program's subtraction wraps around, and that ends plus distance do not overflow.
- RotatingFile.RotatingFileOutputStream.Write: I/O errors, other writers of the same files and backups that exist before the start are left out.
- SioHeader.StreamReader.ParseHeader: a short read, a negative length and an identifier without a NUL, which the program reads out of bounds, count as failures; a version above 2 is only reported.
- ReadersWriter.NoDeadlock: does not say that a writer gets its turn; readers can keep it waiting for ever.
- GenerationPool.GroupComplete: initialization and CPU affinity of workers, the queue's own lock and shutdown are left out; there is one producer.
- Replacing.ReplaceAll: requires a search string that is not empty, since the loop does not end otherwise.
- Paths.NormalizePath: drives and the backslash of Windows are left out, and so are joinPaths and splitExt.
- ScratchBuffers.ScratchMemory.Setup: `release`, which moves segments, is left out; addresses do not overflow.
- `Bessel`, `Line2D`, date arithmetic: floating point.
- Wrappers of the operating system, network, database, compression, regular expressions and parsers: no algorithm to see.
- Small members such as `NamespaceStack`, `Attributes`, `QName`, `Filter` and `ThreadPlanner`: true but easy.
