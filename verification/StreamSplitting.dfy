/** Splitting a stream at a delimiter through a sliding buffer, in short reads. */
module StreamSplitting {
  import opened Arithmetic
  import opened Sequences
  import opened Storage
  import opened LeftmostSplit

  /** A stream that delivers its contents in reads of any positive size until it ends. */
  class InputStream {
    const contents: seq<byte>
    var pos: nat

    constructor (contents: seq<byte>)
      ensures this.contents == contents && pos == 0
    {
      this.contents, pos := contents, 0;
    }

    method Read(buffer: array<byte>, at: nat, len: nat) returns (numRead: int)
      requires pos <= |contents| && 0 < len && at + len <= buffer.Length
      modifies `pos, buffer
      ensures numRead <= len && (numRead <= 0 <==> old(pos) == |contents|)
      ensures pos == old(pos) + (if 0 < numRead then numRead else 0) <= |contents|
      ensures buffer[..at] == old(buffer[..at])
      ensures 0 < numRead ==> buffer[at..at + numRead] == contents[old(pos)..pos]
    {
      if pos == |contents| {
        if * { numRead := 0; } else { numRead := -1; }
      } else {
        var n: nat :| 0 < n <= len && pos + n <= |contents|;
        forall k | 0 <= k < n {
          buffer[at + k] := contents[pos + k];
        }
        numRead, pos := n, pos + n;
      }
    }
  }

  /** The bytes of all parts together. */
  function TotalLength(parts: seq<seq<byte>>): nat
  {
    if parts == [] then 0 else TotalLength(parts[..|parts| - 1]) + |parts[|parts| - 1]|
  }

  class StreamSplitter {
    const delimiter: seq<byte>
    const inputStream: InputStream
    const buffer: array<byte>
    var bufferValidBegin: nat
    var bufferValidEnd: nat
    var numSubstringsReturned: nat
    var numBytesReturned: nat
    var numDelimitersProcessed: nat
    var streamEmpty: bool
    /** Every substring returned so far, and where in the stream the next one starts. */
    ghost var returned: seq<seq<byte>>
    ghost var start: nat

    constructor (inputStream: InputStream, delimiter: seq<byte>, bufferSize: nat)
      requires delimiter != [] && |delimiter| * 2 + 1 <= bufferSize && inputStream.pos == 0
      ensures Valid() && fresh(buffer) && this.inputStream == inputStream && this.delimiter == delimiter
        && buffer.Length == bufferSize
      ensures returned == [] && !streamEmpty
    {
      this.inputStream, this.delimiter, buffer := inputStream, delimiter, new byte[bufferSize](i => 0);
      bufferValidBegin, bufferValidEnd, streamEmpty := 0, 0, false;
      numSubstringsReturned, numBytesReturned, numDelimitersProcessed := 0, 0, 0;
      returned, start := [], 0;
    }

    /** Refuses an empty delimiter, and a buffer that is too small to keep half of it. */
    static method Create(inputStream: InputStream, delimiter: seq<byte>, bufferSize: nat)
      returns (splitter: StreamSplitter?)
      requires inputStream.pos == 0
      ensures splitter == null <==> delimiter == [] || bufferSize < |delimiter| * 2 + 1
      ensures splitter != null ==>
        && fresh(splitter) && fresh(splitter.buffer) && splitter.Valid() && splitter.returned == []
        && splitter.inputStream == inputStream && splitter.delimiter == delimiter && !splitter.streamEmpty
    {
      splitter := null;
      if delimiter != [] && |delimiter| * 2 + 1 <= bufferSize {
        splitter := new StreamSplitter(inputStream, delimiter, bufferSize);
      }
    }

    /** Where the valid part of the buffer begins in the stream. */
    ghost function Cursor(): int
      reads `bufferValidBegin, `bufferValidEnd, inputStream`pos
    {
      inputStream.pos - (bufferValidEnd - bufferValidBegin)
    }

    /** The valid part of the buffer is what was read of the stream last. */
    ghost predicate Window()
      reads `bufferValidBegin, `bufferValidEnd, `streamEmpty, buffer, inputStream`pos
    {
      && 0 < |delimiter| && |delimiter| * 2 + 1 <= buffer.Length
      && bufferValidBegin <= bufferValidEnd <= buffer.Length
      && 0 <= Cursor() && inputStream.pos <= |inputStream.contents|
      && (streamEmpty ==> inputStream.pos == |inputStream.contents|)
      && buffer[bufferValidBegin..bufferValidEnd] == inputStream.contents[Cursor()..inputStream.pos]
    }

    predicate IsEnd()
      reads `streamEmpty, `bufferValidBegin, `bufferValidEnd
    {
      streamEmpty && bufferValidBegin >= bufferValidEnd
    }

    /** What was returned, and what a split of the rest of the stream will give, is the split of the stream. */
    ghost predicate Valid()
      reads this, buffer, inputStream
    {
      && Window()
      && numSubstringsReturned == |returned| && numBytesReturned == TotalLength(returned)
      && start <= |inputStream.contents|
      && numBytesReturned + Times(numDelimitersProcessed, |delimiter|) == start
      && (if IsEnd() then
            && Split(inputStream.contents, delimiter) == returned
            && start == |inputStream.contents| && numDelimitersProcessed + 1 == |returned|
          else
            && Split(inputStream.contents, delimiter) == returned + SplitFrom(inputStream.contents, delimiter, start)
            && numDelimitersProcessed == |returned|
            && (if 0 < numDelimitersProcessed then
                  && Cursor() + |delimiter| == start && bufferValidBegin + |delimiter| <= bufferValidEnd
                  && At(inputStream.contents, delimiter, Cursor())
                else Cursor() == start == 0))
    }

    function GetNumSubstringsReturned(): (n: nat)
      requires Valid()
      reads this, buffer, inputStream
      ensures n == |returned|
    {
      numSubstringsReturned
    }

    function GetNumBytesReturned(): (n: nat)
      requires Valid()
      reads this, buffer, inputStream
      ensures n == TotalLength(returned)
    {
      numBytesReturned
    }

    /** Where the stream goes on behind the last substring and its delimiter. */
    method GetNumBytesProcessed() returns (n: nat)
      requires Valid()
      ensures n == start
      ensures IsEnd() ==> n == |inputStream.contents|
    {
      TimesIs(numDelimitersProcessed, |delimiter|);
      n := GetNumBytesReturned() + numDelimitersProcessed * |delimiter|;
    }

    /** The next substring; false, with the substring as it was, when there is none left. */
    method GetNext(substring0: seq<byte>) returns (ok: bool, substring: seq<byte>)
      requires Valid()
      modifies this, buffer, inputStream`pos
      ensures Valid()
      ensures ok <==> !old(IsEnd())
      ensures ok ==> returned == old(returned) + [substring]
      ensures !ok ==> substring == substring0 && returned == old(returned) && IsEnd()
    {
      hide First, SplitFrom, Split, TotalLength, Times, At, Window, NoneWithin, Collected, Valid, InProgress;
      ghost var contents := inputStream.contents;
      substring := substring0;
      if IsEnd() {
        return false, substring;
      }
      BeginSubstring();
      var substringSize: nat := 0;
      ok := true;
      Nothing(contents, delimiter, start, substring);
      while true
        invariant Window() && Cursor() == start + substringSize && InProgress()
        invariant returned == old(returned)
        invariant Collected(contents, start, substring, substringSize)
        invariant NoneWithin(contents, delimiter, start, start + substringSize)
        decreases |contents| - inputStream.pos, !streamEmpty, bufferValidEnd - bufferValidBegin
      {
        WindowBounds();
        HandleStreamRead();
        WindowBounds();
        var found, ii := FindDelimiter();
        if found {
          NoneJoins(contents, delimiter, start, Cursor(), Cursor() + ii - bufferValidBegin);
          substring, substringSize := TransferBufferSegmentToSubstring(substring, substringSize, ii);
          ReturnAtDelimiter(substring, substringSize);
          return;
        }
        substring, substringSize := TransferUndelimited(substring, substringSize);
        if IsEnd() {
          ReturnAtEnd(substring, substringSize);
          return;
        }
      }
    }

    /** What holds between the start of a substring and its end: the part of Valid() that does not
        speak of the buffer. */
    ghost predicate InProgress()
      reads `returned, `start, `numSubstringsReturned, `numBytesReturned, `numDelimitersProcessed
    {
      && delimiter != [] && start <= |inputStream.contents|
      && Split(inputStream.contents, delimiter) == returned + SplitFrom(inputStream.contents, delimiter, start)
      && numSubstringsReturned == numDelimitersProcessed == |returned| && numBytesReturned == TotalLength(returned)
      && numBytesReturned + Times(numDelimitersProcessed, |delimiter|) == start
    }

    lemma WindowBounds()
      requires Window()
      ensures bufferValidBegin <= bufferValidEnd <= buffer.Length && inputStream.pos <= |inputStream.contents|
      ensures 0 < |delimiter| && |delimiter| * 2 + 1 <= buffer.Length && 0 <= Cursor()
      ensures streamEmpty ==> inputStream.pos == |inputStream.contents|
    {
    }

    /** Discards the delimiter before the next substring. */
    method BeginSubstring()
      requires Valid() && !IsEnd()
      modifies `bufferValidBegin
      ensures Window() && Cursor() == start && InProgress() && start <= |inputStream.contents|
    {
      hide First, SplitFrom, Split, TotalLength, Times;
      if numDelimitersProcessed > 0 {
        WindowFrom(buffer[..], bufferValidBegin, bufferValidEnd, |delimiter|, inputStream.contents, inputStream.pos);
        bufferValidBegin := bufferValidBegin + |delimiter|;
      }
    }

    /** Counts the substring that a delimiter ends. */
    method ReturnAtDelimiter(substring: seq<byte>, substringSize: nat)
      requires Window() && InProgress() && Cursor() == start + substringSize && substringSize == |substring|
      requires bufferValidBegin + |delimiter| <= bufferValidEnd
      requires Collected(inputStream.contents, start, substring, substringSize)
      requires At(inputStream.contents, delimiter, Cursor())
        && NoneWithin(inputStream.contents, delimiter, start, Cursor())
      modifies `numDelimitersProcessed, `numSubstringsReturned, `numBytesReturned, `start, `returned
      ensures Valid() && returned == old(returned) + [substring]
    {
      hide First, SplitFrom, Split, TotalLength, Times, NoneWithin;
      numDelimitersProcessed := numDelimitersProcessed + 1;
      numSubstringsReturned := numSubstringsReturned + 1;
      numBytesReturned := numBytesReturned + substringSize;
      FoundNext(inputStream.contents, delimiter, start, substring, returned, numDelimitersProcessed - 1);
      start := start + |substring| + |delimiter|;
      returned := returned + [substring];
    }

    /** Counts the substring that the stream ends. */
    method ReturnAtEnd(substring: seq<byte>, substringSize: nat)
      requires Window() && InProgress() && IsEnd() && Cursor() == start + substringSize && substringSize == |substring|
      requires Collected(inputStream.contents, start, substring, substringSize)
      requires NoneWithin(inputStream.contents, delimiter, start, Cursor())
      modifies `numSubstringsReturned, `numBytesReturned, `start, `returned
      ensures Valid() && returned == old(returned) + [substring]
    {
      hide First, SplitFrom, Split, TotalLength, Times, NoneWithin;
      numSubstringsReturned := numSubstringsReturned + 1;
      numBytesReturned := numBytesReturned + substringSize;
      FoundLast(inputStream.contents, delimiter, start, substring, returned);
      start := |inputStream.contents|;
      returned := returned + [substring];
    }

    /** Makes room in the buffer when its first half is done with, and reads more into it. */
    method HandleStreamRead()
      requires Window()
      modifies `bufferValidBegin, `bufferValidEnd, `streamEmpty, buffer, inputStream`pos
      ensures Window() && Cursor() == old(Cursor())
      ensures old(streamEmpty) ==> streamEmpty
      ensures old(inputStream.pos) <= inputStream.pos
      ensures inputStream.pos == old(inputStream.pos) && streamEmpty == old(streamEmpty) ==>
        bufferValidEnd - bufferValidBegin == old(bufferValidEnd - bufferValidBegin)
        && (!streamEmpty ==> bufferValidEnd == buffer.Length && bufferValidBegin <= buffer.Length / 2)
    {
      if bufferValidBegin > buffer.Length / 2 {
        ShiftDown();
      }
      if !streamEmpty && bufferValidEnd < buffer.Length {
        ReadMore();
      }
    }

    method ShiftDown()
      requires Window()
      modifies `bufferValidBegin, `bufferValidEnd, buffer
      ensures Window() && bufferValidBegin == 0 && bufferValidEnd == old(bufferValidEnd - bufferValidBegin)
    {
      forall k | 0 <= k < bufferValidEnd - bufferValidBegin {
        buffer[k] := buffer[bufferValidBegin + k];
      }
      assert buffer[..bufferValidEnd - bufferValidBegin] == old(buffer[bufferValidBegin..bufferValidEnd]);
      bufferValidEnd := bufferValidEnd - bufferValidBegin;
      bufferValidBegin := 0;
    }

    method ReadMore()
      requires Window() && !streamEmpty && bufferValidEnd < buffer.Length
      modifies `bufferValidEnd, `streamEmpty, buffer, inputStream`pos
      ensures Window() && Cursor() == old(Cursor())
      ensures streamEmpty || old(inputStream.pos) < inputStream.pos
    {
      ghost var before, pos := buffer[..], inputStream.pos;
      var numRead := inputStream.Read(buffer, bufferValidEnd, buffer.Length - bufferValidEnd);
      if numRead > 0 {
        WindowGrows(before, buffer[..], bufferValidBegin, bufferValidEnd, numRead, inputStream.contents, pos);
        bufferValidEnd := bufferValidEnd + numRead;
      } else {
        WindowKept(before, buffer[..], bufferValidBegin, bufferValidEnd);
        streamEmpty := true;
      }
    }

    /** Searches the valid part of the buffer for the delimiter. */
    method FindDelimiter() returns (found: bool, ii: nat)
      requires Window()
      ensures found ==> bufferValidBegin <= ii && ii + |delimiter| <= bufferValidEnd
      ensures found ==> At(inputStream.contents, delimiter, Cursor() + ii - bufferValidBegin)
      ensures found ==> NoneWithin(inputStream.contents, delimiter, Cursor(), Cursor() + ii - bufferValidBegin)
      ensures !found ==> forall to :: Cursor() <= to && to + |delimiter| <= inputStream.pos + 1 ==>
                NoneWithin(inputStream.contents, delimiter, Cursor(), to)
      ensures !found && streamEmpty ==> NoneWithin(inputStream.contents, delimiter, Cursor(), inputStream.pos)
    {
      hide At;
      ii := bufferValidBegin;
      while ii < bufferValidEnd - (|delimiter| - 1)
        invariant bufferValidBegin <= ii && (ii == bufferValidBegin || ii <= bufferValidEnd - (|delimiter| - 1))
        invariant NoneWithin(inputStream.contents, delimiter, Cursor(), Cursor() + ii - bufferValidBegin)
      {
        AtInBuffer(buffer[..], bufferValidBegin, bufferValidEnd, inputStream.contents, Cursor(), delimiter, ii);
        if buffer[ii..ii + |delimiter|] == delimiter {
          return true, ii;
        }
        ii := ii + 1;
      }
      found := false;
      if streamEmpty {
        NoneBehind(inputStream.contents, delimiter, Cursor(), Cursor() + ii - bufferValidBegin);
      }
    }

    /** Moves the valid part of the buffer before bufferSegmentEnd to the end of the substring. */
    method TransferBufferSegmentToSubstring(substring0: seq<byte>, substringSize0: nat, bufferSegmentEnd: int)
      returns (substring: seq<byte>, substringSize: nat)
      requires Window() && bufferSegmentEnd <= bufferValidEnd && Cursor() == start + substringSize0
      requires Collected(inputStream.contents, start, substring0, substringSize0)
      modifies `bufferValidBegin
      ensures Window() && Cursor() == start + substringSize
      ensures bufferValidBegin == if old(bufferValidBegin) <= bufferSegmentEnd then bufferSegmentEnd
        else old(bufferValidBegin)
      ensures Collected(inputStream.contents, start, substring, substringSize)
      ensures if old(bufferValidBegin) <= bufferSegmentEnd then substringSize == |substring|
        else substring == substring0
    {
      substring, substringSize := substring0, substringSize0;
      var segmentSize := bufferSegmentEnd - bufferValidBegin;
      if segmentSize >= 0 {
        WindowFrom(buffer[..], bufferValidBegin, bufferValidEnd, segmentSize, inputStream.contents, inputStream.pos);
        CollectedMore(inputStream.contents, start, substring, substringSize, segmentSize);
        substring := substring[..substringSize] + buffer[bufferValidBegin..bufferValidBegin + segmentSize];
        substringSize := substringSize + segmentSize;
        bufferValidBegin := bufferValidBegin + segmentSize;
      }
    }

    /** Moves what cannot be the beginning of a delimiter to the end of the substring: all of it when the stream has
        ended. */
    method TransferUndelimited(substring0: seq<byte>, substringSize0: nat)
      returns (substring: seq<byte>, substringSize: nat)
      requires Window() && Cursor() == start + substringSize0
      requires Collected(inputStream.contents, start, substring0, substringSize0)
      requires NoneWithin(inputStream.contents, delimiter, start, Cursor())
      requires forall to :: Cursor() <= to && to + |delimiter| <= inputStream.pos + 1 ==>
                 NoneWithin(inputStream.contents, delimiter, Cursor(), to)
      requires streamEmpty ==> NoneWithin(inputStream.contents, delimiter, Cursor(), inputStream.pos)
      modifies `bufferValidBegin
      ensures Window() && Cursor() == start + substringSize
      ensures Collected(inputStream.contents, start, substring, substringSize)
      ensures NoneWithin(inputStream.contents, delimiter, start, Cursor())
      ensures old(bufferValidBegin) <= bufferValidBegin
      ensures streamEmpty ==> IsEnd() && substringSize == |substring|
      ensures bufferValidEnd == buffer.Length && old(bufferValidBegin) <= buffer.Length / 2 ==>
        old(bufferValidBegin) < bufferValidBegin
    {
      hide At, Window, NoneWithin, Collected;
      WindowBounds();
      var segmentEnd := if streamEmpty then bufferValidEnd else bufferValidEnd - (|delimiter| - 1);
      if bufferValidBegin <= segmentEnd {
        NoneJoins(inputStream.contents, delimiter, start, Cursor(), Cursor() + segmentEnd - bufferValidBegin);
      }
      substring, substringSize := TransferBufferSegmentToSubstring(substring0, substringSize0, segmentEnd);
    }
  }

  /** Leaving out the first n bytes of the window. */
  lemma WindowFrom(buffer: seq<byte>, begin: nat, end: nat, n: nat, contents: seq<byte>, pos: nat)
    requires begin + n <= end <= |buffer| && end - begin <= pos <= |contents|
    requires buffer[begin..end] == contents[pos - (end - begin)..pos]
    ensures buffer[begin + n..end] == contents[pos - (end - begin) + n..pos]
    ensures buffer[begin..begin + n] == contents[pos - (end - begin)..pos - (end - begin) + n]
  {
    SliceOfSlice(buffer, begin, end, n, end - begin);
    SliceOfSlice(contents, pos - (end - begin), pos, n, end - begin);
    SliceOfSlice(buffer, begin, end, 0, n);
    SliceOfSlice(contents, pos - (end - begin), pos, 0, n);
  }

  lemma WindowKept(before: seq<byte>, buffer: seq<byte>, begin: nat, end: nat)
    requires begin <= end <= |buffer| && end <= |before| && buffer[..end] == before[..end]
    ensures buffer[begin..end] == before[begin..end]
  {
    SliceOfSlice(buffer, 0, end, begin, end);
    SliceOfSlice(before, 0, end, begin, end);
  }

  /** Reading n more bytes behind the window. */
  lemma WindowGrows(before: seq<byte>, buffer: seq<byte>, begin: nat, end: nat, n: nat, contents: seq<byte>, pos: nat)
    requires begin <= end && end + n <= |buffer| == |before| && end - begin <= pos && pos + n <= |contents|
    requires before[begin..end] == contents[pos - (end - begin)..pos]
    requires buffer[..end] == before[..end] && buffer[end..end + n] == contents[pos..pos + n]
    ensures buffer[begin..end + n] == contents[pos - (end - begin)..pos + n]
  {
    WindowKept(before, buffer, begin, end);
    SlicesJoin(buffer, begin, end, end + n);
    SlicesJoin(contents, pos - (end - begin), pos, pos + n);
  }

  /** Comparing the delimiter with the buffer is comparing it with the stream. */
  lemma AtInBuffer(buffer: seq<byte>, begin: nat, end: nat, contents: seq<byte>, cursor: nat, d: seq<byte>, ii: nat)
    requires begin <= ii && ii + |d| <= end <= |buffer| && cursor + (end - begin) <= |contents|
    requires buffer[begin..end] == contents[cursor..cursor + (end - begin)]
    ensures At(contents, d, cursor + ii - begin) <==> buffer[ii..ii + |d|] == d
  {
    SliceOfSlice(buffer, begin, end, ii - begin, ii - begin + |d|);
    SliceOfSlice(contents, cursor, cursor + (end - begin), ii - begin, ii - begin + |d|);
  }

  /** No occurrence begins at from or between from and to. */
  ghost predicate NoneWithin(s: seq<byte>, d: seq<byte>, from: int, to: int)
  {
    forall k: nat :: from <= k < to ==> !At(s, d, k)
  }

  lemma NoneJoins(s: seq<byte>, d: seq<byte>, from: nat, mid: int, to: int)
    requires NoneWithin(s, d, from, mid) && NoneWithin(s, d, mid, to)
    ensures NoneWithin(s, d, from, to)
  {
  }

  /** Nothing begins where the sequence is too short for it. */
  lemma NoneBehind(s: seq<byte>, d: seq<byte>, from: int, to: int)
    requires NoneWithin(s, d, from, to) && |s| < to + |d|
    ensures NoneWithin(s, d, from, |s|)
  {
  }

  /** The substring so far is what the stream holds from start on. */
  ghost predicate Collected(contents: seq<byte>, start: nat, substring: seq<byte>, size: nat)
  {
    && start + size <= |contents| && size <= |substring|
    && substring[..size] == contents[start..start + size]
  }

  lemma CollectedMore(contents: seq<byte>, start: nat, substring: seq<byte>, size: nat, n: nat)
    requires Collected(contents, start, substring, size) && start + size + n <= |contents|
    ensures Collected(contents, start, substring[..size] + contents[start + size..start + size + n], size + n)
  {
    SlicesJoin(contents, start, start + size, start + size + n);
    var more := substring[..size] + contents[start + size..start + size + n];
    assert more[..size + n] == more;
  }

  lemma Nothing(contents: seq<byte>, d: seq<byte>, start: nat, substring: seq<byte>)
    requires start <= |contents|
    ensures Collected(contents, start, substring, 0) && NoneWithin(contents, d, start, start)
  {
  }

  /** A delimiter ends the substring: one cut of the split. */
  lemma FoundNext(contents: seq<byte>, d: seq<byte>, start: nat, substring: seq<byte>, returned: seq<seq<byte>>,
                  delimiters: nat)
    requires d != [] && start <= |contents| && Split(contents, d) == returned + SplitFrom(contents, d, start)
    requires Collected(contents, start, substring, |substring|) && At(contents, d, start + |substring|)
    requires NoneWithin(contents, d, start, start + |substring|)
    ensures Split(contents, d) == (returned + [substring]) + SplitFrom(contents, d, start + |substring| + |d|)
    ensures TotalLength(returned + [substring]) == TotalLength(returned) + |substring|
    ensures Times(delimiters + 1, |d|) == Times(delimiters, |d|) + |d|
  {
    hide First;
    FirstIs(contents, d, start, start + |substring|);
    assert substring == substring[..|substring|];
    assert (returned + [substring])[..|returned|] == returned;
    var rest := SplitFrom(contents, d, start + |substring| + |d|);
    assert returned + ([substring] + rest) == (returned + [substring]) + rest;
  }

  /** The stream ends the substring: the last part of the split. */
  lemma FoundLast(contents: seq<byte>, d: seq<byte>, start: nat, substring: seq<byte>, returned: seq<seq<byte>>)
    requires d != [] && start + |substring| == |contents|
      && Split(contents, d) == returned + SplitFrom(contents, d, start)
    requires Collected(contents, start, substring, |substring|) && NoneWithin(contents, d, start, |contents|)
    ensures Split(contents, d) == returned + [substring]
    ensures TotalLength(returned + [substring]) == TotalLength(returned) + |substring|
  {
    hide First;
    assert substring == substring[..|substring|];
    assert contents[start..] == contents[start..start + |substring|];
    assert (returned + [substring])[..|returned|] == returned;
  }

  /** Asking for substrings until there are none gives exactly the split of the stream, and at the end
      every byte is accounted for. */
  method SplitAll(input: seq<byte>, delimiter: seq<byte>, bufferSize: nat)
    returns (accepted: bool, parts: seq<seq<byte>>, numReturned: nat, processed: nat)
    ensures accepted <==> delimiter != [] && |delimiter| * 2 + 1 <= bufferSize
    ensures accepted ==> parts == Split(input, delimiter) && numReturned == |parts| && processed == |input|
  {
    var stream := new InputStream(input);
    parts, numReturned, processed := [], 0, 0;
    var splitter := StreamSplitter.Create(stream, delimiter, bufferSize);
    accepted := splitter != null;
    if accepted {
      var ok, substring := splitter.GetNext([]);
      while ok
        invariant fresh(splitter) && fresh(splitter.buffer) && splitter.Valid()
        invariant splitter.returned == if ok then parts + [substring] else parts
        invariant !ok ==> splitter.IsEnd()
        decreases |Split(input, delimiter)| - |parts|
      {
        parts := parts + [substring];
        ok, substring := splitter.GetNext(substring);
      }
      numReturned := splitter.GetNumSubstringsReturned();
      processed := splitter.GetNumBytesProcessed();
    }
  }
}
