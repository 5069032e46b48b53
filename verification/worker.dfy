/**
  One worker (`WordCounter.run`): the boundary check at the start of its range,
  the windowed read loop that streams the range through `countWords`, and the
  end-of-file check at the end of its range.

  The file is an in-memory byte sequence and every read returns the bytes
  asked for.
 */
module Worker {
  import opened Bytes
  import opened Ranges
  import opened Stream

  /** After `checkFirstChar`: its return value, `m_LastChar` and the file pointer. */
  datatype FirstChar = FirstChar(count: nat, last: JByte, cursor: nat)

  /**
    `checkFirstChar`, with the file pointer at `offset`.  A worker whose range
    does not start the file reads the byte before its range and the first
    byte of its range, seeds `m_LastChar` with the latter, and returns 1 when
    the former is a letter and the latter is not.  When `offset` is the file
    length, the second `readByte` hits end-of-file; the exception is caught
    and nothing changes.
   */
  function CheckFirstChar(file: seq<JByte>, offset: nat): (r: FirstChar)
    requires offset <= |file|
    ensures r.count <= 1
    ensures offset == 0 ==> r == FirstChar(0, InitialLastChar, 0)
    ensures 0 < offset < |file| ==> r.cursor == offset + 1 && r.last == file[offset]
    ensures 0 < offset < |file| ==>
              (r.count == 1 <==> IsValidChar(file[offset - 1]) && !IsValidChar(file[offset]))
    ensures offset == |file| ==> r.count == 0 && r.last == InitialLastChar && r.cursor == offset
  {
    if offset > 0 then
      if offset < |file| then
        var fromLastThread := file[offset - 1];
        var current := file[offset];
        FirstChar(if IsValidChar(fromLastThread) && !IsValidChar(current) then 1 else 0, current, offset + 1)
      else
        FirstChar(0, InitialLastChar, offset)
    else
      FirstChar(0, InitialLastChar, offset)
  }

  /**
    The boundary check agrees with the streaming rule at the first byte of the
    range, except that it also fires on an apostrophe after a letter.
   */
  lemma CheckFirstCharVersusStream(file: seq<JByte>, offset: nat)
    requires 0 < offset < |file|
    ensures CheckFirstChar(file, offset).count
         == (if EndsWord(file[offset - 1], file[offset]) then 1 else 0)
            + (if file[offset] == Apostrophe && IsValidChar(file[offset - 1]) then 1 else 0)
  {
  }

  /**
    `checkLastChar`: 1 when the range ends at end-of-file and the last byte of
    the file is a letter.  On an empty file the seek to position -1 throws and
    the exception is caught.
   */
  function CheckLastChar(file: seq<JByte>, offset: nat, size: nat): (r: nat)
    requires offset + size <= |file|
    ensures r <= 1
    ensures r == 1 <==> offset + size == |file| && 0 < |file| && IsValidChar(file[|file| - 1])
    ensures r == if offset + size == |file| then FinalWord(file) else 0
  {
    if size + offset == |file| then
      if size + offset - 1 < 0 then 0
      else if IsValidChar(file[size + offset - 1]) then 1 else 0
    else
      0
  }

  /** `calcBufferSize`: the smaller of the bytes still to read and the buffer size. */
  function CalcBufferSize(numOfBytesToRead: int, bufferSize: int): (r: int)
    ensures r <= numOfBytesToRead && r <= bufferSize
    ensures r == numOfBytesToRead || r == bufferSize
  {
    if numOfBytesToRead < bufferSize then numOfBytesToRead else bufferSize
  }

  /** The number of bytes the read loop streams when it starts with `numOfBytesToRead`. */
  function Pending(numOfBytesToRead: int): nat
  {
    if numOfBytesToRead > 0 then numOfBytesToRead else 0
  }

  /**
    The read loop of `run`: while bytes remain, read a window of
    `calcBufferSize` bytes into `m_Buffer` at the file pointer, subtract the
    full buffer size from the bytes still to read, and stream the window
    through `countWords`.  The windows it reads are returned.
   */
  method ReadLoop(file: seq<JByte>, cursor: nat, numOfBytesToRead: int, bufferSize: int, lastChar: JByte)
    returns (count: nat, newLast: JByte, windows: seq<Range>)
    requires 0 <= bufferSize && (0 < numOfBytesToRead ==> 1 <= bufferSize)
    requires cursor + Pending(numOfBytesToRead) <= |file|
    ensures count == Scan(file[cursor..cursor + Pending(numOfBytesToRead)], lastChar).count
    ensures newLast == Scan(file[cursor..cursor + Pending(numOfBytesToRead)], lastChar).last
    ensures Tiles(windows, cursor, cursor + Pending(numOfBytesToRead))
    ensures forall k :: 0 <= k < |windows| ==> 1 <= windows[k].size <= bufferSize
  {
    var total := Pending(numOfBytesToRead);
    var buffer: seq<JByte> := seq(bufferSize, _ => 0);
    var pos := cursor;
    var toRead := numOfBytesToRead;
    count, newLast, windows := 0, lastChar, [];
    while toRead > 0
      invariant cursor <= pos <= cursor + total
      invariant toRead > 0 ==> pos + toRead == cursor + total
      invariant toRead <= 0 ==> pos == cursor + total
      invariant |buffer| == bufferSize
      invariant toRead > 0 ==> 1 <= bufferSize
      invariant Streamed(file, cursor, lastChar, bufferSize, pos, ScanState(count, newLast), windows)
      decreases toRead
    {
      var size := CalcBufferSize(toRead, bufferSize);
      var c, l;
      buffer, c, l := ReadWindow(file, pos, size, buffer, newLast);
      toRead := toRead - bufferSize;
      ReadStep(file, cursor, lastChar, bufferSize, pos, size, ScanState(count, newLast), windows, c, l);
      count := count + c;
      newLast := l;
      windows := windows + [Range(pos, size)];
      pos := pos + size;
    }
  }

  /**
    What the read loop has done once the file pointer is at `pos`: it has
    streamed `[cursor, pos)` from `lastChar`, in windows of at most
    `bufferSize` bytes that tile `[cursor, pos)`.
   */
  ghost predicate Streamed(file: seq<JByte>, cursor: nat, lastChar: JByte, bufferSize: int,
                           pos: nat, state: ScanState, windows: seq<Range>)
  {
    cursor <= pos <= |file|
    && Scan(file[cursor..pos], lastChar) == state
    && Tiles(windows, cursor, pos)
    && forall k :: 0 <= k < |windows| ==> 1 <= windows[k].size <= bufferSize
  }

  /** One pass of the read loop: streaming one more window of `size` bytes at `pos`. */
  lemma ReadStep(file: seq<JByte>, cursor: nat, lastChar: JByte, bufferSize: int,
                 pos: nat, size: nat, state: ScanState, windows: seq<Range>, c: nat, l: JByte)
    requires Streamed(file, cursor, lastChar, bufferSize, pos, state, windows)
    requires pos + size <= |file| && 1 <= size <= bufferSize
    requires c == Scan(file[pos..pos + size], state.last).count && l == Scan(file[pos..pos + size], state.last).last
    ensures Streamed(file, cursor, lastChar, bufferSize, pos + size, ScanState(state.count + c, l), windows + [Range(pos, size)])
  {
    StreamWindow(file, cursor, pos, pos + size, lastChar);
    TilesSnoc(windows, cursor, pos, Range(pos, size));
  }

  /**
    One read of the loop: `size` bytes at `pos` overwrite the front of
    `m_Buffer`, and `countWords` streams them.
   */
  method ReadWindow(file: seq<JByte>, pos: nat, size: nat, buffer: seq<JByte>, lastChar: JByte)
    returns (filled: seq<JByte>, count: nat, newLast: JByte)
    requires pos + size <= |file| && size <= |buffer|
    ensures |filled| == |buffer| && filled[..size] == file[pos..pos + size]
    ensures count == Scan(file[pos..pos + size], lastChar).count
    ensures newLast == Scan(file[pos..pos + size], lastChar).last
  {
    filled := file[pos..pos + size] + buffer[size..];
    assert filled[..size] == file[pos..pos + size];
    count, newLast := CountWords(filled, size, lastChar);
  }

  /** Streaming `[cursor, hi)` is streaming `[cursor, pos)` and then the window `[pos, hi)`. */
  lemma StreamWindow(file: seq<JByte>, cursor: nat, pos: nat, hi: nat, lastChar: JByte)
    requires cursor <= pos <= hi <= |file|
    ensures Scan(file[cursor..hi], lastChar).count
         == Scan(file[cursor..pos], lastChar).count
            + Scan(file[pos..hi], Scan(file[cursor..pos], lastChar).last).count
    ensures Scan(file[cursor..hi], lastChar).last
         == Scan(file[pos..hi], Scan(file[cursor..pos], lastChar).last).last
  {
    assert file[cursor..hi] == file[cursor..pos] + file[pos..hi];
    ScanSplit(file[cursor..pos], file[pos..hi], lastChar);
  }

  /**
    What a worker counts for range `r`: the boundary check, the stream of the
    `m_Size - 1` bytes after the file pointer that the boundary check leaves,
    and the end-of-file check.
   */
  function RangeCount(file: seq<JByte>, r: Range): nat
    requires r.End() <= |file|
  {
    var first := CheckFirstChar(file, r.offset);
    first.count
    + Scan(file[first.cursor..first.cursor + Pending(r.size - 1)], first.last).count
    + CheckLastChar(file, r.offset, r.size)
  }

  /**
    `run`: open the file at `m_Offset`, check the first byte, stream
    `m_Size - 1` bytes in windows of at most `bufferSize` bytes, check the
    last byte.  A range after the start of the file streams the bytes after
    its first byte; the range at the start of the file streams from its first
    byte and stops one byte short of its end.  The result does not depend on
    the buffer size.
   */
  method Run(file: seq<JByte>, r: Range, bufferSize: int) returns (count: nat, windows: seq<Range>)
    requires r.End() <= |file|
    requires 0 <= bufferSize && (2 <= r.size ==> 1 <= bufferSize)
    ensures count == RangeCount(file, r)
    ensures 0 < r.offset && 1 <= r.size ==>
              count == CheckFirstChar(file, r.offset).count
                       + Scan(file[r.offset + 1..r.End()], file[r.offset]).count
                       + CheckLastChar(file, r.offset, r.size)
    ensures 0 < r.offset && 1 <= r.size ==> Tiles(windows, r.offset + 1, r.End())
    ensures r.offset == 0 && 1 <= r.size ==>
              count == Scan(file[..r.size - 1], InitialLastChar).count + CheckLastChar(file, 0, r.size)
    ensures r.offset == 0 && 1 <= r.size ==> Tiles(windows, 0, r.size - 1)
    ensures r.size == 0 ==> count == CheckFirstChar(file, r.offset).count + CheckLastChar(file, r.offset, 0)
    ensures r.size == 0 ==> windows == []
    ensures forall k :: 0 <= k < |windows| ==> 1 <= windows[k].size <= bufferSize
  {
    var numOfBytesToRead := r.size - 1;
    var first := CheckFirstChar(file, r.offset);
    assert first.cursor + Pending(numOfBytesToRead) <= |file| by { StreamedBytes(file, r); }
    count := first.count;
    var streamed, last;
    streamed, last, windows := ReadLoop(file, first.cursor, numOfBytesToRead, bufferSize, first.last);
    count := count + streamed;
    count := count + CheckLastChar(file, r.offset, r.size);
    assert count == RangeCount(file, r);
    StreamedBytes(file, r);
    if r.size == 0 {
      RangeCountEmpty(file, r);
      NoWindows(windows, first.cursor, bufferSize);
    } else if r.offset == 0 {
      RangeCountHead(file, r);
    } else {
      RangeCountInner(file, r);
    }
  }

  /** A range after the start of the file streams the bytes after its first byte, seeded with that byte. */
  lemma RangeCountInner(file: seq<JByte>, r: Range)
    requires r.End() <= |file| && 0 < r.offset && 1 <= r.size
    ensures RangeCount(file, r) == CheckFirstChar(file, r.offset).count
                                   + Scan(file[r.offset + 1..r.End()], file[r.offset]).count
                                   + CheckLastChar(file, r.offset, r.size)
  {
    StreamedBytes(file, r);
  }

  /** The range at the start of the file streams all but its last byte from the initial `m_LastChar`. */
  lemma RangeCountHead(file: seq<JByte>, r: Range)
    requires r.End() <= |file| && r.offset == 0 && 1 <= r.size
    ensures RangeCount(file, r) == Scan(file[..r.size - 1], InitialLastChar).count + CheckLastChar(file, 0, r.size)
  {
    StreamedBytes(file, r);
    assert file[0..r.size - 1] == file[..r.size - 1];
  }

  /** An empty range streams nothing. */
  lemma RangeCountEmpty(file: seq<JByte>, r: Range)
    requires r.size == 0 && r.offset <= |file|
    ensures RangeCount(file, r) == CheckFirstChar(file, r.offset).count + CheckLastChar(file, r.offset, 0)
  {
    StreamedBytes(file, r);
  }

  /**
    The bytes a worker streams: those after the first byte of its range when
    the range starts after the start of the file, and all but the last byte
    of its range when it starts the file.
   */
  lemma StreamedBytes(file: seq<JByte>, r: Range)
    requires r.End() <= |file|
    ensures CheckFirstChar(file, r.offset).cursor + Pending(r.size - 1) <= |file|
    ensures 0 < r.offset && 1 <= r.size ==>
              CheckFirstChar(file, r.offset).cursor == r.offset + 1
              && CheckFirstChar(file, r.offset).cursor + Pending(r.size - 1) == r.End()
              && CheckFirstChar(file, r.offset).last == file[r.offset]
    ensures r.offset == 0 && 1 <= r.size ==>
              CheckFirstChar(file, r.offset).cursor == 0
              && Pending(r.size - 1) == r.size - 1
              && CheckFirstChar(file, r.offset).last == InitialLastChar
    ensures r.size == 0 ==> Pending(r.size - 1) == 0
  {
  }

  /** Windows of at least one byte tile an empty interval only when there are none. */
  lemma NoWindows(windows: seq<Range>, at: nat, bufferSize: int)
    requires Tiles(windows, at, at)
    requires forall k :: 0 <= k < |windows| ==> 1 <= windows[k].size <= bufferSize
    ensures windows == []
  {
    if windows != [] {
      TilesCover(windows, at, at);
      assert false;
    }
  }

  /**
    A worker's count against one stream over the whole file: a range after the
    start of the file counts the word ends inside it, plus one when it starts
    on an apostrophe after a letter; the range at the start of the file counts
    the word ends inside it except at its last byte.  Either adds the
    end-of-file word when it reaches the end of the file.
   */
  lemma RangeCountDecomposition(file: seq<JByte>, r: Range)
    requires r.End() <= |file|
    ensures 0 < r.offset && 1 <= r.size ==>
              RangeCount(file, r)
              == WordEndsIn(file, r.offset, r.End())
                 + (if file[r.offset] == Apostrophe && IsValidChar(file[r.offset - 1]) then 1 else 0)
                 + (if r.End() == |file| then FinalWord(file) else 0)
    ensures r.offset == 0 && 1 <= r.size ==>
              RangeCount(file, r)
              == WordEndsIn(file, 0, r.size - 1) + (if r.End() == |file| then FinalWord(file) else 0)
  {
    if 0 < r.offset && 1 <= r.size {
      var o, e := r.offset, r.End();
      assert file[o..e][1..] == file[o + 1..e];
      assert file[o..e][0] == file[o];
      CheckFirstCharVersusStream(file, o);
    }
  }

  /**
    A range after the start of the file that does not start on an apostrophe
    counts what one stream over the whole file counts inside it, plus the
    end-of-file word when it reaches the end of the file.
   */
  lemma RangeCountMatchesStream(file: seq<JByte>, r: Range)
    requires r.End() <= |file| && 0 < r.offset && 1 <= r.size
    requires file[r.offset] != Apostrophe
    ensures RangeCount(file, r)
         == WordEndsIn(file, r.offset, r.End()) + (if r.End() == |file| then FinalWord(file) else 0)
  {
    RangeCountDecomposition(file, r);
  }
}
