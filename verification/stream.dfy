/**
  The streaming counter `countWords`.

  A word ends at every byte that is neither a letter nor avoided and whose
  predecessor is a letter.  The predecessor of the first byte of a buffer is
  the last byte of the previous buffer, carried in `m_LastChar`.
 */
module Stream {
  import opened Bytes

  /** The test of `countWords`: `cur` ends a word that `prev` belongs to. */
  predicate EndsWord(prev: JByte, cur: JByte)
  {
    !IsCharToAvoid(cur) && !IsValidChar(cur) && IsValidChar(prev)
  }

  /** In terms of byte classes: a word ends exactly at a separator that follows a letter. */
  lemma EndsWordByClass(prev: JByte, cur: JByte)
    ensures EndsWord(prev, cur) <==> Classify(prev) == Letter && Classify(cur) == Separator
  {
  }

  /** The byte before position `i` of `buf`, when the byte before `buf` is `seed`. */
  function Prev(buf: seq<JByte>, seed: JByte, i: nat): JByte
    requires i < |buf|
  {
    if i == 0 then seed else buf[i - 1]
  }

  /** Reference definition: the positions of `buf` at which a word ends. */
  function EndPositions(buf: seq<JByte>, seed: JByte): set<nat>
  {
    set i: nat | i < |buf| && EndsWord(Prev(buf, seed, i), buf[i])
  }

  /** What a counter holds after streaming: the count and `m_LastChar`. */
  datatype ScanState = ScanState(count: nat, last: JByte)

  /** Streaming `buf` with `m_LastChar == seed`, one byte at a time. */
  function Scan(buf: seq<JByte>, seed: JByte): (r: ScanState)
    ensures r.count <= |buf|
    ensures r.last == if |buf| == 0 then seed else buf[|buf| - 1]
    decreases |buf|
  {
    if |buf| == 0 then ScanState(0, seed)
    else
      var rest := Scan(buf[1..], buf[0]);
      ScanState((if EndsWord(seed, buf[0]) then 1 else 0) + rest.count, rest.last)
  }

  /**
    Splitting a stream is harmless: streaming `a + b` counts what streaming `a`
    counts plus what streaming `b` counts from the byte `a` leaves behind.
   */
  lemma {:induction false} ScanSplit(a: seq<JByte>, b: seq<JByte>, seed: JByte)
    ensures Scan(a + b, seed).count == Scan(a, seed).count + Scan(b, Scan(a, seed).last).count
    ensures Scan(a + b, seed).last == Scan(b, Scan(a, seed).last).last
    decreases |a|
  {
    if |a| == 0 {
      assert a + b == b;
    } else {
      assert (a + b)[0] == a[0];
      assert (a + b)[1..] == a[1..] + b;
      ScanSplit(a[1..], b, a[0]);
    }
  }

  /** Streaming one more byte adds one exactly when that byte ends a word. */
  lemma ScanSnoc(buf: seq<JByte>, seed: JByte, x: JByte)
    ensures Scan(buf + [x], seed).count
         == Scan(buf, seed).count + (if EndsWord(Scan(buf, seed).last, x) then 1 else 0)
    ensures Scan(buf + [x], seed).last == x
  {
    ScanSplit(buf, [x], seed);
  }

  /** The end positions of `buf` are those of its prefix plus possibly its last index. */
  lemma EndPositionsSnoc(buf: seq<JByte>, seed: JByte, x: JByte)
    ensures EndPositions(buf + [x], seed)
         == EndPositions(buf, seed)
            + (if EndsWord(if |buf| == 0 then seed else buf[|buf| - 1], x) then {|buf|} else {})
  {
    var s := buf + [x];
    forall i: nat | i < |buf|
      ensures Prev(s, seed, i) == Prev(buf, seed, i) && s[i] == buf[i]
    {
    }
    assert Prev(s, seed, |buf|) == (if |buf| == 0 then seed else buf[|buf| - 1]);
  }

  /** One more byte adds one end position exactly when it ends a word. */
  lemma EndPositionsSnocCount(buf: seq<JByte>, seed: JByte, x: JByte)
    ensures |EndPositions(buf + [x], seed)|
         == |EndPositions(buf, seed)| + (if EndsWord(if |buf| == 0 then seed else buf[|buf| - 1], x) then 1 else 0)
  {
    var before := EndPositions(buf, seed);
    EndPositionsSnoc(buf, seed, x);
    assert |buf| !in before;
    if EndsWord(if |buf| == 0 then seed else buf[|buf| - 1], x) {
      assert |before + {|buf|}| == |before| + 1;
    }
  }

  /** The streaming count is the number of end positions. */
  lemma {:induction false} ScanCountsEndPositions(buf: seq<JByte>, seed: JByte)
    ensures Scan(buf, seed).count == |EndPositions(buf, seed)|
    decreases |buf|
  {
    if |buf| > 0 {
      var init := buf[..|buf| - 1];
      var x := buf[|buf| - 1];
      assert buf == init + [x];
      ScanCountsEndPositions(init, seed);
      ScanSnoc(init, seed, x);
      EndPositionsSnocCount(init, seed, x);
    }
  }

  /**
    `countWords(i_Buffer, i_BufferSize)`: streams the first `size` bytes of
    `buffer` starting from `m_LastChar == lastChar`, and returns the number of
    word ends together with the new `m_LastChar`.
   */
  method CountWords(buffer: seq<JByte>, size: nat, lastChar: JByte) returns (counter: nat, newLast: JByte)
    requires size <= |buffer|
    ensures counter == |EndPositions(buffer[..size], lastChar)|
    ensures counter == Scan(buffer[..size], lastChar).count
    ensures counter <= size
    ensures newLast == if size == 0 then lastChar else buffer[size - 1]
  {
    counter := 0;
    newLast := lastChar;
    var i := 0;
    while i < size
      invariant i <= size
      invariant counter == Scan(buffer[..i], lastChar).count
      invariant newLast == Scan(buffer[..i], lastChar).last
    {
      assert buffer[..i + 1] == buffer[..i] + [buffer[i]];
      ScanSnoc(buffer[..i], lastChar, buffer[i]);
      if !IsCharToAvoid(buffer[i]) && !IsValidChar(buffer[i]) && IsValidChar(newLast) {
        counter := counter + 1;
      }
      newLast := buffer[i];
      i := i + 1;
    }
    ScanCountsEndPositions(buffer[..size], lastChar);
  }

  /** `m_LastChar` of a fresh worker, and the context before the first byte of the file. */
  const InitialLastChar: JByte := 0

  /** The byte before file position `lo` as a single stream over the whole file sees it. */
  function SeedAt(file: seq<JByte>, lo: nat): JByte
    requires lo <= |file|
  {
    if lo == 0 then InitialLastChar else file[lo - 1]
  }

  /** Word ends at positions `[lo, hi)` of one stream over the whole file. */
  function WordEndsIn(file: seq<JByte>, lo: nat, hi: nat): nat
    requires lo <= hi <= |file|
  {
    Scan(file[lo..hi], SeedAt(file, lo)).count
  }

  /** The end-of-file correction: the file ends inside a word. */
  function FinalWord(file: seq<JByte>): nat
  {
    if |file| > 0 && IsValidChar(file[|file| - 1]) then 1 else 0
  }

  /** The count a single stream over the whole file gives: every word end plus a word cut off by end-of-file. */
  function SequentialCount(file: seq<JByte>): nat
  {
    WordEndsIn(file, 0, |file|) + FinalWord(file)
  }

  /** Word ends in adjacent position intervals add up. */
  lemma WordEndsInSplit(file: seq<JByte>, lo: nat, mid: nat, hi: nat)
    requires lo <= mid <= hi <= |file|
    ensures WordEndsIn(file, lo, mid) + WordEndsIn(file, mid, hi) == WordEndsIn(file, lo, hi)
  {
    assert file[lo..hi] == file[lo..mid] + file[mid..hi];
    ScanSplit(file[lo..mid], file[mid..hi], SeedAt(file, lo));
  }

  /** The word ends counted by one stream over the whole file are exactly its end positions. */
  lemma SequentialCountsEndPositions(file: seq<JByte>)
    ensures WordEndsIn(file, 0, |file|) == |EndPositions(file, InitialLastChar)|
    ensures 0 !in EndPositions(file, InitialLastChar)
  {
    assert file[0..|file|] == file;
    ScanCountsEndPositions(file, InitialLastChar);
  }
}
