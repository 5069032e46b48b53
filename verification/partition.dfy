/**
  The partition plan of `main`: `numOfThreads` ranges of `fileSize / numOfThreads`
  bytes each, the last one also taking the remainder.

  The plan is built without multiplication or division: range `i` starts
  where range `i - 1` ends, and the chunk and remainder are computed by
  repeated subtraction.  `PlanOffsets` and `QuotientRemainder` show that this
  is the plan `main` computes with `i * chunk`, `/` and `%`.
 */
module Partition {
  import opened Ranges

  /** The plan, or the `ArithmeticException` of a division by zero threads. */
  datatype PlanResult = Planned(ranges: seq<Range>) | DivisionByZero

  /**
    `count` ranges of `chunk` bytes laid one after the other from `offset`, the
    last one `extra` bytes longer.
   */
  function Chunks(offset: nat, chunk: nat, extra: nat, count: nat): (rs: seq<Range>)
    requires 0 < count
    ensures |rs| == count
    decreases count
  {
    if count == 1 then [Range(offset, chunk + extra)]
    else [Range(offset, chunk)] + Chunks(offset + chunk, chunk, extra, count - 1)
  }

  /**
    Java's `long` division of a non-negative size by a positive count, by
    repeated subtraction: the number of whole chunks.
   */
  function Quotient(a: nat, n: nat): nat
    requires 0 < n
    decreases a
  {
    if a < n then 0 else 1 + Quotient(a - n, n)
  }

  /** What is left after the whole chunks: Java's `%` on non-negative values. */
  function Remainder(a: nat, n: nat): nat
    requires 0 < n
    decreases a
  {
    if a < n then a else Remainder(a - n, n)
  }

  /** The ranges `main` hands to its workers. */
  function Plan(fileSize: nat, numOfThreads: nat): (p: PlanResult)
    ensures p.DivisionByZero? <==> numOfThreads == 0
    ensures p.Planned? ==> |p.ranges| == numOfThreads
  {
    if numOfThreads == 0 then DivisionByZero
    else
      var chunk := Quotient(fileSize, numOfThreads);
      var reminder := Remainder(fileSize, numOfThreads);
      Planned(Chunks(0, chunk, reminder, numOfThreads))
  }

  /** The chunks of the plan tile the file. */
  lemma PlanChunksFit(fileSize: nat, numOfThreads: nat)
    requires 0 < numOfThreads
    ensures Tiles(Chunks(0, Quotient(fileSize, numOfThreads), Remainder(fileSize, numOfThreads), numOfThreads), 0, fileSize)
  {
    QuotientSpec(fileSize, numOfThreads);
    ChunksTile(0, Quotient(fileSize, numOfThreads), Remainder(fileSize, numOfThreads), numOfThreads, fileSize);
  }

  /** The whole chunks and what is left add back up to the size. */
  lemma {:induction false} QuotientSpec(a: nat, n: nat)
    requires 0 < n
    ensures n * Quotient(a, n) + Remainder(a, n) == a
    ensures Remainder(a, n) < n
    decreases a
  {
    if a >= n {
      QuotientSpec(a - n, n);
      MulSucc(Quotient(a - n, n), n);
    }
  }

  /** Repeated subtraction computes Java's `/` and `%` on non-negative values. */
  lemma QuotientRemainder(a: nat, n: nat)
    requires 0 < n
    ensures Quotient(a, n) == a / n && Remainder(a, n) == a % n
  {
    QuotientSpec(a, n);
    DivUnique(a, n, Quotient(a, n), Remainder(a, n));
  }

  /** `a / n` and `a % n` are the only quotient and remainder of `a`. */
  lemma DivUnique(a: nat, n: nat, q: nat, r: nat)
    requires 0 < n && a == n * q + r && r < n
    ensures q == a / n && r == a % n
  {
    var q', r' := a / n, a % n;
    assert a == n * q' + r' && r' < n;
    if q > q' {
      MulSucc(q', n);
      MulLe(n, q' + 1, q);
      assert false;
    } else if q < q' {
      MulSucc(q, n);
      MulLe(n, q + 1, q');
      assert false;
    }
  }

  lemma MulLe(n: nat, x: nat, y: nat)
    requires x <= y
    ensures n * x <= n * y
  {
  }

  lemma MulSucc(k: nat, c: nat)
    ensures k * c + c == (k + 1) * c
  {
  }

  /** The chunks tile `[offset, offset + count * chunk + extra)`. */
  lemma {:induction false} ChunksTile(offset: nat, chunk: nat, extra: nat, count: nat, hi: nat)
    requires 0 < count && hi == offset + count * chunk + extra
    ensures Tiles(Chunks(offset, chunk, extra, count), offset, hi)
    decreases count
  {
    var rs := Chunks(offset, chunk, extra, count);
    if count == 1 {
      assert rs[1..] == [];
    } else {
      MulSucc(count - 1, chunk);
      ChunksTile(offset + chunk, chunk, extra, count - 1, hi);
      assert rs[1..] == Chunks(offset + chunk, chunk, extra, count - 1);
    }
  }

  /** All chunks but the last have `chunk` bytes; the last has `chunk + extra`. */
  lemma {:induction false} ChunksSizes(offset: nat, chunk: nat, extra: nat, count: nat)
    requires 0 < count
    ensures forall i :: 0 <= i < count - 1 ==> Chunks(offset, chunk, extra, count)[i].size == chunk
    ensures Chunks(offset, chunk, extra, count)[count - 1].size == chunk + extra
    decreases count
  {
    if count > 1 {
      var rs := Chunks(offset, chunk, extra, count);
      var rest := Chunks(offset + chunk, chunk, extra, count - 1);
      ChunksSizes(offset + chunk, chunk, extra, count - 1);
      assert rs == [Range(offset, chunk)] + rest;
      forall i | 0 < i < count
        ensures rs[i] == rest[i - 1]
      {
      }
    }
  }

  /** Range `i` of the chunks starts at `offset + i * chunk`. */
  lemma {:induction false} ChunksOffsets(offset: nat, chunk: nat, extra: nat, count: nat)
    requires 0 < count
    ensures forall i :: 0 <= i < count ==> Chunks(offset, chunk, extra, count)[i].offset == offset + i * chunk
    decreases count
  {
    if count > 1 {
      var rs := Chunks(offset, chunk, extra, count);
      var rest := Chunks(offset + chunk, chunk, extra, count - 1);
      ChunksOffsets(offset + chunk, chunk, extra, count - 1);
      assert rs == [Range(offset, chunk)] + rest;
      forall i | 0 < i < count
        ensures rs[i].offset == offset + i * chunk
      {
        assert rs[i] == rest[i - 1];
        MulSucc(i - 1, chunk);
      }
    }
  }

  /** The plan tiles the file. */
  lemma PlanTilesFile(fileSize: nat, numOfThreads: nat)
    requires 0 < numOfThreads
    ensures Tiles(Plan(fileSize, numOfThreads).ranges, 0, fileSize)
  {
    PlanChunksFit(fileSize, numOfThreads);
  }

  /** Every range of the plan lies inside the file. */
  lemma PlanInFile(fileSize: nat, numOfThreads: nat)
    requires 0 < numOfThreads
    ensures forall k :: 0 <= k < numOfThreads ==> Plan(fileSize, numOfThreads).ranges[k].End() <= fileSize
  {
    PlanTilesFile(fileSize, numOfThreads);
    TilesCover(Plan(fileSize, numOfThreads).ranges, 0, fileSize);
  }

  /**
    The plan partitions the file: the ranges are contiguous and in order, the
    first starts at 0, the last ends at the file size and their sizes add up
    to the file size; every range but the last has the chunk size and the last
    one also takes the remainder.
   */
  lemma PlanPartitionsFile(fileSize: nat, numOfThreads: nat)
    requires 0 < numOfThreads
    ensures Tiles(Plan(fileSize, numOfThreads).ranges, 0, fileSize)
    ensures SumSizes(Plan(fileSize, numOfThreads).ranges) == fileSize
    ensures forall k :: 0 <= k < numOfThreads - 1 ==>
              Plan(fileSize, numOfThreads).ranges[k].End() == Plan(fileSize, numOfThreads).ranges[k + 1].offset
    ensures Plan(fileSize, numOfThreads).ranges[0].offset == 0
    ensures Plan(fileSize, numOfThreads).ranges[numOfThreads - 1].End() == fileSize
    ensures forall k :: 0 <= k < numOfThreads - 1 ==>
              Plan(fileSize, numOfThreads).ranges[k].size == Quotient(fileSize, numOfThreads)
    ensures Plan(fileSize, numOfThreads).ranges[numOfThreads - 1].size
         == Quotient(fileSize, numOfThreads) + Remainder(fileSize, numOfThreads)
  {
    var rs := Plan(fileSize, numOfThreads).ranges;
    PlanTilesFile(fileSize, numOfThreads);
    TilingShape(rs, fileSize);
    ChunksSizes(0, Quotient(fileSize, numOfThreads), Remainder(fileSize, numOfThreads), numOfThreads);
  }

  /** A non-empty tiling of `[0, size)` is contiguous, starts at 0, ends at `size` and adds up to `size`. */
  lemma TilingShape(rs: seq<Range>, size: nat)
    requires Tiles(rs, 0, size) && 0 < |rs|
    ensures SumSizes(rs) == size
    ensures forall k :: 0 <= k < |rs| - 1 ==> rs[k].End() == rs[k + 1].offset
    ensures rs[0].offset == 0 && rs[|rs| - 1].End() == size
  {
    TilesCover(rs, 0, size);
    TilesContiguous(rs, 0, size);
    TilesEnds(rs, 0, size);
  }

  /**
    The plan in the terms of `main`: range `i` starts at `i * chunk`, every
    range but the last has `chunk == fileSize / numOfThreads` bytes and the
    last has `chunk + fileSize % numOfThreads`.
   */
  lemma PlanOffsets(fileSize: nat, numOfThreads: nat)
    requires 0 < numOfThreads
    ensures forall k :: 0 <= k < numOfThreads ==>
              Plan(fileSize, numOfThreads).ranges[k].offset == k * (fileSize / numOfThreads)
    ensures forall k :: 0 <= k < numOfThreads - 1 ==>
              Plan(fileSize, numOfThreads).ranges[k].size == fileSize / numOfThreads
    ensures Plan(fileSize, numOfThreads).ranges[numOfThreads - 1].size
         == fileSize / numOfThreads + fileSize % numOfThreads
  {
    var chunk, reminder := Quotient(fileSize, numOfThreads), Remainder(fileSize, numOfThreads);
    assert Plan(fileSize, numOfThreads).ranges == Chunks(0, chunk, reminder, numOfThreads);
    ChunksOffsets(0, chunk, reminder, numOfThreads);
    ChunksSizes(0, chunk, reminder, numOfThreads);
    QuotientRemainder(fileSize, numOfThreads);
  }

  /**
    Every range of the plan has at most one byte exactly when the file has at
    most one byte or one byte per thread.
   */
  lemma PlanSmallRanges(fileSize: nat, numOfThreads: nat)
    requires 0 < numOfThreads
    ensures (forall k :: 0 <= k < numOfThreads ==> Plan(fileSize, numOfThreads).ranges[k].size <= 1)
        <==> fileSize <= 1 || fileSize == numOfThreads
  {
    if fileSize <= 1 {
      PlanTinyFile(fileSize, numOfThreads);
    } else if fileSize == numOfThreads {
      PlanByteEach(numOfThreads);
    } else {
      PlanLargeLast(fileSize, numOfThreads);
    }
  }

  /** A file of at most one byte gets ranges of at most one byte. */
  lemma PlanTinyFile(fileSize: nat, numOfThreads: nat)
    requires 0 < numOfThreads && fileSize <= 1
    ensures forall k :: 0 <= k < numOfThreads ==> Plan(fileSize, numOfThreads).ranges[k].size <= 1
  {
    var rs := Plan(fileSize, numOfThreads).ranges;
    assert Tiles(rs, 0, fileSize) by { PlanTilesFile(fileSize, numOfThreads); }
    TilesCover(rs, 0, fileSize);
    forall k | 0 <= k < |rs|
      ensures rs[k].size <= 1
    {
      assert rs[k].End() <= fileSize;
    }
  }

  /** One byte per thread gives every thread one byte. */
  lemma PlanByteEach(n: nat)
    requires 0 < n
    ensures forall k :: 0 <= k < n ==> Plan(n, n).ranges[k].size == 1
  {
    assert Quotient(n, n) == 1 + Quotient(0, n);
    assert Remainder(n, n) == Remainder(0, n);
    ChunksSizes(0, 1, 0, n);
  }

  /** Otherwise the last range of a file of two or more bytes has two or more. */
  lemma PlanLargeLast(fileSize: nat, numOfThreads: nat)
    requires 0 < numOfThreads && 2 <= fileSize && fileSize != numOfThreads
    ensures 2 <= Plan(fileSize, numOfThreads).ranges[numOfThreads - 1].size
  {
    var n := numOfThreads;
    ChunksSizes(0, Quotient(fileSize, n), Remainder(fileSize, n), n);
    if fileSize > n && Quotient(fileSize - n, n) == 0 {
      assert fileSize - n < n;
      assert Remainder(fileSize, n) == fileSize - n;
    }
  }
}
