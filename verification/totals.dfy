/**
  The whole run of `main`: plan the ranges, let one worker count each range,
  and add the counts up with `collectAndAdd`.  The workers are independent
  and share nothing, so running them one after the other gives the same counts
  as running them on threads.

  The module also holds the corrected worker, whose counts add up to the
  count of one stream over the whole file for every number of workers.
 */
module Totals {
  import opened Bytes
  import opened Ranges
  import opened Stream
  import opened Worker
  import opened Partition

  function Sum(xs: seq<nat>): nat
    decreases |xs|
  {
    if |xs| == 0 then 0 else xs[0] + Sum(xs[1..])
  }

  lemma {:induction false} SumSnoc(xs: seq<nat>, x: nat)
    ensures Sum(xs + [x]) == Sum(xs) + x
    decreases |xs|
  {
    if |xs| == 0 {
      assert xs + [x] == [x];
    } else {
      assert (xs + [x])[1..] == xs[1..] + [x];
      SumSnoc(xs[1..], x);
    }
  }

  /** `collectAndAdd`: the sum of the workers' counts. */
  method CollectAndAdd(counts: seq<nat>) returns (counter: nat)
    ensures counter == Sum(counts)
  {
    counter := 0;
    var i := 0;
    while i < |counts|
      invariant i <= |counts|
      invariant counter == Sum(counts[..i])
    {
      assert counts[..i + 1] == counts[..i] + [counts[i]];
      SumSnoc(counts[..i], counts[i]);
      counter := counter + counts[i];
      i := i + 1;
    }
    assert counts[..|counts|] == counts;
  }

  /** Every range lies inside the file. */
  ghost predicate InFile(file: seq<JByte>, rs: seq<Range>)
  {
    forall k :: 0 <= k < |rs| ==> rs[k].End() <= |file|
  }

  /** The count each worker of `rs` reaches. */
  function RangeCounts(file: seq<JByte>, rs: seq<Range>): (cs: seq<nat>)
    requires InFile(file, rs)
    ensures |cs| == |rs|
  {
    seq(|rs|, k requires 0 <= k < |rs| => RangeCount(file, rs[k]))
  }

  /** One more worker adds its count at the end. */
  lemma RangeCountsSnoc(file: seq<JByte>, rs: seq<Range>, r: Range)
    requires InFile(file, rs) && r.End() <= |file|
    ensures InFile(file, rs + [r])
    ensures RangeCounts(file, rs + [r]) == RangeCounts(file, rs) + [RangeCount(file, r)]
  {
    assert (rs + [r])[|rs|] == r;
  }

  /** The outcome of `main`: the printed total, or the `ArithmeticException` of dividing by zero threads. */
  datatype Outcome = Counted(total: nat) | ArithmeticFailure

  /** The total of the workers' counts over the plan for `numOfThreads` workers. */
  function WordCount(file: seq<JByte>, numOfThreads: nat): (o: Outcome)
    ensures o.ArithmeticFailure? <==> numOfThreads == 0
  {
    match Plan(|file|, numOfThreads)
    case DivisionByZero => ArithmeticFailure
    case Planned(ranges) =>
      PlanInFile(|file|, numOfThreads);
      Counted(Sum(RangeCounts(file, ranges)))
  }

  /** The workers of `main`, one per range, run one after the other. */
  method RunWorkers(file: seq<JByte>, ranges: seq<Range>, bufferSize: int) returns (counts: seq<nat>)
    requires InFile(file, ranges)
    requires 0 <= bufferSize
    requires bufferSize == 0 ==> forall k :: 0 <= k < |ranges| ==> ranges[k].size <= 1
    ensures counts == RangeCounts(file, ranges)
  {
    counts := [];
    var i := 0;
    while i < |ranges|
      invariant i <= |ranges|
      invariant counts == RangeCounts(file, ranges[..i])
    {
      var c, _ := Run(file, ranges[i], bufferSize);
      assert ranges[..i + 1] == ranges[..i] + [ranges[i]];
      RangeCountsSnoc(file, ranges[..i], ranges[i]);
      counts := counts + [c];
      i := i + 1;
    }
    assert ranges[..|ranges|] == ranges;
  }

  /**
    `main`: plan the ranges, run one worker per range, collect the counts.
    The total does not depend on the buffer size.
   */
  method CountFile(file: seq<JByte>, numOfThreads: nat, bufferSize: int) returns (o: Outcome)
    requires 0 < numOfThreads ==> 0 <= bufferSize
    requires 0 < numOfThreads && bufferSize == 0 ==> |file| <= 1 || |file| == numOfThreads
    ensures o == WordCount(file, numOfThreads)
    ensures o.ArithmeticFailure? <==> numOfThreads == 0
  {
    var plan := Plan(|file|, numOfThreads);
    if plan.DivisionByZero? {
      return ArithmeticFailure;
    }
    assert InFile(file, plan.ranges) by { PlanInFile(|file|, numOfThreads); }
    if bufferSize == 0 {
      PlanSmallRanges(|file|, numOfThreads);
    }
    var counts := RunWorkers(file, plan.ranges, bufferSize);
    var total := CollectAndAdd(counts);
    o := Counted(total);
  }

  /**
    With zero threads `main` divides by zero before it builds any worker, so
    the buffer size plays no part.
   */
  method ZeroThreads(file: seq<JByte>, bufferSize: int) returns (o: Outcome)
    ensures o == ArithmeticFailure
  {
    o := CountFile(file, 0, bufferSize);
  }

  /** With one worker, the total is the count of the one range covering the whole file. */
  lemma OneWorker(file: seq<JByte>, count: nat)
    requires RangeCount(file, Range(0, |file|)) == count
    ensures WordCount(file, 1) == Counted(count)
  {
    var r := Range(0, |file|);
    var cs := RangeCounts(file, [r]);
    assert Sum(cs) == count by {
      assert cs == [count];
      assert cs[1..] == [];
    }
    assert WordCount(file, 1) == Counted(Sum(cs)) by {
      PlanOneWorker(|file|);
    }
  }

  /**
    With one worker, the count is every word end of the file except one at the
    last byte, plus the end-of-file word.
   */
  lemma SingleWorker(file: seq<JByte>)
    requires 0 < |file|
    ensures WordCount(file, 1) == Counted(WordEndsIn(file, 0, |file| - 1) + FinalWord(file))
  {
    var count := WordEndsIn(file, 0, |file| - 1) + FinalWord(file);
    assert RangeCount(file, Range(0, |file|)) == count by {
      RangeCountDecomposition(file, Range(0, |file|));
    }
    OneWorker(file, count);
  }

  /** The total over a plan is the sum of the counts of its ranges. */
  lemma WorkersAddUp(file: seq<JByte>, numOfThreads: nat, rs: seq<Range>, total: nat)
    requires Plan(|file|, numOfThreads) == Planned(rs) && InFile(file, rs)
    requires Sum(RangeCounts(file, rs)) == total
    ensures WordCount(file, numOfThreads) == Counted(total)
  {
  }

  /** One worker gets the whole file. */
  lemma PlanOneWorker(fileSize: nat)
    ensures Plan(fileSize, 1) == Planned([Range(0, fileSize)])
  {
    PlanPartitionsFile(fileSize, 1);
  }

  /**
    The corrected boundary check: like `checkFirstChar`, but an avoided byte
    does not end the word before it.
   */
  function FixedFirstChar(file: seq<JByte>, offset: nat): (r: FirstChar)
    requires offset <= |file|
    ensures 0 < offset < |file| ==> r.count == WordEndsIn(file, offset, offset + 1)
    ensures 0 < offset < |file| ==>
              r.count + (if file[offset] == Apostrophe && IsValidChar(file[offset - 1]) then 1 else 0)
              == CheckFirstChar(file, offset).count
    ensures 0 < offset < |file| ==> r.cursor == offset + 1 && r.last == file[offset]
    ensures offset == 0 || offset == |file| ==> r == CheckFirstChar(file, offset)
  {
    if 0 < offset < |file| then
      assert file[offset..offset + 1] == [file[offset]];
      FirstChar(if EndsWord(file[offset - 1], file[offset]) then 1 else 0, file[offset], offset + 1)
    else
      CheckFirstChar(file, offset)
  }

  /**
    The corrected worker: it streams up to the end of its range wherever the
    boundary check left the file pointer, and an empty range counts nothing.
   */
  function FixedRangeCount(file: seq<JByte>, r: Range): (c: nat)
    requires r.End() <= |file|
    ensures c == if r.size == 0 then 0
                 else WordEndsIn(file, r.offset, r.End()) + (if r.End() == |file| then FinalWord(file) else 0)
  {
    if r.size == 0 then 0
    else
      var first := FixedFirstChar(file, r.offset);
      FixedStreamsWindow(file, r);
      first.count + Scan(file[first.cursor..r.End()], first.last).count + CheckLastChar(file, r.offset, r.size)
  }

  /** The corrected boundary check and stream count exactly the word ends inside the range. */
  lemma FixedStreamsWindow(file: seq<JByte>, r: Range)
    requires r.End() <= |file| && 0 < r.size
    ensures FixedFirstChar(file, r.offset).cursor <= r.End()
    ensures FixedFirstChar(file, r.offset).count
            + Scan(file[FixedFirstChar(file, r.offset).cursor..r.End()], FixedFirstChar(file, r.offset).last).count
         == WordEndsIn(file, r.offset, r.End())
  {
    var o, e := r.offset, r.End();
    if o > 0 {
      assert file[o..e][1..] == file[o + 1..e];
      assert file[o..e][0] == file[o];
    }
  }

  function FixedRangeCounts(file: seq<JByte>, rs: seq<Range>): (cs: seq<nat>)
    requires InFile(file, rs)
    ensures |cs| == |rs|
    ensures forall k :: 0 <= k < |rs| ==> cs[k] == FixedRangeCount(file, rs[k])
  {
    seq(|rs|, k requires 0 <= k < |rs| => FixedRangeCount(file, rs[k]))
  }

  /**
    Over any tiling of `[lo, hi)`, the corrected counts add up to the word
    ends in `[lo, hi)`, plus the end-of-file word when the tiling is not empty
    and reaches the end of the file.
   */
  lemma {:induction false} FixedTilingSum(file: seq<JByte>, rs: seq<Range>, lo: nat, hi: nat)
    requires Tiles(rs, lo, hi) && hi <= |file|
    ensures lo <= hi
    ensures InFile(file, rs)
    ensures Sum(FixedRangeCounts(file, rs))
         == WordEndsIn(file, lo, hi) + (if lo < hi && hi == |file| then FinalWord(file) else 0)
    decreases |rs|
  {
    TilesCover(rs, lo, hi);
    if |rs| > 0 {
      var m := rs[0].End();
      TilesCover(rs[1..], m, hi);
      FixedTilingSum(file, rs[1..], m, hi);
      assert FixedRangeCounts(file, rs)[1..] == FixedRangeCounts(file, rs[1..]);
      WordEndsInSplit(file, lo, m, hi);
    }
  }

  /** The corrected run over the plan, for `numOfThreads` workers. */
  function FixedWordCount(file: seq<JByte>, numOfThreads: nat): (o: Outcome)
    ensures o.ArithmeticFailure? <==> numOfThreads == 0
  {
    match Plan(|file|, numOfThreads)
    case DivisionByZero => ArithmeticFailure
    case Planned(ranges) =>
      PlanInFile(|file|, numOfThreads);
      Counted(Sum(FixedRangeCounts(file, ranges)))
  }

  /**
    Partition invariance of the corrected run: for every number of workers,
    the total is the count of one stream over the whole file.
   */
  lemma FixedPartitionInvariance(file: seq<JByte>, numOfThreads: nat)
    requires 0 < numOfThreads
    ensures FixedWordCount(file, numOfThreads) == Counted(SequentialCount(file))
  {
    var rs := Plan(|file|, numOfThreads).ranges;
    PlanTilesFile(|file|, numOfThreads);
    FixedCoverSum(file, rs);
  }

  /** Over any tiling of the whole file, the corrected counts add up to the count of one stream. */
  lemma FixedCoverSum(file: seq<JByte>, rs: seq<Range>)
    requires Tiles(rs, 0, |file|)
    ensures InFile(file, rs)
    ensures Sum(FixedRangeCounts(file, rs)) == SequentialCount(file)
  {
    FixedTilingSum(file, rs, 0, |file|);
  }

  /** The corrected run's total does not depend on the number of workers. */
  lemma FixedTotalIndependentOfWorkers(file: seq<JByte>, n: nat, m: nat)
    requires 0 < n && 0 < m
    ensures FixedWordCount(file, n) == FixedWordCount(file, m)
  {
    FixedPartitionInvariance(file, n);
    FixedPartitionInvariance(file, m);
  }
}
