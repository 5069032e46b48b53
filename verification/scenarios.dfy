/**
  Concrete files: the behaviour the word counter is meant to have, and the
  inputs on which the code as written departs from a single stream over the
  whole file.  Each file is written as its bytes, with a lemma tying the bytes
  to the text.
 */
module Scenarios {
  import opened Bytes
  import opened Ranges
  import opened Stream
  import opened Worker
  import opened Partition
  import opened Totals

  /** "cat dog" */
  const CatDog: seq<JByte> := [99, 97, 116, 32, 100, 111, 103]
  /** "cat " */
  const CatSpace: seq<JByte> := [99, 97, 116, 32]
  /** "it's ok" */
  const ItsOk: seq<JByte> := [105, 116, 39, 115, 32, 111, 107]
  /** "end" */
  const EndWord: seq<JByte> := [101, 110, 100]
  /** "it's" */
  const Its: seq<JByte> := [105, 116, 39, 115]
  /** "dogs' " */
  const DogsApostrophe: seq<JByte> := [100, 111, 103, 115, 39, 32]
  /** "dogs " */
  const DogsSpace: seq<JByte> := [100, 111, 103, 115, 32]

  lemma CatDogText()
    ensures Ascii("cat dog") == CatDog
  {
  }

  lemma CatSpaceText()
    ensures Ascii("cat ") == CatSpace
  {
  }

  lemma ItsOkText()
    ensures Ascii("it's ok") == ItsOk
  {
  }

  lemma EndText()
    ensures Ascii("end") == EndWord
  {
  }

  lemma ItsText()
    ensures Ascii("it's") == Its
  {
  }

  lemma DogsApostropheText()
    ensures Ascii("dogs' ") == DogsApostrophe
  {
  }

  lemma DogsSpaceText()
    ensures Ascii("dogs ") == DogsSpace
  {
  }

  /** The one worker of a file counts its whole range. */
  lemma OneWholeRange(file: seq<JByte>)
    ensures WordCount(file, 1) == Counted(RangeCount(file, Range(0, |file|)))
  {
    OneWorker(file, RangeCount(file, Range(0, |file|)));
  }

  /** Two workers get two halves of the file, the second also taking the odd byte. */
  lemma PlanTwoWorkers(fileSize: nat, half: nat, odd: nat)
    requires fileSize == 2 * half + odd && odd < 2
    ensures Plan(fileSize, 2) == Planned([Range(0, half), Range(half, half + odd)])
  {
    HalfSize(fileSize, half, odd);
    var rs := Plan(fileSize, 2).ranges;
    assert rs == [rs[0], rs[1]];
  }

  lemma HalfSize(fileSize: nat, half: nat, odd: nat)
    requires fileSize == 2 * half + odd && odd < 2
    ensures Quotient(fileSize, 2) == half && Remainder(fileSize, 2) == odd
  {
    DivUnique(fileSize, 2, half, odd);
    QuotientRemainder(fileSize, 2);
  }

  /** With two workers the total is whatever the counts of the two halves add up to. */
  lemma TwoWorkersTotal(file: seq<JByte>, half: nat, odd: nat, total: nat)
    requires |file| == 2 * half + odd && odd < 2
    requires RangeCount(file, Range(0, half)) + RangeCount(file, Range(half, half + odd)) == total
    ensures WordCount(file, 2) == Counted(total)
  {
    PlanTwoWorkers(|file|, half, odd);
    TwoRanges(file, half, half + odd);
    WorkersAddUp(file, 2, [Range(0, half), Range(half, half + odd)], total);
  }

  /** Two corrected workers on `[0, mid)` and `[mid, |file|)` add their counts. */
  lemma TwoFixedRanges(file: seq<JByte>, mid: nat)
    requires mid <= |file|
    ensures Sum(FixedRangeCounts(file, [Range(0, mid), Range(mid, |file| - mid)]))
         == FixedRangeCount(file, Range(0, mid)) + FixedRangeCount(file, Range(mid, |file| - mid))
  {
    var fs := FixedRangeCounts(file, [Range(0, mid), Range(mid, |file| - mid)]);
    assert Sum(fs[1..]) == fs[1] + Sum(fs[1..][1..]);
    assert fs[1..][1..] == [];
  }

  /** Two workers on `[0, mid)` and `[mid, mid + rest)` of a file of `mid + rest` bytes add their counts. */
  lemma TwoRanges(file: seq<JByte>, mid: nat, rest: nat)
    requires mid + rest == |file|
    ensures InFile(file, [Range(0, mid), Range(mid, rest)])
    ensures Sum(RangeCounts(file, [Range(0, mid), Range(mid, rest)]))
         == RangeCount(file, Range(0, mid)) + RangeCount(file, Range(mid, rest))
  {
    var cs := RangeCounts(file, [Range(0, mid), Range(mid, rest)]);
    assert Sum(cs[1..]) == cs[1] + Sum(cs[1..][1..]);
    assert cs[1..][1..] == [];
  }

  // The counts of single ranges of the example files.  The worker at offset 0
  // streams all but the last byte of its range; the others stream what follows
  // their first byte.

  lemma CatDogWhole()
    ensures RangeCount(CatDog, Range(0, 7)) == 2
  {
    assert CatDog[0..6] == [99, 97, 116, 32, 100, 111];
  }

  lemma CatDogFirstThree()
    ensures RangeCount(CatDog, Range(0, 3)) == 0
  {
    assert CatDog[0..2] == [99, 97];
  }

  lemma CatDogFromThree()
    ensures RangeCount(CatDog, Range(3, 4)) == 2
  {
    assert CatDog[4..7] == [100, 111, 103];
  }

  lemma CatDogFirstFour()
    ensures RangeCount(CatDog, Range(0, 4)) == 0
  {
    assert CatDog[0..3] == [99, 97, 116];
  }

  lemma CatDogFromFour()
    ensures RangeCount(CatDog, Range(4, 3)) == 1
  {
    assert CatDog[5..7] == [111, 103];
  }

  lemma CatDogFirstFourFixed()
    ensures FixedRangeCount(CatDog, Range(0, 4)) == 1
  {
    assert CatDog[0..4] == [99, 97, 116, 32];
  }

  lemma CatDogFromFourFixed()
    ensures FixedRangeCount(CatDog, Range(4, 3)) == 1
  {
    assert CatDog[4..7] == [100, 111, 103];
  }

  lemma CatDogSequential()
    ensures SequentialCount(CatDog) == 2
  {
    assert CatDog[0..7] == CatDog;
  }

  lemma CatSpaceWhole()
    ensures RangeCount(CatSpace, Range(0, 4)) == 0
  {
    assert CatSpace[0..3] == [99, 97, 116];
  }

  lemma CatSpaceSequential()
    ensures SequentialCount(CatSpace) == 1
  {
    assert CatSpace[0..4] == CatSpace;
  }

  lemma ItsOkWhole()
    ensures RangeCount(ItsOk, Range(0, 7)) == 2
  {
    assert ItsOk[0..6] == [105, 116, 39, 115, 32, 111];
  }

  lemma EndWhole()
    ensures RangeCount(EndWord, Range(0, 3)) == 1
  {
    assert EndWord[0..2] == [101, 110];
  }

  lemma ItsFirstTwo()
    ensures RangeCount(Its, Range(0, 2)) == 0
  {
    assert Its[0..1] == [105];
  }

  lemma ItsFromTwo()
    ensures RangeCount(Its, Range(2, 2)) == 2
  {
    assert Its[3..4] == [115];
  }

  lemma ItsSequential()
    ensures SequentialCount(Its) == 1
  {
    assert Its[0..4] == Its;
  }

  lemma DogsApostropheSequential()
    ensures SequentialCount(DogsApostrophe) == 0
  {
    assert DogsApostrophe[0..6] == DogsApostrophe;
  }

  lemma DogsSpaceSequential()
    ensures SequentialCount(DogsSpace) == 1
  {
    assert DogsSpace[0..5] == DogsSpace;
  }

  // Pairs of range counts, each in a lemma of its own.

  lemma CatDogHalves()
    ensures RangeCount(CatDog, Range(0, 3)) + RangeCount(CatDog, Range(3, 4)) == 2
  {
    CatDogFirstThree();
    CatDogFromThree();
  }

  lemma CatDogAfterSeparatorCounts()
    ensures RangeCount(CatDog, Range(0, 4)) + RangeCount(CatDog, Range(4, 3)) == 1
  {
    CatDogFirstFour();
    CatDogFromFour();
  }

  lemma CatDogAfterSeparatorFixedCounts()
    ensures FixedRangeCount(CatDog, Range(0, 4)) + FixedRangeCount(CatDog, Range(4, 3)) == 2
  {
    CatDogFirstFourFixed();
    CatDogFromFourFixed();
  }

  lemma ItsHalves()
    ensures RangeCount(Its, Range(0, 2)) + RangeCount(Its, Range(2, 2)) == 2
  {
    ItsFirstTwo();
    ItsFromTwo();
  }

  // Whole runs on the example files.  Each lemma takes the file as a parameter
  // equal to the constant rather than the constant itself, so that the solver
  // does not unfold the whole run on a literal argument.

  /** "cat dog" with one worker counts two words. */
  lemma CatDogOneWorker(file: seq<JByte>)
    requires file == CatDog
    ensures WordCount(file, 1) == Counted(2)
  {
    var c := RangeCount(CatDog, Range(0, 7));
    assert c == 2 by { CatDogWhole(); }
    OneWholeRange(file);
  }

  /** "cat dog" with two workers is split inside the separator, `[0,3)` and `[3,7)`, and counts two words. */
  lemma CatDogSplitInSeparator(file: seq<JByte>)
    requires file == CatDog
    ensures WordCount(file, 2) == Counted(2)
  {
    assert RangeCount(CatDog, Range(0, 3)) + RangeCount(CatDog, Range(3, 4)) == 2 by { CatDogHalves(); }
    TwoWorkersTotal(file, 3, 1, 2);
  }

  /** The workers of `[0,4)` and `[4,7)` of "cat dog" count one word between them. */
  lemma CatDogAfterSeparator()
    ensures Sum(RangeCounts(CatDog, [Range(0, 4), Range(4, 3)])) == 1
  {
    var a, b := RangeCount(CatDog, Range(0, 4)), RangeCount(CatDog, Range(4, 3));
    assert a + b == 1 by { CatDogAfterSeparatorCounts(); }
    TwoRanges(CatDog, 4, 3);
  }

  /** The corrected workers of `[0,4)` and `[4,7)` of "cat dog" count two words. */
  lemma CatDogAfterSeparatorFixed()
    ensures Sum(FixedRangeCounts(CatDog, [Range(0, 4), Range(4, 3)])) == 2
  {
    var a, b := FixedRangeCount(CatDog, Range(0, 4)), FixedRangeCount(CatDog, Range(4, 3));
    assert a + b == 2 by { CatDogAfterSeparatorFixedCounts(); }
    TwoFixedRanges(CatDog, 4);
  }

  /** "cat " with one worker counts no word. */
  lemma CatSpaceOneWorker(file: seq<JByte>)
    requires file == CatSpace
    ensures WordCount(file, 1) == Counted(0)
  {
    var c := RangeCount(CatSpace, Range(0, 4));
    assert c == 0 by { CatSpaceWhole(); }
    OneWholeRange(file);
  }

  /** "cat " with one corrected worker counts one word. */
  lemma CatSpaceFixed(file: seq<JByte>)
    requires file == CatSpace
    ensures FixedWordCount(file, 1) == Counted(1)
  {
    var s := SequentialCount(CatSpace);
    assert s == 1 by { CatSpaceSequential(); }
    FixedPartitionInvariance(file, 1);
  }

  /** "it's" with two workers counts two words. */
  lemma ItsTwoWorkers(file: seq<JByte>)
    requires file == Its
    ensures WordCount(file, 2) == Counted(2)
  {
    ItsHalves();
    assert |file| == 2 * 2 + 0;
    TwoWorkersTotal(file, 2, 0, 2);
  }

  /** "it's" with two corrected workers counts one word. */
  lemma ItsFixed(file: seq<JByte>)
    requires file == Its
    ensures FixedWordCount(file, 2) == Counted(1)
  {
    var s := SequentialCount(Its);
    assert s == 1 by { ItsSequential(); }
    FixedPartitionInvariance(file, 2);
  }

  // The behaviours, stated on the text of each file.

  /** "cat dog" with one worker counts two words. */
  lemma WordsOfOneWorker(file: seq<JByte>)
    requires file == Ascii("cat dog")
    ensures WordCount(file, 1) == Counted(2)
  {
    CatDogText();
    CatDogOneWorker(file);
  }

  /** "cat dog" with two workers is split inside the separator, `[0,3)` and `[3,7)`, and counts two words. */
  lemma SplitInSeparator(file: seq<JByte>)
    requires file == Ascii("cat dog")
    ensures WordCount(file, 2) == Counted(2)
  {
    CatDogText();
    CatDogSplitInSeparator(file);
  }

  /**
    "cat dog" split right after the separator, `[0,4)` and `[4,7)`, counts one
    word: the first range never streams its last byte, the space that ends
    "cat".  The corrected workers count two, as one stream over the file does.
   */
  lemma SplitAfterSeparator(file: seq<JByte>)
    requires file == Ascii("cat dog")
    ensures SequentialCount(file) == 2
    ensures Sum(RangeCounts(file, [Range(0, 4), Range(4, 3)])) == 1
    ensures Sum(FixedRangeCounts(file, [Range(0, 4), Range(4, 3)])) == 2
  {
    CatDogText();
    CatDogSequential();
    CatDogAfterSeparator();
    CatDogAfterSeparatorFixed();
  }

  /**
    "cat " with one worker counts no word: the space that ends "cat" is the
    last byte of the range at offset 0, which is never streamed.  One stream
    over the file, and the corrected worker, count one.
   */
  lemma TrailingSeparatorOneWorker(file: seq<JByte>)
    requires file == Ascii("cat ")
    ensures WordCount(file, 1) == Counted(0)
    ensures SequentialCount(file) == 1
    ensures FixedWordCount(file, 1) == Counted(1)
  {
    CatSpaceText();
    CatSpaceOneWorker(file);
    CatSpaceSequential();
    CatSpaceFixed(file);
  }

  /** "it's ok" with one worker counts two words: the apostrophe does not split "it's". */
  lemma ApostropheInsideWord(file: seq<JByte>)
    requires file == Ascii("it's ok")
    ensures WordCount(file, 1) == Counted(2)
  {
    ItsOkText();
    var c := RangeCount(ItsOk, Range(0, 7));
    assert c == 2 by { ItsOkWhole(); }
    OneWholeRange(ItsOk);
  }

  /** "end", with no separator after it, counts one word through the end-of-file check. */
  lemma WordAtEndOfFile(file: seq<JByte>)
    requires file == Ascii("end")
    ensures WordCount(file, 1) == Counted(1)
  {
    EndText();
    var c := RangeCount(EndWord, Range(0, 3));
    assert c == 1 by { EndWhole(); }
    OneWholeRange(EndWord);
  }

  /**
    "it's" with two workers splits at the apostrophe, `[0,2)` and `[2,4)`: the
    boundary check of the second worker takes the apostrophe after "t" for a
    word end, so the total is two.  One stream over the file, and the
    corrected workers, count one.
   */
  lemma ApostropheAtBoundary(file: seq<JByte>)
    requires file == Ascii("it's")
    ensures WordCount(file, 2) == Counted(2)
    ensures SequentialCount(file) == 1
    ensures FixedWordCount(file, 2) == Counted(1)
  {
    ItsText();
    ItsTwoWorkers(file);
    ItsSequential();
    ItsFixed(file);
  }

  /**
    An apostrophe after a word and before a separator hides the word end:
    "dogs' " counts no word even as one stream, while "dogs " counts one.
   */
  lemma TrailingApostropheHidesWordEnd(file: seq<JByte>, other: seq<JByte>)
    requires file == Ascii("dogs' ") && other == Ascii("dogs ")
    ensures SequentialCount(file) == 0
    ensures SequentialCount(other) == 1
  {
    DogsApostropheText();
    DogsSpaceText();
    DogsApostropheSequential();
    DogsSpaceSequential();
  }

  /** An empty file is not rejected: every worker gets the empty range and the total is zero. */
  lemma EmptyFile(numOfThreads: nat)
    requires 0 < numOfThreads
    ensures WordCount([], numOfThreads) == Counted(0)
  {
    var rs := Plan(0, numOfThreads).ranges;
    PlanTilesFile(0, numOfThreads);
    EmptyRangesCountNothing(rs);
    WorkersAddUp([], numOfThreads, rs, 0);
  }

  /** Workers on an empty file count nothing. */
  lemma EmptyRangesCountNothing(rs: seq<Range>)
    requires Tiles(rs, 0, 0)
    ensures InFile([], rs)
    ensures Sum(RangeCounts([], rs)) == 0
  {
    TilesCover(rs, 0, 0);
    var cs := RangeCounts([], rs);
    forall k | 0 <= k < |cs|
      ensures cs[k] == 0
    {
      EmptyRangeCountsNothing(rs[k]);
    }
    SumOfZeros(cs);
  }

  lemma EmptyRangeCountsNothing(r: Range)
    requires r.End() <= 0
    ensures RangeCount([], r) == 0
  {
  }

  lemma {:induction false} SumOfZeros(xs: seq<nat>)
    requires forall k :: 0 <= k < |xs| ==> xs[k] == 0
    ensures Sum(xs) == 0
    decreases |xs|
  {
    if |xs| > 0 {
      SumOfZeros(xs[1..]);
    }
  }
}
