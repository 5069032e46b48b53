# WordCounter in Dafny

A model of the word counter in `src/WordCounter.java`. The program splits a
file into byte ranges, one per thread. Each worker is meant to count the
words that end inside its range, and `main` adds the counts up. "## Findings"
shows two inputs where a worker counts something else.

A word ends at a byte that is neither an ASCII letter (`isValidChar`) nor an
apostrophe (`isCharToAvoid`), when the byte before it is a letter. The byte
before the first byte of a buffer is carried across buffers in `m_LastChar`.

Each worker does three things:

- `checkFirstChar` bridges the boundary with the previous range.
- The read loop of `run` streams `m_Size - 1` bytes in windows of at most
  `m_BufferSize` bytes.
- `checkLastChar` adds the word that the end of the file cuts off.

The file is a `seq<JByte>`, where `JByte` is a Java signed byte (-128..127).
A read always delivers the bytes asked for. The threads are independent and
share nothing, so the model runs the workers one after the other.

Modules, in dependency order:

- `Bytes`: byte classification.
- `Ranges`: byte ranges and tilings.
- `Stream`: `countWords` as a fold over bytes, and a set-based reference
  definition of where words end.
- `Worker`: `checkFirstChar`, `checkLastChar`, `calcBufferSize`, the read loop
  and `run`.
- `Partition`: the range plan of `main`.
- `Totals`: `collectAndAdd`, the whole run, and the corrected worker with its
  partition-invariance proof.
- `Scenarios`: concrete files that pin the behaviour down, including the
  inputs on which the code departs from one stream over the whole file.

`SequentialCount(file)` is the reference count of one stream over the whole
file: every word end, plus one for a word that the end of the file cuts off.

An empty file is not rejected: `main` plans `numOfThreads` empty ranges at
offset 0, each `checkLastChar` catches its negative seek, and the total is 0
(`Scenarios.EmptyFile`).

With zero threads, `main` divides by zero at line 38. The plan of
`Partition.Plan` is then `DivisionByZero`, and the run of `Totals.WordCount`
and `Totals.CountFile` is `ArithmeticFailure`, the `ArithmeticException` Java
throws.

The model builds the plan without multiplication or division. Range `i`
starts where range `i - 1` ends, and the chunk and remainder are computed by
repeated subtraction. `Partition.PlanOffsets` and `Partition.QuotientRemainder`
show that this is the plan of `main`, with its `i * chunk`, `/` and `%`.

## Model

| member | source | states |
|---|---|---|
| Bytes.IsValidChar | src/WordCounter.java:304-308 | a byte is valid exactly when it is an ASCII letter `A`..`Z` or `a`..`z` |
| Bytes.IsCharToAvoid | src/WordCounter.java:287-296 | a byte is avoided exactly when it is the apostrophe, the one entry of `TO_AVOID` |
| Bytes.Classify | src/WordCounter.java:280-308 | every byte is exactly one of: letter, avoided (neither letter nor separator), separator |
| Bytes.ClassesDisjoint | src/WordCounter.java:287-308 | no byte is both a letter and avoided, and a negative (non-ASCII) byte is a separator |
| Stream.Scan | src/WordCounter.java:260-278 | streaming a buffer counts at most one word end per byte and leaves `m_LastChar` at the buffer's last byte, or unchanged for an empty buffer |
| Stream.EndsWordByClass | src/WordCounter.java:264-268 | a word ends exactly at a separator (neither letter nor avoided) whose predecessor is a letter |
| Stream.ScanSplit | src/WordCounter.java:264-273 | because `m_LastChar` is carried over, streaming `a + b` counts the same as streaming `a` and then `b` |
| Stream.ScanSnoc | src/WordCounter.java:264-273 | one more byte adds one to the count exactly when it is a separator that follows a letter |
| Stream.ScanCountsEndPositions | src/WordCounter.java:260-278 | the streaming count equals the number of positions where a word ends, per the set-based reference definition |
| Stream.CountWords | src/WordCounter.java:260-278 | the loop of `countWords` returns the number of word-end positions among the first `size` bytes, and that number is at most `size`; the new `m_LastChar` is the last byte read |
| Stream.WordEndsInSplit | src/WordCounter.java:264-273 | word ends counted over adjacent position intervals of one stream add up |
| Stream.SequentialCountsEndPositions | src/WordCounter.java:21 | one stream over the file from `m_LastChar == 0` counts its end positions, and position 0 is never one |
| Worker.CheckFirstChar | src/WordCounter.java:213-228 | offset 0: counts nothing and leaves the pointer at 0; offset inside the file: counts one exactly when the previous byte is a letter and the first is not, and leaves the pointer one past the first byte with `m_LastChar` set to it; offset at end of file: counts nothing and leaves `m_LastChar` at 0 |
| Worker.CheckFirstCharVersusStream | src/WordCounter.java:215-222 | the boundary check counts the stream's verdict on the first byte, plus one exactly when that byte is an apostrophe after a letter |
| Worker.CheckLastChar | src/WordCounter.java:239-251 | counts one exactly when the range reaches the end of a non-empty file whose last byte is a letter |
| Worker.CalcBufferSize | src/WordCounter.java:143-154 | the window is the smaller of the bytes left and the buffer size |
| Worker.ReadLoop | src/WordCounter.java:111-124 | the loop streams exactly the `numOfBytesToRead` bytes after the pointer, in windows of 1 to `bufferSize` bytes that tile them in order; its count and `m_LastChar` are those of one stream over those bytes |
| Worker.ReadWindow | src/WordCounter.java:162-177 | a read fills the front of the buffer with the next `size` file bytes and `countWords` then counts exactly those bytes |
| Worker.ReadStep | src/WordCounter.java:114-117 | one more window keeps the streamed bytes contiguous and the running count equal to one stream over them |
| Worker.StreamWindow | src/WordCounter.java:111-117 | streaming up to a position and then one more window is streaming the whole stretch |
| Worker.Run | src/WordCounter.java:99-141 | the count of `run` does not depend on the buffer size. A range after the start of the file streams the bytes after its first byte. The range at offset 0 streams all but its last byte. An empty range reads no window |
| Worker.StreamedBytes | src/WordCounter.java:105-109 | the bytes streamed after the boundary check lie inside the file: the rest of the range at offset > 0, and the range's first `m_Size - 1` bytes at offset 0 |
| Worker.NoWindows | src/WordCounter.java:111 | when there is nothing to read, the loop reads no window |
| Worker.RangeCountDecomposition | src/WordCounter.java:99-141 | against one stream over the file: a range at offset > 0 counts its word ends, plus one if it starts on an apostrophe after a letter; the range at offset 0 counts its word ends except at its last byte; either adds the cut-off word at end of file |
| Worker.RangeCountMatchesStream | src/WordCounter.java:202-212 | a range at offset > 0 that does not start on an apostrophe counts exactly what one stream over the file counts inside it |
| Partition.Plan | src/WordCounter.java:38-49 | zero threads is a division by zero; otherwise one range per thread |
| Partition.QuotientRemainder | src/WordCounter.java:38-39 | the chunk and remainder computed by repeated subtraction are Java's `fileSize / numOfThreads` and `fileSize % numOfThreads` |
| Partition.PlanInFile | src/WordCounter.java:41-49 | every planned range lies inside the file |
| Partition.PlanSmallRanges | src/WordCounter.java:38-49 | every planned range has at most one byte exactly when the file has at most one byte or exactly one byte per thread |
| Partition.PlanPartitionsFile | src/WordCounter.java:38-49 | the ranges are contiguous and in order from 0 to the file size, and their sizes add up to the file size. Every range but the last has the chunk size, and the last also takes the remainder |
| Partition.PlanOffsets | src/WordCounter.java:38-49 | range `i` starts at `i * (fileSize / numOfThreads)`. Every range but the last has `fileSize / numOfThreads` bytes, and the last has `fileSize % numOfThreads` more |
| Totals.CollectAndAdd | src/WordCounter.java:81-87 | the total is the sum of the workers' counts |
| Totals.WordCount | src/WordCounter.java:38-39 | the run fails exactly when there are zero threads |
| Totals.RunWorkers | src/WordCounter.java:41-69 | running one worker per range, one after the other, gives each range its worker's count, for any buffer size of at least 1, or of 0 when every range has at most one byte |
| Totals.CountFile | src/WordCounter.java:26-74 | running one worker per planned range and collecting the counts gives the run's total for any buffer size of at least 1, or of 0 when the file has at most one byte or one byte per thread; it fails exactly with zero threads, whatever the buffer size |
| Totals.ZeroThreads | src/WordCounter.java:31-38 | with zero threads the run is a division by zero for every file and every buffer size, since line 38 fails before a worker is built |
| Totals.OneWorker | src/WordCounter.java:42-49 | with one thread, the total is the count of the single range covering the file |
| Totals.SingleWorker | src/WordCounter.java:105 | with one thread, the total is every word end except one at the last byte, plus the cut-off word |
| Totals.FixedFirstChar | src/WordCounter.java:213-228 | the corrected boundary check counts the word ends that one stream over the file has at the first byte of the range. It counts one less than `checkFirstChar` exactly when that byte is an apostrophe after a letter, and otherwise the same |
| Totals.FixedStreamsWindow | src/WordCounter.java:105-117 | the corrected boundary check and stream count exactly the word ends inside a non-empty range |
| Totals.FixedRangeCount | src/WordCounter.java:99-141 | a corrected worker counts the word ends inside its range, plus the cut-off word when it reaches the end of the file; an empty range counts nothing |
| Totals.FixedTilingSum | src/WordCounter.java:202-212 | over any tiling of an interval, the corrected counts add up to the word ends in the interval, plus the cut-off word when the tiling reaches the end of the file |
| Totals.FixedWordCount | src/WordCounter.java:26-74 | the corrected run fails exactly when there are zero threads |
| Totals.FixedPartitionInvariance | src/WordCounter.java:202-212 | for every positive number of threads, the corrected total is the count of one stream over the whole file |
| Totals.FixedCoverSum | src/WordCounter.java:202-212 | over any tiling of the whole file, the corrected counts add up to the count of one stream |
| Totals.FixedTotalIndependentOfWorkers | src/WordCounter.java:202-212 | the corrected total is the same for any two positive thread counts |
| Scenarios.WordsOfOneWorker | src/WordCounter.java:260-278 | "cat dog" with one thread counts 2 |
| Scenarios.SplitInSeparator | src/WordCounter.java:213-228 | "cat dog" with two threads, split inside the space, counts 2: the boundary check finds the word end |
| Scenarios.SplitAfterSeparator | src/WordCounter.java:105 | "cat dog" split as `[0,4)` and `[4,7)` counts 1 where one stream counts 2; the corrected workers count 2 |
| Scenarios.TrailingSeparatorOneWorker | src/WordCounter.java:105 | "cat " with one thread counts 0 where one stream counts 1; the corrected run counts 1 |
| Scenarios.ApostropheInsideWord | src/WordCounter.java:280-296 | "it's ok" with one thread counts 2: the apostrophe does not split a word |
| Scenarios.WordAtEndOfFile | src/WordCounter.java:230-251 | "end" counts 1 through the end-of-file check |
| Scenarios.ApostropheAtBoundary | src/WordCounter.java:220 | "it's" with two threads counts 2 where one stream counts 1; the corrected run counts 1 |
| Scenarios.TrailingApostropheHidesWordEnd | src/WordCounter.java:266-268 | "dogs' " counts 0 even as one stream, while one stream counts "dogs " as 1 |
| Scenarios.EmptyFile | src/WordCounter.java:38-49 | an empty file with any positive number of threads counts 0 |

## Left out

- Threads, `start`, `join` and `InterruptedException` (lines 51-69): the workers share nothing, so they run one after the other.
- `RandomAccessFile`: open, seek, read, close and their `IOException` paths (lines 162-200, 132). A read always returns the bytes asked for. A short read at line 171 would leave stale bytes in the buffer, which the model does not represent.
- Two exception paths that valid ranges can reach are modelled as their effect:
  - reading past the end in `checkFirstChar` at offset == file length gives 0;
  - the negative seek of `checkLastChar` on an empty file gives 0.
- The failure counter, `EXCEPTION_TRESHOLD` and the limit message (lines 106, 119-128): reads do not fail in the model.
- The thread messages, timing and printing of the total (lines 54, 71-72, 101, 121, 136, 323-325): output only.
- The fixed file name, buffer size and thread count of `main` (lines 29-31) are parameters.
- `int`/`long` overflow is not modelled; the model uses unbounded integers. This includes the `long` to `int` addition at line 117 and the sum in `collectAndAdd`.
- Worker.Run, Worker.ReadLoop, Totals.RunWorkers, Totals.CountFile: when there is at least one thread, require a buffer size of at least 0, and of at least 1 once a range has two or more bytes. With a buffer size of 0, `calcBufferSize` returns 0 and the loop at line 111 never ends once a range has two or more bytes. A negative size makes the `new byte[]` at line 94 throw. A buffer size of 0 is accepted when every range has at most one byte, which `Partition.PlanSmallRanges` shows happens exactly when the file has at most one byte or one byte per thread. With zero threads `Totals.CountFile` accepts every buffer size, because the division at line 38 fails before any worker is built (`Totals.ZeroThreads`).
- Partition.Plan, Totals.WordCount, Totals.CountFile: the thread count is a `nat`. A negative `numOfThreads` makes `new WordCounter[numOfThreads]` at line 35 throw `NegativeArraySizeException` before the division at line 38, and the model has no outcome for that exception.
- An input path that does not exist is not modelled: the file is given as its bytes.

## Findings

| source | as written | input that shows it | evidently intended | confidence | as-written member | corrected member |
|---|---|---|---|---|---|---|
| src/WordCounter.java:105 | the worker streams `m_Size - 1` bytes because the boundary check is assumed to have consumed one byte, but at offset 0 it consumes none, so the first range never streams its last byte | "cat " with one thread counts 0; "cat dog" split as `[0,4)`, `[4,7)` counts 1 | every worker streams up to the end of its range, so the total is the count of one stream over the file | not executed | Scenarios.TrailingSeparatorOneWorker | Totals.FixedPartitionInvariance |
| src/WordCounter.java:220 | the boundary check counts a word end when the first byte of the range is not a letter, without the apostrophe exclusion `countWords` applies at line 266 | "it's" with two threads (`[0,2)`, `[2,4)`) counts 2 | an apostrophe at a range boundary does not end the word before it | not executed | Scenarios.ApostropheAtBoundary | Totals.FixedFirstChar |

The general forms of both rows are `Worker.RangeCountDecomposition` (as written) and
`Totals.FixedRangeCount` with `Totals.FixedTilingSum` (corrected).

A related behaviour is not a finding, because one stream over the file behaves
the same way (`Scenarios.TrailingApostropheHidesWordEnd`). An apostrophe
between a word and a separator hides the word end: the separator sees the
apostrophe, not a letter, as its predecessor.
