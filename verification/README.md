# Weight readings buffer: a Dafny model

The weight service reads samples from a serial scale and serves a smoothed
weight over HTTP. At its core is `WeightReadings`, a bounded buffer of recent
samples. This project models that buffer:

- construction with a retention bound `maxSize` and a deviation threshold
  `thresholdDeviation`;
- `AddReading`, which appends a sample and drops the oldest one once the buffer
  holds more than `maxSize` samples;
- `RawReadings`, which returns a copy of the stored samples;
- `AverageReading`, which computes the smoothed weight. It sorts a copy of the
  samples and takes the middle sample `middleReading` at index `len/2`. It keeps
  the samples whose absolute distance from the middle is at most the
  threshold, and returns the mean of the kept samples.

Modules:

- `Wrappers`: `Option` and `Result`.
- `Sorting`: the `Sorted` predicate and a functional sort. It also proves that
  a sorted permutation is unique, so the model does not depend on which sort
  algorithm the program uses.
- `Stats`: absolute value, sum and mean over exact reals, with bounds on the
  sum and the mean.
- `Readings`: the buffer value `Buffer` and the operations on it.
  - The retention-window lemmas: a fresh buffer keeps the latest
    `maxSize + 1` appended samples.
  - The upper-median property of the middle sample.
  - The properties of the kept set and of the smoothed value.
  - Loop-level methods that follow the program's two passes over the data.
- `Calls`: the buffer as shared state. The lock makes each call atomic, so a
  run is a sequence of calls applied one after another. Read calls never
  change the buffer, and whatever reads are interleaved, the stored samples
  are the ones the appends alone would leave.
- `ReadingsExamples`: the two cases of the repository's unit test, proved on
  the model.

Some behaviours of the program are modelled explicitly:

- `maxSize` is not validated. When it is negative, the very first append
  re-slices an empty slice from index 1, which is a runtime panic.
  `AddReading` returns `Failure(SliceBoundsOutOfRange)` for it.
- When nothing is kept, the program divides 0 by 0 and returns NaN.
  `AverageReading` returns `None` there. This happens exactly when the buffer
  is empty or the threshold is negative.
- The buffer settles at `maxSize + 1` samples, not `maxSize`, because the drop
  happens only when the length is strictly greater than `maxSize`. The model
  keeps that bound as the code has it.

## Model

| member | source | states |
|---|---|---|
| Readings.NewWeightReadings | api/readings.go:16-23 | a fresh buffer holds no readings and keeps the given maxSize and threshold |
| Readings.AddReading | api/readings.go:25-35 | an append faults exactly when maxSize is negative and the buffer is empty; otherwise it keeps the configuration, and the buffer is non-empty and ends with the new sample |
| Readings.AddReadingCases | api/readings.go:29-34 | at or below maxSize samples an append is old ++ [x]; above it the append is old[1..] ++ [x] and the count does not change |
| Readings.AddAll | reading_test.go:23-25 | successive AddReading calls that stop at the first fault; the configuration never changes, and a fault happens only when maxSize is negative |
| Readings.AddAllFromEmpty | api/readings.go:25-35 | appending xs to a fresh buffer with maxSize >= 0 never faults, keeps the configuration and stores exactly the latest maxSize+1 samples of xs, in order |
| Readings.RawReadings | api/readings.go:46-53 | the copy handed out equals the stored readings, in stored order |
| Readings.RawReadingsAfterAdds | api/readings.go:29-34 | after appending xs to a fresh buffer, the raw readings hold min(length of xs, maxSize+1) samples: all of xs while they fit, otherwise its last maxSize+1 |
| Readings.NegativeMaxSizeFaults | api/readings.go:30-31 | with a negative maxSize the first append on a fresh buffer faults, and so does any run of appends |
| Readings.MiddleReading | api/readings.go:38-44 | the middle of no samples is 0; otherwise it is one of the samples |
| Readings.MiddleIsUpperMedian | api/readings.go:38-44 | on sorted non-empty data, more than half of the samples are at most the middle sample and at least half are at least it |
| Sorting.Insert | api/readings.go:63 | inserting into a sorted sequence gives a sorted sequence with the same samples plus the new one |
| Sorting.Sort | api/readings.go:63 | the sorted copy is sorted and a permutation of the readings |
| Sorting.SortedUnique | api/readings.go:63 | two sorted permutations of the same samples are equal, so any correct sort gives the same copy |
| Sorting.SortIsPermutationInvariant | api/readings.go:63 | the sorted copy depends only on the multiset of readings |
| Sorting.SortOfSorted | api/readings.go:63 | sorting already-sorted readings leaves them unchanged |
| Stats.Abs | api/readings.go:70 | the absolute difference is non-negative and equals the difference or its negation |
| Readings.Filter | api/readings.go:67-74 | the filtered samples are no more than the input, and each lies within the threshold of the middle |
| Readings.FilterMultiset | api/readings.go:67-74 | filtering keeps each near sample exactly as often as it occurs and drops every other sample |
| Readings.FilterSubset | api/readings.go:67-74 | every filtered sample occurs in the input |
| Readings.FilterSorted | api/readings.go:67-74 | filtering the sorted copy yields a sorted sequence |
| Readings.FilterLoop | api/readings.go:67-74 | the program's filtering loop over the sorted copy collects exactly the near samples, in order |
| Stats.Sum | api/readings.go:76-81 | the sum accumulated from the first sample to the last: 0 for no samples, the sample itself for one |
| Stats.SumConcat | api/readings.go:76-81 | the sum of a concatenation is the sum of the parts |
| Stats.SumBounds | api/readings.go:76-81 | a sum of n samples within [lo, hi] lies within [n*lo, n*hi] |
| Readings.SumLoop | api/readings.go:76-81 | the summing loop returns the sum of the kept samples and their count |
| Stats.Mean | api/readings.go:83 | the mean times the count is the sum |
| Stats.MeanBounds | api/readings.go:83 | the mean of samples within [lo, hi] lies within [lo, hi] |
| Readings.KeptReadings | api/readings.go:63-74 | the kept samples are sorted |
| Readings.KeptMultiset | api/readings.go:63-74 | the kept samples are exactly the stored readings near the middle of the sorted copy, with their multiplicities |
| Readings.KeptAreStored | api/readings.go:67-74 | every kept sample is a stored reading |
| Readings.KeptEmptyIff | api/readings.go:65-83 | nothing is kept exactly when the buffer is empty or the threshold is negative |
| Readings.AverageReading | api/readings.go:56-84 | there is no smoothed value (Go's 0/0) exactly when the buffer is empty or the threshold is negative |
| Readings.AverageWithinKept | api/readings.go:76-83 | the smoothed value lies between the least and the greatest kept sample |
| Readings.AverageNearMiddle | api/readings.go:65-83 | the smoothed value is within the threshold of the middle sample |
| Readings.AverageBounds | api/readings.go:56-84 | the smoothed value lies between two stored readings, the least and greatest kept, and within the threshold of the middle sample |
| Readings.AverageIsOrderInvariant | api/readings.go:56-84 | buffers holding the same samples in any order, with the same threshold, smooth to the same value |
| Readings.ComputeAverageReading | api/readings.go:56-84 | the step-by-step computation (sort, middle, filtering pass, summing pass, divide) gives the smoothed value, and None for a zero count |
| Calls.Run | api/readings.go:25-61 | the calls applied one after another, each under the lock; a run that does not fault gives one reply per call and keeps the configuration, and a run can fault only when maxSize is negative |
| Calls.RunConcat | api/readings.go:25-61 | running two runs in turn is running their concatenation: the second starts from the buffer the first leaves, and the replies follow one another |
| Calls.Step | api/readings.go:25-61 | a read call cannot fault and leaves the buffer unchanged; an append call faults exactly when AddReading does and otherwise leaves AddReading's buffer |
| Calls.RunIsAppendsAlone | api/readings.go:25-61 | any run of calls faults exactly when its appends alone fault, and otherwise leaves the buffer its appends alone leave |
| Calls.RunFromFresh | api/readings.go:16-35 | from a fresh buffer with maxSize >= 0, any interleaving of calls stores the latest maxSize+1 appended samples |
| Calls.ReadsLeaveBufferUnchanged | api/readings.go:46-61 | a run of read calls leaves the buffer as it was, and each reply is the answer computed on that buffer |
| Calls.RepeatedAveragesAgree | api/readings.go:56-61 | in any run that does not fault, two smoothed-weight requests with no append between them get the same reply, the smoothed value of the buffer as it stood before the first, whatever appends come before or after |
| ReadingsExamples.SingleReadingExample | reading_test.go:16 | one reading of 1500 on a buffer (30, 10) smooths to 1500 |
| ReadingsExamples.ShortRunKeepsAll | reading_test.go:20-25 | up to 31 readings appended to a fresh buffer (30, 10) are all stored, in order |
| ReadingsExamples.OutlierExample | reading_test.go:17 | readings 1500, 1001, 1005, 1002, 998, 994 on a buffer (30, 10) smooth to 1000; the 1500 outlier is dropped |

## Left out

- The serial reader `api/serial.go` is not part of this model. That covers the port, the line reader, the
  regular-expression extraction of the number, float parsing and the clamp of negative weights.
  All of it is I/O or text parsing outside the buffer.
- The HTTP server `api/webserver.go` is not part of this model. It is I/O, and the JSON encoding of replies is not modelled.
- The program entry point `bin/main.go` and the goroutines and channel it starts are not part of this model. They only wire the parts together.
- The legacy reader `old/read_serial.go` is not part of this model. The program no longer uses it.
- The mutex: each call is modelled as one atomic step on the buffer value, as the lock makes it. Lock
  fairness and blocking are not modelled.
- IEEE-754 arithmetic: samples are exact reals. Rounding in the sum and the division, NaN, infinities and
  signed zero are not modelled. A NaN threshold or sample is not modelled either.
- Readings.AverageReading: where the program returns NaN (zero samples kept), the model returns None rather than a float value.
- Readings.ComputeAverageReading: the sorting step uses the functional sort rather than the program's in-place library
  sort. By Sorting.SortedUnique, every correct sort gives the same result.
- Memory behaviour of Go slices (reuse of the backing array after re-slicing) is not modelled. Only the slice contents are.
