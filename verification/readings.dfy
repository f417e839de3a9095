/**
 The bounded reading buffer of the weight service (`WeightReadings`): a
 sequence of samples, oldest first, with a retention bound `maxSize` and a
 deviation threshold `thresholdDeviation`, both fixed at construction.

 The buffer's mutex only makes each call atomic on the sequence, so every
 operation is modelled as a pure function of the buffer's value.
 */
module Readings {
  import opened Wrappers
  import opened Sorting
  import opened Stats

  /** The value of a `WeightReadings` between two calls. */
  datatype Buffer = Buffer(readings: seq<real>, maxSize: int, thresholdDeviation: real)

  /** Runtime faults a call can raise instead of returning. */
  datatype Fault =
    /** Re-slicing an empty slice from index 1. */
    SliceBoundsOutOfRange

  // ---------------------------------------------------------------------------
  // Construction and appending
  // ---------------------------------------------------------------------------

  /** A fresh buffer: no readings, and the configuration as given. */
  function NewWeightReadings(maxSize: int, thresholdDeviation: real): (b: Buffer)
    ensures b.readings == []
    ensures b.maxSize == maxSize && b.thresholdDeviation == thresholdDeviation
  {
    Buffer([], maxSize, thresholdDeviation)
  }

  /**
   Appends one sample. The oldest sample is dropped first when the buffer
   already holds MORE than `maxSize` samples, so the buffer settles at
   `maxSize + 1` samples. `maxSize` is not validated: when it is negative the
   drop is attempted on an empty buffer too, and that re-slice faults.
   */
  function AddReading(b: Buffer, reading: real): (r: Result<Buffer, Fault>)
    ensures r.Failure? <==> b.maxSize < 0 && |b.readings| == 0
    ensures r.Success? ==>
      && r.value.maxSize == b.maxSize
      && r.value.thresholdDeviation == b.thresholdDeviation
      && |r.value.readings| > 0
      && r.value.readings[|r.value.readings| - 1] == reading
  {
    if |b.readings| > b.maxSize then
      if |b.readings| == 0 then Failure(SliceBoundsOutOfRange)
      else Success(b.(readings := b.readings[1..] + [reading]))
    else
      Success(b.(readings := b.readings + [reading]))
  }

  /**
   Below the bound an append only extends the readings; above it, it drops
   the oldest sample, so the count stays the same.
   */
  lemma AddReadingCases(b: Buffer, reading: real)
    requires AddReading(b, reading).Success?
    ensures var after := AddReading(b, reading).value.readings;
      && (|b.readings| <= b.maxSize ==> after == b.readings + [reading])
      && (|b.readings| > b.maxSize ==> after == b.readings[1..] + [reading] && |after| == |b.readings|)
  {
  }

  /**
   Appends `xs` in order, stopping at the first fault. The configuration
   never changes, and a run can fault only when `maxSize` is negative.
   */
  function AddAll(b: Buffer, xs: seq<real>): (r: Result<Buffer, Fault>)
    ensures r.Success? ==> r.value.maxSize == b.maxSize && r.value.thresholdDeviation == b.thresholdDeviation
    ensures r.Failure? ==> b.maxSize < 0
  {
    if |xs| == 0 then Success(b)
    else
      match AddAll(b, xs[..|xs| - 1])
      case Failure(e) => Failure(e)
      case Success(b') => AddReading(b', xs[|xs| - 1])
  }

  /** Appending `xs` and then `x` is appending `xs + [x]`. */
  lemma AddAllAppendOne(b: Buffer, xs: seq<real>, x: real, ys: seq<real>)
    requires ys == xs + [x]
    ensures AddAll(b, ys) == if AddAll(b, xs).Failure? then AddAll(b, xs) else AddReading(AddAll(b, xs).value, x)
  {
    assert ys[..|xs|] == xs;
  }

  function Min(a: int, b: int): int {
    if a <= b then a else b
  }

  /** The last `k` samples of `s`, or all of `s` when it has fewer. */
  function Latest(s: seq<real>, k: nat): (r: seq<real>)
    ensures |r| == Min(|s|, k)
  {
    s[|s| - Min(|s|, k)..]
  }

  /** A sequence no longer than `k` is its own latest `k` samples. */
  lemma LatestOfShort(s: seq<real>, k: nat)
    requires |s| <= k
    ensures Latest(s, k) == s
  {
    assert s[0..] == s;
  }

  /** A copy of the stored samples, oldest first. */
  function RawReadings(b: Buffer): (r: seq<real>)
    ensures r == b.readings
  {
    b.readings
  }

  /**
   Appending to a window of the latest `k` samples: the window grows while
   it is short of `k`, and otherwise slides by one.
   */
  lemma LatestSnoc(all: seq<real>, x: real, k: nat)
    requires k > 0
    ensures var w := Latest(all, k);
      Latest(all + [x], k) == (if |w| == k then w[1..] else w) + [x]
  {
    var w := Latest(all, k);
    if |w| == k {
      assert w == all[|all| - k..];
      assert Latest(all + [x], k) == (all + [x])[|all| + 1 - k..];
    } else {
      assert w == all[0..] == all;
      assert Latest(all + [x], k) == (all + [x])[0..];
    }
  }

  /** One append to a buffer holding the latest samples of `all` holds the latest samples of `all + [x]`. */
  lemma AddReadingKeepsLatest(b: Buffer, all: seq<real>, x: real)
    requires b.maxSize >= 0
    requires b.readings == Latest(all, b.maxSize + 1)
    ensures AddReading(b, x) == Success(Buffer(Latest(all + [x], b.maxSize + 1), b.maxSize, b.thresholdDeviation))
  {
    LatestSnoc(all, x, b.maxSize + 1);
  }

  /** One more append after `xs` moves the window of latest samples on by that sample. */
  lemma AddAllSnoc(maxSize: int, thresholdDeviation: real, xs: seq<real>, x: real, ys: seq<real>)
    requires maxSize >= 0
    requires ys == xs + [x]
    requires AddAll(NewWeightReadings(maxSize, thresholdDeviation), xs)
          == Success(Buffer(Latest(xs, maxSize + 1), maxSize, thresholdDeviation))
    ensures AddAll(NewWeightReadings(maxSize, thresholdDeviation), ys)
         == Success(Buffer(Latest(ys, maxSize + 1), maxSize, thresholdDeviation))
  {
    var b' := Buffer(Latest(xs, maxSize + 1), maxSize, thresholdDeviation);
    assert ys[..|xs|] == xs;
    AddReadingKeepsLatest(b', xs, x);
  }

  /**
   Starting from a fresh buffer with `maxSize >= 0`, appending `xs` never
   faults, keeps the configuration, and stores the latest `maxSize + 1`
   samples of `xs`.
   */
  lemma {:induction false} AddAllFromEmpty(maxSize: int, thresholdDeviation: real, xs: seq<real>)
    requires maxSize >= 0
    ensures AddAll(NewWeightReadings(maxSize, thresholdDeviation), xs)
         == Success(Buffer(Latest(xs, maxSize + 1), maxSize, thresholdDeviation))
  {
    if |xs| == 0 {
      LatestOfShort(xs, maxSize + 1);
    } else {
      var p := xs[..|xs| - 1];
      AddAllFromEmpty(maxSize, thresholdDeviation, p);
      AddAllSnoc(maxSize, thresholdDeviation, p, xs[|xs| - 1], xs);
    }
  }

  /**
   After appending `xs` to a fresh buffer with `maxSize >= 0`, the raw
   readings are min(|xs|, maxSize + 1) samples: all of `xs` while they fit
   in `maxSize + 1`, otherwise exactly the latest `maxSize + 1`, in append order.
   */
  lemma RawReadingsAfterAdds(maxSize: int, thresholdDeviation: real, xs: seq<real>)
    requires maxSize >= 0
    ensures AddAll(NewWeightReadings(maxSize, thresholdDeviation), xs).Success?
    ensures var raw := RawReadings(AddAll(NewWeightReadings(maxSize, thresholdDeviation), xs).value);
      && |raw| == Min(|xs|, maxSize + 1)
      && (|xs| <= maxSize + 1 ==> raw == xs)
      && (|xs| > maxSize + 1 ==> raw == xs[|xs| - (maxSize + 1)..])
  {
    AddAllFromEmpty(maxSize, thresholdDeviation, xs);
    if |xs| <= maxSize + 1 {
      assert xs[0..] == xs;
    }
  }

  /** With a negative `maxSize`, the very first append on a fresh buffer faults. */
  lemma {:induction false} NegativeMaxSizeFaults(maxSize: int, thresholdDeviation: real, xs: seq<real>)
    requires maxSize < 0
    requires |xs| > 0
    ensures AddAll(NewWeightReadings(maxSize, thresholdDeviation), xs) == Failure(SliceBoundsOutOfRange)
  {
    if |xs| > 1 {
      NegativeMaxSizeFaults(maxSize, thresholdDeviation, xs[..|xs| - 1]);
    }
  }

  // ---------------------------------------------------------------------------
  // The middle sample
  // ---------------------------------------------------------------------------

  /**
   The sample at position |data| / 2 (integer division) of `data`, or 0 when
   `data` is empty. On sorted data this is the upper of the two middle samples
   when the count is even, not an interpolated median.
   */
  function MiddleReading(data: seq<real>): (m: real)
    ensures |data| == 0 ==> m == 0.0
    ensures |data| > 0 ==> m in data
  {
    if |data| == 0 then 0.0 else data[|data| / 2]
  }

  /** Number of samples in `s` that are at most `v`. */
  function CountAtMost(s: seq<real>, v: real): nat {
    if |s| == 0 then 0
    else CountAtMost(s[..|s| - 1], v) + (if s[|s| - 1] <= v then 1 else 0)
  }

  /** Number of samples in `s` that are at least `v`. */
  function CountAtLeast(s: seq<real>, v: real): nat {
    if |s| == 0 then 0
    else CountAtLeast(s[..|s| - 1], v) + (if v <= s[|s| - 1] then 1 else 0)
  }

  lemma {:induction false} CountAtMostPrefix(s: seq<real>, v: real, j: nat)
    requires j <= |s|
    requires forall i :: 0 <= i < j ==> s[i] <= v
    ensures CountAtMost(s, v) >= j
  {
    if |s| > 0 {
      var init := s[..|s| - 1];
      if j == |s| {
        CountAtMostPrefix(init, v, j - 1);
      } else {
        CountAtMostPrefix(init, v, j);
      }
    }
  }

  lemma {:induction false} CountAtLeastSuffix(s: seq<real>, v: real, j: nat)
    requires j <= |s|
    requires forall i :: j <= i < |s| ==> v <= s[i]
    ensures CountAtLeast(s, v) >= |s| - j
  {
    if |s| > 0 && j < |s| {
      var init := s[..|s| - 1];
      CountAtLeastSuffix(init, v, j);
    }
  }

  /**
   On sorted, non-empty data the middle sample is an upper median: more than
   half of the samples are at most it, and at least half are at least it.
   */
  lemma MiddleIsUpperMedian(data: seq<real>)
    requires Sorted(data) && |data| > 0
    ensures 2 * CountAtMost(data, MiddleReading(data)) > |data|
    ensures 2 * CountAtLeast(data, MiddleReading(data)) >= |data|
  {
    var k := |data| / 2;
    CountAtMostPrefix(data, data[k], k + 1);
    CountAtLeastSuffix(data, data[k], k);
  }

  // ---------------------------------------------------------------------------
  // Filtering and the smoothed value
  // ---------------------------------------------------------------------------

  /** A sample is kept when its absolute distance from the middle is within the threshold. */
  predicate Near(x: real, middle: real, threshold: real) {
    Abs(x - middle) <= threshold
  }

  /** The samples of `s` near `middle`, in their order in `s`. */
  function Filter(s: seq<real>, middle: real, threshold: real): (r: seq<real>)
    ensures |r| <= |s|
    ensures forall i :: 0 <= i < |r| ==> Near(r[i], middle, threshold)
  {
    if |s| == 0 then []
    else
      var rest := Filter(s[..|s| - 1], middle, threshold);
      if Near(s[|s| - 1], middle, threshold) then rest + [s[|s| - 1]] else rest
  }

  /**
   Filtering keeps each near sample exactly as often as it occurs in `s`,
   and no other sample.
   */
  lemma {:induction false} FilterMultiset(s: seq<real>, middle: real, threshold: real)
    ensures forall x ::
              multiset(Filter(s, middle, threshold))[x] == (if Near(x, middle, threshold) then multiset(s)[x] else 0)
  {
    if |s| > 0 {
      var init := s[..|s| - 1];
      var last := s[|s| - 1];
      FilterMultiset(init, middle, threshold);
      assert s == init + [last];
      assert multiset(s) == multiset(init) + multiset{last};
    }
  }

  /** Every filtered sample is a sample of `s`. */
  lemma FilterSubset(s: seq<real>, middle: real, threshold: real, y: real)
    requires y in Filter(s, middle, threshold)
    ensures y in s
  {
    FilterMultiset(s, middle, threshold);
    assert multiset(Filter(s, middle, threshold))[y] > 0;
  }

  /** Filtering a sorted sequence leaves it sorted. */
  lemma {:induction false} FilterSorted(s: seq<real>, middle: real, threshold: real)
    requires Sorted(s)
    ensures Sorted(Filter(s, middle, threshold))
  {
    if |s| > 0 {
      var init := s[..|s| - 1];
      var last := s[|s| - 1];
      var rest := Filter(init, middle, threshold);
      assert Sorted(init);
      FilterSorted(init, middle, threshold);
      forall i | 0 <= i < |rest| ensures rest[i] <= last {
        FilterSubset(init, middle, threshold, rest[i]);
        var j :| 0 <= j < |init| && init[j] == rest[i];
        assert s[j] == init[j];
      }
    }
  }

  /** The samples the smoothed value averages: the sorted readings near their middle. */
  function KeptReadings(b: Buffer): (kept: seq<real>)
    ensures Sorted(kept)
  {
    var data := Sort(b.readings);
    FilterSorted(data, MiddleReading(data), b.thresholdDeviation);
    Filter(data, MiddleReading(data), b.thresholdDeviation)
  }

  /**
   The kept samples are exactly the stored readings near the middle sample,
   each as often as it is stored.
   */
  lemma KeptMultiset(b: Buffer)
    ensures forall x ::
              multiset(KeptReadings(b))[x] ==
              (if Near(x, MiddleReading(Sort(b.readings)), b.thresholdDeviation) then multiset(b.readings)[x] else 0)
  {
    var data := Sort(b.readings);
    FilterMultiset(data, MiddleReading(data), b.thresholdDeviation);
  }

  /**
   Nothing is kept exactly when there is nothing stored or the threshold is
   negative: with a non-negative threshold the middle sample keeps itself.
   */
  lemma KeptEmptyIff(b: Buffer)
    ensures |KeptReadings(b)| == 0 <==> |b.readings| == 0 || b.thresholdDeviation < 0.0
  {
    var kept := KeptReadings(b);
    var data := Sort(b.readings);
    var m := MiddleReading(data);
    KeptMultiset(b);
    if |b.readings| > 0 && b.thresholdDeviation >= 0.0 {
      assert m in multiset(b.readings);
      assert Near(m, m, b.thresholdDeviation);
      assert multiset(kept)[m] > 0;
    }
    if |kept| > 0 {
      assert multiset(kept)[kept[0]] > 0;
    }
  }

  /**
   The smoothed value: the mean of the kept samples, or None where the program
   divides zero by zero.
   */
  function AverageReading(b: Buffer): (r: Option<real>)
    ensures r.None? <==> |b.readings| == 0 || b.thresholdDeviation < 0.0
  {
    var kept := KeptReadings(b);
    KeptEmptyIff(b);
    if |kept| == 0 then None else Some(Mean(kept))
  }

  /** Every kept sample is a stored reading. */
  lemma KeptAreStored(b: Buffer, i: nat)
    requires i < |KeptReadings(b)|
    ensures KeptReadings(b)[i] in b.readings
  {
    KeptMultiset(b);
    var kept := KeptReadings(b);
    assert multiset(kept)[kept[i]] > 0;
  }

  /** A smoothed value lies between the least and the greatest kept sample. */
  lemma AverageWithinKept(b: Buffer)
    requires AverageReading(b).Some?
    ensures var kept := KeptReadings(b);
      && |kept| > 0
      && kept[0] <= AverageReading(b).value <= kept[|kept| - 1]
  {
    var kept := KeptReadings(b);
    assert AverageReading(b).value == Mean(kept);
    assert Within(kept, kept[0], kept[|kept| - 1]) by {
      forall i | 0 <= i < |kept| ensures kept[0] <= kept[i] <= kept[|kept| - 1] {
        assert Sorted(kept);
      }
    }
    MeanBounds(kept, kept[0], kept[|kept| - 1]);
  }

  /** A smoothed value is within the threshold of the middle sample. */
  lemma AverageNearMiddle(b: Buffer)
    requires AverageReading(b).Some?
    ensures Near(AverageReading(b).value, MiddleReading(Sort(b.readings)), b.thresholdDeviation)
  {
    var kept := KeptReadings(b);
    var m := MiddleReading(Sort(b.readings));
    var t := b.thresholdDeviation;
    assert AverageReading(b).value == Mean(kept);
    assert kept == Filter(Sort(b.readings), m, t);
    assert Within(kept, m - t, m + t) by {
      forall i | 0 <= i < |kept| ensures m - t <= kept[i] <= m + t {
        assert Near(kept[i], m, t);
      }
    }
    MeanBounds(kept, m - t, m + t);
  }

  /**
   A smoothed value lies between the least and greatest kept samples, both of
   which are stored readings, and within the threshold of the middle sample.
   */
  lemma AverageBounds(b: Buffer)
    requires AverageReading(b).Some?
    ensures var v := AverageReading(b).value;
      var kept := KeptReadings(b);
      && |kept| > 0
      && kept[0] in b.readings && kept[|kept| - 1] in b.readings
      && kept[0] <= v <= kept[|kept| - 1]
      && Near(v, MiddleReading(Sort(b.readings)), b.thresholdDeviation)
  {
    AverageWithinKept(b);
    AverageNearMiddle(b);
    var kept := KeptReadings(b);
    KeptAreStored(b, 0);
    KeptAreStored(b, |kept| - 1);
  }

  /**
   The smoothed value depends only on which samples are stored, not on the
   order they arrived in.
   */
  lemma AverageIsOrderInvariant(b: Buffer, c: Buffer)
    requires multiset(b.readings) == multiset(c.readings)
    requires b.thresholdDeviation == c.thresholdDeviation
    ensures AverageReading(b) == AverageReading(c)
  {
    SortIsPermutationInvariant(b.readings, c.readings);
  }

  /** The program's first pass: collect, in order, the samples near `middle`. */
  method FilterLoop(data: seq<real>, middle: real, threshold: real) returns (filtered: seq<real>)
    ensures filtered == Filter(data, middle, threshold)
  {
    filtered := [];
    var i := 0;
    while i < |data|
      invariant 0 <= i <= |data|
      invariant filtered == Filter(data[..i], middle, threshold)
    {
      assert data[..i + 1][..i] == data[..i];
      if Abs(data[i] - middle) <= threshold {
        filtered := filtered + [data[i]];
      }
      i := i + 1;
    }
    assert data[..i] == data;
  }

  /** The program's second pass: sum and count the kept samples. */
  method SumLoop(kept: seq<real>) returns (sum: real, count: nat)
    ensures sum == Sum(kept)
    ensures count == |kept|
  {
    sum := 0.0;
    count := 0;
    while count < |kept|
      invariant 0 <= count <= |kept|
      invariant sum == Sum(kept[..count])
    {
      assert kept[..count + 1][..count] == kept[..count];
      sum := sum + kept[count];
      count := count + 1;
    }
    assert kept[..count] == kept;
  }

  /**
   The smoothed value computed step by step as the program does: copy and
   sort, pick the middle, collect the near samples in one pass, then sum and
   count them in a second pass and divide, reporting None for a zero count.
   */
  method ComputeAverageReading(b: Buffer) returns (avg: Option<real>)
    ensures avg == AverageReading(b)
  {
    var data := Sort(b.readings);
    var middle := MiddleReading(data);
    var filtered := FilterLoop(data, middle, b.thresholdDeviation);
    assert filtered == KeptReadings(b);
    var sum, count := SumLoop(filtered);
    if count == 0 {
      avg := None;
    } else {
      avg := Some(sum / (count as real));
    }
  }
}
