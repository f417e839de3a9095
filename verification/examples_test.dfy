/**
 The two cases of the repository's unit test for the buffer, both on a
 buffer built with maxSize 30 and threshold 10.

 The literal sequences are passed as parameters pinned by a precondition, so
 that the proofs work on them step by step.
 */
module ReadingsExamples {
  import opened Wrappers
  import opened Sorting
  import opened Stats
  import opened Readings

  /** One reading of 1500 smooths to 1500. */
  lemma SingleReadingExample()
    ensures AddAll(NewWeightReadings(30, 10.0), [1500.0]).Success?
    ensures AverageReading(AddAll(NewWeightReadings(30, 10.0), [1500.0]).value) == Some(1500.0)
  {
    var b := AddAll(NewWeightReadings(30, 10.0), [1500.0]).value;
    assert b.readings == [1500.0];
    assert Sort(b.readings) == [1500.0];
    assert KeptReadings(b) == [1500.0];
  }

  lemma SortedExampleIsPermutation()
    ensures multiset([994.0, 998.0, 1001.0, 1002.0, 1005.0, 1500.0])
         == multiset([1500.0, 1001.0, 1005.0, 1002.0, 998.0, 994.0])
  {
  }

  lemma SortedExampleIsSorted()
    ensures Sorted([994.0, 998.0, 1001.0, 1002.0, 1005.0, 1500.0])
  {
  }

  lemma SortExampleBy(xs: seq<real>, sorted: seq<real>)
    requires xs == [1500.0, 1001.0, 1005.0, 1002.0, 998.0, 994.0]
    requires sorted == [994.0, 998.0, 1001.0, 1002.0, 1005.0, 1500.0]
    ensures Sort(xs) == sorted
  {
    SortedExampleIsPermutation();
    SortedExampleIsSorted();
    SortedUnique(Sort(xs), sorted);
  }

  lemma FilterExampleBy(s: seq<real>, kept: seq<real>)
    requires s == [994.0, 998.0, 1001.0, 1002.0, 1005.0, 1500.0]
    requires kept == [994.0, 998.0, 1001.0, 1002.0, 1005.0]
    ensures Filter(s, 1002.0, 10.0) == kept
  {
    assert Filter(s[..0], 1002.0, 10.0) == [];
    assert s[..1][..0] == s[..0];
    assert Filter(s[..1], 1002.0, 10.0) == s[..1];
    assert s[..2][..1] == s[..1];
    assert Filter(s[..2], 1002.0, 10.0) == s[..2];
    assert s[..3][..2] == s[..2];
    assert Filter(s[..3], 1002.0, 10.0) == s[..3];
    assert s[..4][..3] == s[..3];
    assert Filter(s[..4], 1002.0, 10.0) == s[..4];
    assert s[..5][..4] == s[..4];
    assert Filter(s[..5], 1002.0, 10.0) == s[..5];
    assert s[..5] == s[..6][..5];
    assert s[..6] == s;
    assert s[..5] == kept;
  }

  lemma SumExampleBy(s: seq<real>)
    requires s == [994.0, 998.0, 1001.0, 1002.0, 1005.0]
    ensures Sum(s) == 5000.0
  {
    assert s[..1][..0] == s[..0];
    assert s[..2][..1] == s[..1];
    assert s[..3][..2] == s[..2];
    assert s[..4][..3] == s[..3];
    assert s[..5][..4] == s[..4];
    assert Sum(s[..1]) == 994.0;
    assert Sum(s[..2]) == 1992.0;
    assert Sum(s[..3]) == 2993.0;
    assert Sum(s[..4]) == 3995.0;
    assert s[..5] == s;
  }

  lemma MiddleExampleBy(sorted: seq<real>)
    requires sorted == [994.0, 998.0, 1001.0, 1002.0, 1005.0, 1500.0]
    ensures MiddleReading(sorted) == 1002.0
  {
    assert sorted[3] == 1002.0;
  }

  lemma KeptExampleBy(b: Buffer, sorted: seq<real>, kept: seq<real>)
    requires sorted == [994.0, 998.0, 1001.0, 1002.0, 1005.0, 1500.0]
    requires kept == [994.0, 998.0, 1001.0, 1002.0, 1005.0]
    requires Sort(b.readings) == sorted
    requires b.thresholdDeviation == 10.0
    ensures KeptReadings(b) == kept
  {
    MiddleExampleBy(sorted);
    FilterExampleBy(sorted, kept);
  }

  lemma AverageExampleBy(b: Buffer, kept: seq<real>)
    requires kept == [994.0, 998.0, 1001.0, 1002.0, 1005.0]
    requires KeptReadings(b) == kept
    ensures AverageReading(b) == Some(1000.0)
  {
    SumExampleBy(kept);
  }

  lemma ShortRunKeepsAll(xs: seq<real>)
    requires |xs| <= 31
    ensures AddAll(NewWeightReadings(30, 10.0), xs) == Success(Buffer(xs, 30, 10.0))
  {
    AddAllFromEmpty(30, 10.0, xs);
  }

  lemma OutlierExample(xs: seq<real>)
    requires xs == [1500.0, 1001.0, 1005.0, 1002.0, 998.0, 994.0]
    ensures AddAll(NewWeightReadings(30, 10.0), xs).Success?
    ensures AverageReading(AddAll(NewWeightReadings(30, 10.0), xs).value) == Some(1000.0)
  {
    var sorted := [994.0, 998.0, 1001.0, 1002.0, 1005.0, 1500.0];
    ShortRunKeepsAll(xs);
    SortExampleBy(xs, sorted);
    var kept := [994.0, 998.0, 1001.0, 1002.0, 1005.0];
    KeptExampleBy(Buffer(xs, 30, 10.0), sorted, kept);
    AverageExampleBy(Buffer(xs, 30, 10.0), kept);
  }
}
