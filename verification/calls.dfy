/**
 The buffer as the rest of the program sees it: a single shared value on
 which the serial reader appends and the web handler asks for the smoothed
 weight or the raw samples. The lock around every method makes each call
 atomic, so a run of the program is a sequence of calls applied one after
 another to the buffer value.
 */
module Calls {
  import opened Wrappers
  import opened Readings

  /** A call on the shared buffer. */
  datatype Call = Add(reading: real) | Average | Raw

  /** What a call hands back to its caller. */
  datatype Reply = Added | Smoothed(value: Option<real>) | Snapshot(readings: seq<real>)

  /** The buffer after a call, with the call's reply. */
  datatype Outcome = Outcome(buffer: Buffer, reply: Reply)

  /** One atomic call; a fault (the slice panic) ends the run. */
  function Step(b: Buffer, c: Call): (r: Result<Outcome, Fault>)
    ensures !c.Add? ==> r.Success? && r.value.buffer == b
    ensures c.Add? ==> (r.Success? <==> AddReading(b, c.reading).Success?)
    ensures c.Add? && r.Success? ==> r.value.buffer == AddReading(b, c.reading).value
  {
    match c
    case Add(x) =>
      (match AddReading(b, x)
       case Failure(e) => Failure(e)
       case Success(b') => Success(Outcome(b', Added)))
    case Average => Success(Outcome(b, Smoothed(AverageReading(b))))
    case Raw => Success(Outcome(b, Snapshot(RawReadings(b))))
  }

  /**
   Applies the calls in order, collecting one reply per call. The
   configuration never changes, and a run can fault only when `maxSize` is
   negative.
   */
  function Run(b: Buffer, calls: seq<Call>): (r: Result<(Buffer, seq<Reply>), Fault>)
    ensures r.Success? ==> |r.value.1| == |calls|
    ensures r.Success? ==> r.value.0.maxSize == b.maxSize && r.value.0.thresholdDeviation == b.thresholdDeviation
    ensures r.Failure? ==> b.maxSize < 0
  {
    if |calls| == 0 then Success((b, []))
    else
      match Run(b, calls[..|calls| - 1])
      case Failure(e) => Failure(e)
      case Success(done) =>
        match Step(done.0, calls[|calls| - 1])
        case Failure(e) => Failure(e)
        case Success(o) => Success((o.buffer, done.1 + [o.reply]))
  }

  /** The samples appended by a run, in the order of the calls. */
  function Appended(calls: seq<Call>): (xs: seq<real>)
    ensures ReadOnly(calls) ==> xs == []
  {
    if |calls| == 0 then []
    else
      var last := calls[|calls| - 1];
      Appended(calls[..|calls| - 1]) + (if last.Add? then [last.reading] else [])
  }

  predicate ReadOnly(calls: seq<Call>) {
    forall i :: 0 <= i < |calls| ==> !calls[i].Add?
  }

  /** The reply a read call gives on buffer `b`. */
  function Answer(b: Buffer, c: Call): Reply
    requires !c.Add?
  {
    if c.Average? then Smoothed(AverageReading(b)) else Snapshot(b.readings)
  }

  /**
   Reads never disturb the appender: whatever read calls are interleaved, a
   run faults exactly when appending its samples alone faults, and otherwise
   leaves the buffer that appending them alone leaves.
   */
  lemma {:induction false} RunIsAppendsAlone(b: Buffer, calls: seq<Call>)
    ensures Run(b, calls).Success? <==> AddAll(b, Appended(calls)).Success?
    ensures Run(b, calls).Success? ==> Run(b, calls).value.0 == AddAll(b, Appended(calls)).value
  {
    if |calls| > 0 {
      var init := calls[..|calls| - 1];
      var last := calls[|calls| - 1];
      RunIsAppendsAlone(b, init);
      if last.Add? {
        AddAllAppendOne(b, Appended(init), last.reading, Appended(calls));
      } else {
        assert Appended(calls) == Appended(init);
      }
    }
  }

  /**
   From a fresh buffer with a non-negative size, any run keeps exactly the
   latest maxSize+1 appended samples, however the reads are interleaved.
   */
  lemma RunFromFresh(maxSize: int, t: real, calls: seq<Call>)
    requires maxSize >= 0
    ensures Run(NewWeightReadings(maxSize, t), calls).Success?
    ensures Run(NewWeightReadings(maxSize, t), calls).value.0
         == Buffer(Latest(Appended(calls), maxSize + 1), maxSize, t)
  {
    RunIsAppendsAlone(NewWeightReadings(maxSize, t), calls);
    AddAllFromEmpty(maxSize, t, Appended(calls));
  }

  /**
   A run of read calls leaves the buffer as it was, and each reply is the
   answer for that unchanged buffer, so asking twice gives the same value.
   */
  lemma {:induction false} ReadsLeaveBufferUnchanged(b: Buffer, calls: seq<Call>)
    requires ReadOnly(calls)
    ensures Run(b, calls).Success?
    ensures Run(b, calls).value.0 == b
    ensures |Run(b, calls).value.1| == |calls|
    ensures forall i :: 0 <= i < |calls| ==> Run(b, calls).value.1[i] == Answer(b, calls[i])
  {
    if |calls| > 0 {
      var init := calls[..|calls| - 1];
      assert ReadOnly(init) by {
        forall i | 0 <= i < |init| ensures !init[i].Add? {
          assert init[i] == calls[i];
        }
      }
      ReadsLeaveBufferUnchanged(b, init);
    }
  }

  /**
   Running `p` and then `q` is running `p + q`: the second part starts from
   the buffer the first leaves, and the replies follow one another.
   */
  lemma {:induction false} RunConcat(b: Buffer, p: seq<Call>, q: seq<Call>, pq: seq<Call>)
    requires pq == p + q
    ensures Run(b, pq).Success? <==> Run(b, p).Success? && Run(Run(b, p).value.0, q).Success?
    ensures Run(b, pq).Success? ==>
      Run(b, pq).value == (Run(Run(b, p).value.0, q).value.0, Run(b, p).value.1 + Run(Run(b, p).value.0, q).value.1)
  {
    if |q| == 0 {
      assert pq == p;
      if Run(b, p).Success? {
        assert Run(b, p).value.1 + [] == Run(b, p).value.1;
      }
    } else {
      var q' := q[..|q| - 1];
      RunConcat(b, p, q', pq[..|pq| - 1]);
      assert pq[|pq| - 1] == q[|q| - 1];
      if Run(b, pq).Success? {
        var d := Run(b, p).value;
        var e := Run(d.0, q').value;
        var o := Step(e.0, q[|q| - 1]).value;
        assert (d.1 + e.1) + [o.reply] == d.1 + (e.1 + [o.reply]);
      }
    }
  }

  /**
   Two smoothed-weight requests with no append between them get the same
   reply, the smoothed value of the buffer as it stood before the first.
   */
  lemma RepeatedAveragesAgree(b: Buffer, calls: seq<Call>, i: nat, j: nat)
    requires i <= j < |calls|
    requires calls[i].Average? && calls[j].Average?
    requires forall k :: i <= k <= j ==> !calls[k].Add?
    ensures Run(b, calls).Success? ==>
      && Run(b, calls[..i]).Success?
      && Run(b, calls).value.1[i] == Run(b, calls).value.1[j] == Smoothed(AverageReading(Run(b, calls[..i]).value.0))
  {
    var upto := calls[..j + 1];
    var mid := calls[i..j + 1];
    RunConcat(b, upto, calls[j + 1..], calls);
    RunConcat(b, calls[..i], mid, upto);
    assert ReadOnly(mid) by {
      forall k | 0 <= k < |mid| ensures !mid[k].Add? {
        assert mid[k] == calls[i + k];
      }
    }
    if Run(b, calls).Success? {
      var before := Run(b, calls[..i]).value.0;
      ReadsLeaveBufferUnchanged(before, mid);
      assert mid[0] == calls[i] && mid[j - i] == calls[j];
    }
  }
}
