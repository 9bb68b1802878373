/** The batch accumulator of src/import.go (`BatchArtifacts`), as a step
    function over an explicit trace of events. The goroutine's `select` either
    receives a record, sees the input channel closed, or sees the five-second
    idle timer fire; each of these is one `Event`. The state is the pending
    batch (the goroutine's local slice) and the batches sent so far on the
    output channel, each tagged with what triggered it.

    `Step` is the code as written: closing the input drops the pending records,
    and an idle flush sends the pending batch without clearing it.
    `StepFlushing` is the corrected accumulator: a final flush on close, and
    after an idle flush the same reset that the size-triggered branch does
    with its "reset for next batch" (src/import.go:89-90); see the findings
    in README.md. */
module Batcher {
  import opened Prelude

  datatype Event<T> = Recv(record: T) | Timeout | Close

  /** Why a batch was sent: the size threshold, the idle timer, or (only in
      the flushing variant) the input closing. */
  datatype Trigger = Full | Idle | Final

  datatype Batch<T> = Batch(trigger: Trigger, records: seq<T>)

  datatype State<T> = State(pending: seq<T>, emitted: seq<Batch<T>>, closed: bool)

  /** The state when the goroutine starts: nothing pending, nothing sent. */
  function Init<T>(): State<T> {
    State([], [], false)
  }

  /** One iteration of the goroutine's loop, as written. After the input has
      closed the goroutine has returned and no event changes anything. */
  function Step<T>(batchSize: int, s: State<T>, e: Event<T>): (r: State<T>)
    ensures s.closed ==> r == s
    ensures s.emitted <= r.emitted && |r.emitted| <= |s.emitted| + 1
  {
    if s.closed then s
    else match e
      case Close => s.(closed := true)
      case Recv(a) =>
        var batch := s.pending + [a];
        if |batch| >= batchSize then State([], s.emitted + [Batch(Full, batch)], false)
        else s.(pending := batch)
      case Timeout =>
        if |s.pending| > 0 then s.(emitted := s.emitted + [Batch(Idle, s.pending)]) else s
  }

  /** The state after a whole trace of events. */
  function Run<T>(batchSize: int, s: State<T>, trace: seq<Event<T>>): (r: State<T>)
    ensures s.closed ==> r == s
    ensures s.emitted <= r.emitted
    decreases |trace|
  {
    if |trace| == 0 then s else Run(batchSize, Step(batchSize, s, trace[0]), trace[1..])
  }

  /** The record slices of a list of batches, as the output channel carries them. */
  function Records<T>(bs: seq<Batch<T>>): (r: seq<seq<T>>)
    ensures |r| == |bs| && forall i :: 0 <= i < |bs| ==> r[i] == bs[i].records
  {
    seq(|bs|, i requires 0 <= i < |bs| => bs[i].records)
  }

  /** What the output channel delivers for a trace, starting from `Init`:
      batches that are never empty and never longer than the threshold. */
  function BatchArtifacts<T>(batchSize: int, trace: seq<Event<T>>): (out: seq<seq<T>>)
    ensures forall i :: 0 <= i < |out| ==> 1 <= |out[i]| <= Threshold(batchSize)
  {
    var r := Run(batchSize, Init(), trace);
    RunKeepsInv(batchSize, Init(), trace);
    assert forall i :: 0 <= i < |r.emitted| ==> WellSized(batchSize, r.emitted[i]);
    Records(r.emitted)
  }

  // ---------------------------------------------------------------------
  // Reference definitions used to state the properties
  // ---------------------------------------------------------------------

  /** The records the goroutine takes off the input channel: those received
      before the first Close. */
  function ReceivedBeforeClose<T>(trace: seq<Event<T>>): seq<T>
    decreases |trace|
  {
    if |trace| == 0 then []
    else match trace[0]
      case Recv(a) => [a] + ReceivedBeforeClose(trace[1..])
      case Timeout => ReceivedBeforeClose(trace[1..])
      case Close => []
  }

  /** A trace that only receives the given records, in order. */
  function Recvs<T>(xs: seq<T>): (trace: seq<Event<T>>)
    ensures |trace| == |xs| && forall i :: 0 <= i < |xs| ==> trace[i] == Recv(xs[i])
  {
    seq(|xs|, i requires 0 <= i < |xs| => Recv(xs[i]))
  }

  /** The records of the size-triggered batches, concatenated in order. */
  function FullRecords<T>(bs: seq<Batch<T>>): seq<T>
    decreases |bs|
  {
    if |bs| == 0 then []
    else
      var last := bs[|bs| - 1];
      FullRecords(bs[..|bs| - 1]) + (if last.trigger == Full then last.records else [])
  }

  /** The records of all batches, concatenated in order. */
  function AllRecords<T>(bs: seq<Batch<T>>): seq<T>
    decreases |bs|
  {
    if |bs| == 0 then [] else AllRecords(bs[..|bs| - 1]) + bs[|bs| - 1].records
  }

  /** The effective threshold: a batch size of zero or less behaves as one. */
  function Threshold(batchSize: int): (t: nat)
    ensures t >= 1 && (batchSize >= 1 ==> t == batchSize)
  {
    if batchSize >= 1 then batchSize else 1
  }

  /** The size rule every sent batch obeys: never empty; exactly the threshold
      when the size triggered it; strictly below the threshold when the timer
      did (so a batch size of one or less never gives an idle batch). */
  predicate WellSized<T>(batchSize: int, b: Batch<T>) {
    && |b.records| >= 1
    && (b.trigger == Full ==> |b.records| == Threshold(batchSize))
    && (b.trigger == Idle ==> |b.records| < Threshold(batchSize))
    && (b.trigger == Final ==> |b.records| < Threshold(batchSize))
  }

  /** What holds between events: the pending batch is below the threshold
      and every batch sent so far is well sized. */
  predicate Inv<T>(batchSize: int, s: State<T>) {
    && |s.pending| < Threshold(batchSize)
    && forall i :: 0 <= i < |s.emitted| ==> WellSized(batchSize, s.emitted[i])
  }

  // ---------------------------------------------------------------------
  // Sizes
  // ---------------------------------------------------------------------

  lemma StepKeepsInv<T>(batchSize: int, s: State<T>, e: Event<T>)
    requires Inv(batchSize, s)
    ensures Inv(batchSize, Step(batchSize, s, e))
  {
  }

  lemma {:induction false} RunKeepsInv<T>(batchSize: int, s: State<T>, trace: seq<Event<T>>)
    requires Inv(batchSize, s)
    ensures Inv(batchSize, Run(batchSize, s, trace))
    decreases |trace|
  {
    if |trace| > 0 {
      StepKeepsInv(batchSize, s, trace[0]);
      RunKeepsInv(batchSize, Step(batchSize, s, trace[0]), trace[1..]);
    }
  }

  /** Every batch the accumulator sends is non-empty and at most the
      threshold long; size-triggered batches have exactly `batchSize` records
      when it is at least one and a single record otherwise; idle batches hold
      between one and `batchSize - 1` records. */
  lemma BatchSizes<T>(batchSize: int, trace: seq<Event<T>>)
    ensures forall b :: b in Run(batchSize, Init<T>(), trace).emitted ==>
      WellSized(batchSize, b) && 1 <= |b.records| <= Threshold(batchSize) && b.trigger != Final
  {
    RunKeepsInv(batchSize, Init<T>(), trace);
    RunNeverFinal(batchSize, Init<T>(), trace);
  }

  lemma {:induction false} RunNeverFinal<T>(batchSize: int, s: State<T>, trace: seq<Event<T>>)
    requires forall b :: b in s.emitted ==> b.trigger != Final
    ensures forall b :: b in Run(batchSize, s, trace).emitted ==> b.trigger != Final
    decreases |trace|
  {
    if |trace| > 0 {
      RunNeverFinal(batchSize, Step(batchSize, s, trace[0]), trace[1..]);
    }
  }

  // ---------------------------------------------------------------------
  // Which records are sent
  // ---------------------------------------------------------------------

  /** One step as written moves the received record, if any, to the end of
      the size-triggered-then-pending records; an idle batch adds nothing. */
  lemma StepConserves<T>(batchSize: int, s: State<T>, e: Event<T>)
    requires !s.closed
    ensures var s1 := Step(batchSize, s, e);
      && (e.Close? ==> s1.closed)
      && (!e.Close? ==> !s1.closed)
      && (!e.Close? ==>
            FullRecords(s1.emitted) + s1.pending
            == FullRecords(s.emitted) + s.pending + (if e.Recv? then [e.record] else []))
  {
    var s1 := Step(batchSize, s, e);
    if |s1.emitted| > |s.emitted| {
      assert s1.emitted[..|s1.emitted| - 1] == s.emitted;
    }
  }

  lemma {:induction false} RunConserves<T>(batchSize: int, s: State<T>, trace: seq<Event<T>>)
    requires !s.closed
    ensures var r := Run(batchSize, s, trace);
      FullRecords(r.emitted) + r.pending == FullRecords(s.emitted) + s.pending + ReceivedBeforeClose(trace)
    decreases |trace|
  {
    if |trace| > 0 {
      var s1 := Step(batchSize, s, trace[0]);
      var r := Run(batchSize, s, trace);
      StepConserves(batchSize, s, trace[0]);
      assert r == Run(batchSize, s1, trace[1..]);
      if !trace[0].Close? {
        ReceivedStep(trace);
        RunConserves(batchSize, s1, trace[1..]);
      }
    }
  }

  /** Size-triggered batches followed by the pending records are exactly the
      records received before the input closed, in order: an idle batch never
      consumes records, and on close the pending records are never sent. */
  lemma Conservation<T>(batchSize: int, trace: seq<Event<T>>)
    ensures var r := Run(batchSize, Init<T>(), trace);
      FullRecords(r.emitted) + r.pending == ReceivedBeforeClose(trace)
  {
    RunConserves(batchSize, Init<T>(), trace);
  }

  lemma {:induction false} RunWithoutTimeoutsIsFull<T>(batchSize: int, s: State<T>, trace: seq<Event<T>>)
    requires Timeout !in trace
    requires forall b :: b in s.emitted ==> b.trigger == Full
    ensures forall b :: b in Run(batchSize, s, trace).emitted ==> b.trigger == Full
    decreases |trace|
  {
    if |trace| > 0 {
      var s1 := Step(batchSize, s, trace[0]);
      assert trace[0] in trace;
      assert forall b :: b in s1.emitted ==> b.trigger == Full by {
        if |s1.emitted| > |s.emitted| {
          assert s1.emitted == s.emitted + [s1.emitted[|s.emitted|]];
        } else {
          assert s1.emitted == s.emitted;
        }
      }
      RunWithoutTimeoutsIsFull(batchSize, s1, trace[1..]);
    }
  }

  lemma {:induction false} FullRecordsOfFullBatches<T>(bs: seq<Batch<T>>)
    requires forall b :: b in bs ==> b.trigger == Full
    ensures FullRecords(bs) == Flatten(Records(bs))
    decreases |bs|
  {
    if |bs| > 0 {
      var init := bs[..|bs| - 1];
      FullRecordsOfFullBatches(init);
      assert Records(bs) == Records(init) + [bs[|bs| - 1].records];
      FlattenAppend(Records(init), [bs[|bs| - 1].records]);
    }
  }

  lemma {:induction false} ReceivedRecvsThenClose<T>(xs: seq<T>)
    ensures ReceivedBeforeClose(Recvs(xs) + [Close]) == xs
    decreases |xs|
  {
    if |xs| > 0 {
      assert (Recvs(xs) + [Close])[1..] == Recvs(xs[1..]) + [Close];
      ReceivedRecvsThenClose(xs[1..]);
    }
  }

  /** For `n >= 1` and a trace of L receives followed by Close, the
      accumulator sends L / n batches of exactly n records that together are
      the first (L / n) * n inputs in order; the last L % n inputs stay
      pending and are dropped. */
  lemma ReceiveAllThenClose<T>(n: int, xs: seq<T>)
    requires n >= 1
    ensures var r := Run(n, Init<T>(), Recvs(xs) + [Close]);
      var out := BatchArtifacts(n, Recvs(xs) + [Close]);
      && |out| == |xs| / n
      && (forall i :: 0 <= i < |out| ==> |out[i]| == n)
      && Flatten(out) == xs[..|xs| - |xs| % n]
      && r.closed && r.pending == xs[|xs| - |xs| % n..]
  {
    var trace := Recvs(xs) + [Close];
    var r := Run(n, Init<T>(), trace);
    var out := BatchArtifacts(n, trace);
    ReceiveThenCloseShape(n, xs);
    FlattenUniformLength(out, n);
    DivisionUnique(|xs|, n, |out|, |r.pending|);
    assert Flatten(out) == xs[..|Flatten(out)|];
  }

  /** Receives followed by Close: the sent batches all have the threshold
      size and, followed by what is left pending, give back the input. */
  lemma ReceiveThenCloseShape<T>(n: int, xs: seq<T>)
    ensures var r := Run(n, Init<T>(), Recvs(xs) + [Close]);
      var out := BatchArtifacts(n, Recvs(xs) + [Close]);
      && Flatten(out) + r.pending == xs
      && |r.pending| < Threshold(n)
      && (forall i :: 0 <= i < |out| ==> |out[i]| == Threshold(n))
      && r.closed
  {
    var trace := Recvs(xs) + [Close];
    var r := Run(n, Init<T>(), trace);
    var out := BatchArtifacts(n, trace);
    Conservation(n, trace);
    ReceivedRecvsThenClose(xs);
    RunWithoutTimeoutsIsFull(n, Init<T>(), trace);
    FullRecordsOfFullBatches(r.emitted);
    RunKeepsInv(n, Init<T>(), trace);
    forall i | 0 <= i < |out| ensures |out[i]| == Threshold(n) {
      assert WellSized(n, r.emitted[i]);
    }
    RunClosesOnClose(n, Init<T>(), Recvs(xs));
  }

  lemma {:induction false} RunClosesOnClose<T>(batchSize: int, s: State<T>, pre: seq<Event<T>>)
    ensures Run(batchSize, s, pre + [Close]).closed
    decreases |pre|
  {
    if |pre| == 0 {
      assert (pre + [Close])[1..] == [];
    } else {
      assert (pre + [Close])[1..] == pre[1..] + [Close];
      RunClosesOnClose(batchSize, Step(batchSize, s, pre[0]), pre[1..]);
    }
  }

  /** With a batch size of zero or less, every received record is sent alone. */
  lemma NonPositiveSizeSendsSingletons<T>(n: int, xs: seq<T>)
    requires n <= 0
    ensures var out := BatchArtifacts(n, Recvs(xs) + [Close]);
      |out| == |xs| && forall i :: 0 <= i < |xs| ==> out[i] == [xs[i]]
  {
    var out := BatchArtifacts(n, Recvs(xs) + [Close]);
    ReceiveThenCloseShape(n, xs);
    assert Flatten(out) == xs;
    FlattenSingletons(out);
  }

  lemma {:induction false} FlattenSingletons<T>(out: seq<seq<T>>)
    requires forall i :: 0 <= i < |out| ==> |out[i]| == 1
    ensures |Flatten(out)| == |out|
    ensures forall i :: 0 <= i < |out| ==> out[i] == [Flatten(out)[i]]
    decreases |out|
  {
    if |out| > 0 {
      FlattenSingletons(out[1..]);
      assert out[0] == [out[0][0]];
    }
  }

  // ---------------------------------------------------------------------
  // The idle timer
  // ---------------------------------------------------------------------

  /** An idle flush with nothing pending changes nothing; with records
      pending it sends them as an idle batch and keeps them pending. */
  lemma TimeoutKeepsPending<T>(n: int, s: State<T>)
    requires !s.closed
    ensures s.pending == [] ==> Step(n, s, Timeout) == s
    ensures s.pending != [] ==>
      && Step(n, s, Timeout).emitted == s.emitted + [Batch(Idle, s.pending)]
      && Step(n, s, Timeout).pending == s.pending
  {
  }

  /** Whatever is pending at some point is the start of the next batch sent
      after it, if any; so records already sent by an idle flush are sent
      again in the following batch. */
  lemma {:induction false} NextBatchStartsWithPending<T>(n: int, s: State<T>, trace: seq<Event<T>>)
    requires !s.closed
    ensures var r := Run(n, s, trace);
      |r.emitted| > |s.emitted| ==> s.pending <= r.emitted[|s.emitted|].records
    decreases |trace|
  {
    if |trace| > 0 {
      var s1 := Step(n, s, trace[0]);
      var r := Run(n, s, trace);
      assert r == Run(n, s1, trace[1..]);
      if |s1.emitted| > |s.emitted| {
        assert r.emitted[|s.emitted|] == s1.emitted[|s.emitted|];
      } else if !s1.closed {
        assert s1.emitted == s.emitted;
        assert s.pending <= s1.pending;
        NextBatchStartsWithPending(n, s1, trace[1..]);
      }
    }
  }

  /** Concretely: with batch size 3, receiving 1, an idle flush, then 2 and 3
      sends 1 twice. */
  lemma TimeoutRedelivers()
    ensures BatchArtifacts(3, [Recv(1), Timeout, Recv(2), Recv(3)]) == [[1], [1, 2, 3]]
  {
    var s1 := Step(3, Init<int>(), Recv(1));
    var s2 := Step(3, s1, Timeout);
    var s3 := Step(3, s2, Recv(2));
    var s4 := Step(3, s3, Recv(3));
    assert s1 == State([1], [], false);
    assert s2 == State([1], [Batch(Idle, [1])], false);
    assert [1] + [2] == [1, 2];
    assert s3 == State([1, 2], [Batch(Idle, [1])], false);
    assert [1, 2] + [3] == [1, 2, 3];
    assert s4.emitted == [Batch(Idle, [1]), Batch(Full, [1, 2, 3])];
    var t: seq<Event<int>> := [Recv(1), Timeout, Recv(2), Recv(3)];
    assert Run(3, Init<int>(), t) == Run(3, s1, t[1..]);
    assert Run(3, s1, t[1..]) == Run(3, s2, t[2..]);
    assert Run(3, s2, t[2..]) == Run(3, s3, t[3..]);
    assert Run(3, s3, t[3..]) == Run(3, s4, []);
  }

  /** Concretely: with batch size 3, receiving 1 and 2 and then closing
      sends nothing at all. */
  lemma CloseDropsPending()
    ensures ReceivedBeforeClose<int>([Recv(1), Recv(2), Close]) == [1, 2]
    ensures BatchArtifacts(3, [Recv(1), Recv(2), Close]) == []
  {
    var t: seq<Event<int>> := [Recv(1), Recv(2), Close];
    ReceiveAllThenClose(3, [1, 2]);
    assert Recvs([1, 2]) + [Close] == t;
  }

  // ---------------------------------------------------------------------
  // The flushing accumulator: every received record is sent exactly once
  // ---------------------------------------------------------------------

  /** As `Step`, except that closing the input sends the pending records as a
      final batch, and an idle flush clears what it sent. */
  function StepFlushing<T>(batchSize: int, s: State<T>, e: Event<T>): (r: State<T>)
    ensures s.closed ==> r == s
    ensures s.emitted <= r.emitted && |r.emitted| <= |s.emitted| + 1
  {
    if s.closed then s
    else match e
      case Close =>
        if |s.pending| > 0 then State([], s.emitted + [Batch(Final, s.pending)], true)
        else s.(closed := true)
      case Recv(a) =>
        var batch := s.pending + [a];
        if |batch| >= batchSize then State([], s.emitted + [Batch(Full, batch)], false)
        else s.(pending := batch)
      case Timeout =>
        if |s.pending| > 0 then State([], s.emitted + [Batch(Idle, s.pending)], false) else s
  }

  function RunFlushing<T>(batchSize: int, s: State<T>, trace: seq<Event<T>>): (r: State<T>)
    ensures s.closed ==> r == s
    ensures s.emitted <= r.emitted
    decreases |trace|
  {
    if |trace| == 0 then s else RunFlushing(batchSize, StepFlushing(batchSize, s, trace[0]), trace[1..])
  }

  lemma StepFlushingKeepsInv<T>(batchSize: int, s: State<T>, e: Event<T>)
    requires Inv(batchSize, s)
    ensures Inv(batchSize, StepFlushing(batchSize, s, e))
  {
  }

  lemma {:induction false} RunFlushingKeepsInv<T>(batchSize: int, s: State<T>, trace: seq<Event<T>>)
    requires Inv(batchSize, s)
    ensures Inv(batchSize, RunFlushing(batchSize, s, trace))
    decreases |trace|
  {
    if |trace| > 0 {
      StepFlushingKeepsInv(batchSize, s, trace[0]);
      RunFlushingKeepsInv(batchSize, StepFlushing(batchSize, s, trace[0]), trace[1..]);
    }
  }

  /** One flushing step moves the received record, if any, to the end of
      the sent-then-pending records, and leaves nothing pending once closed. */
  lemma StepFlushingConserves<T>(batchSize: int, s: State<T>, e: Event<T>)
    requires !s.closed
    ensures var s1 := StepFlushing(batchSize, s, e);
      && AllRecords(s1.emitted) + s1.pending
         == AllRecords(s.emitted) + s.pending + (if e.Recv? then [e.record] else [])
      && (s1.closed <==> e.Close?)
      && (s1.closed ==> s1.pending == [])
  {
    var s1 := StepFlushing(batchSize, s, e);
    if |s1.emitted| > |s.emitted| {
      assert s1.emitted[..|s1.emitted| - 1] == s.emitted;
    }
  }

  lemma {:induction false} RunFlushingConserves<T>(batchSize: int, s: State<T>, trace: seq<Event<T>>)
    requires !s.closed
    ensures var r := RunFlushing(batchSize, s, trace);
      AllRecords(r.emitted) + r.pending == AllRecords(s.emitted) + s.pending + ReceivedBeforeClose(trace)
    decreases |trace|
  {
    if |trace| > 0 {
      var s1 := StepFlushing(batchSize, s, trace[0]);
      StepFlushingConserves(batchSize, s, trace[0]);
      assert RunFlushing(batchSize, s, trace) == RunFlushing(batchSize, s1, trace[1..]);
      if !trace[0].Close? {
        ReceivedStep(trace);
        RunFlushingConserves(batchSize, s1, trace[1..]);
      }
    }
  }

  /** Once the flushing accumulator has closed, nothing is left pending. */
  lemma {:induction false} RunFlushingEmptiesOnClose<T>(batchSize: int, s: State<T>, trace: seq<Event<T>>)
    requires s.closed ==> s.pending == []
    ensures var r := RunFlushing(batchSize, s, trace); r.closed ==> r.pending == []
    decreases |trace|
  {
    if |trace| > 0 && !s.closed {
      StepFlushingConserves(batchSize, s, trace[0]);
      RunFlushingEmptiesOnClose(batchSize, StepFlushing(batchSize, s, trace[0]), trace[1..]);
    }
  }

  /** How the records received before close unfold over a first event that
      is not Close. */
  lemma ReceivedStep<T>(trace: seq<Event<T>>)
    requires |trace| > 0 && !trace[0].Close?
    ensures ReceivedBeforeClose(trace)
      == (if trace[0].Recv? then [trace[0].record] else []) + ReceivedBeforeClose(trace[1..])
  {
  }

  /** With a final flush and a reset after idle flushes, once the input has
      closed the sent batches hold every received record exactly once and in
      order, and each batch is non-empty and at most the threshold long. */
  lemma FlushingDeliversEveryRecord<T>(batchSize: int, trace: seq<Event<T>>)
    requires Close in trace
    ensures var r := RunFlushing(batchSize, Init<T>(), trace);
      && AllRecords(r.emitted) == ReceivedBeforeClose(trace)
      && forall b :: b in r.emitted ==> 1 <= |b.records| <= Threshold(batchSize)
  {
    RunFlushingConserves(batchSize, Init<T>(), trace);
    RunFlushingEmptiesOnClose(batchSize, Init<T>(), trace);
    RunFlushingKeepsInv(batchSize, Init<T>(), trace);
    RunFlushingCloses(batchSize, Init<T>(), trace);
    var r := RunFlushing(batchSize, Init<T>(), trace);
    assert AllRecords(Init<T>().emitted) + Init<T>().pending == [];
    assert r.pending == [];
    assert AllRecords(r.emitted) == AllRecords(r.emitted) + r.pending;
    forall b | b in r.emitted ensures 1 <= |b.records| <= Threshold(batchSize) {
      var i :| 0 <= i < |r.emitted| && r.emitted[i] == b;
      assert WellSized(batchSize, r.emitted[i]);
    }
  }

  lemma {:induction false} RunFlushingCloses<T>(batchSize: int, s: State<T>, trace: seq<Event<T>>)
    requires Close in trace
    ensures RunFlushing(batchSize, s, trace).closed
    decreases |trace|
  {
    if trace[0] == Close {
      assert StepFlushing(batchSize, s, trace[0]).closed;
    } else {
      assert Close in trace[1..];
      RunFlushingCloses(batchSize, StepFlushing(batchSize, s, trace[0]), trace[1..]);
    }
  }

  /** What the output channel delivers with the flushing accumulator:
      batches that are never empty and never longer than the threshold. */
  function BatchArtifactsFlushing<T>(batchSize: int, trace: seq<Event<T>>): (out: seq<seq<T>>)
    ensures forall i :: 0 <= i < |out| ==> 1 <= |out[i]| <= Threshold(batchSize)
  {
    var r := RunFlushing(batchSize, Init<T>(), trace);
    RunFlushingKeepsInv(batchSize, Init<T>(), trace);
    assert forall i :: 0 <= i < |r.emitted| ==> WellSized(batchSize, r.emitted[i]);
    Records(r.emitted)
  }

  lemma {:induction false} AllRecordsIsFlatten<T>(bs: seq<Batch<T>>)
    ensures AllRecords(bs) == Flatten(Records(bs))
    decreases |bs|
  {
    if |bs| > 0 {
      var init := bs[..|bs| - 1];
      AllRecordsIsFlatten(init);
      assert Records(bs) == Records(init) + [bs[|bs| - 1].records];
      FlattenAppend(Records(init), [bs[|bs| - 1].records]);
    }
  }

  /** With the flushing accumulator, a trace of receives followed by Close
      sends every record once, in order, in non-empty batches of at most the
      threshold. */
  lemma FlushingSendsEverything<T>(batchSize: int, xs: seq<T>)
    ensures var out := BatchArtifactsFlushing(batchSize, Recvs(xs) + [Close]);
      && Flatten(out) == xs
      && forall i :: 0 <= i < |out| ==> 1 <= |out[i]| <= Threshold(batchSize)
  {
    var trace := Recvs(xs) + [Close];
    assert trace[|trace| - 1] == Close;
    FlushingDeliversEveryRecord(batchSize, trace);
    ReceivedRecvsThenClose(xs);
    var r := RunFlushing(batchSize, Init<T>(), trace);
    AllRecordsIsFlatten(r.emitted);
    forall i | 0 <= i < |r.emitted| ensures 1 <= |r.emitted[i].records| <= Threshold(batchSize) {
      assert r.emitted[i] in r.emitted;
    }
  }

  /** Concretely: with batch size 3, receiving 1 and 2 and then closing sends
      exactly one batch [1, 2]. */
  lemma FlushingSendsTailOnClose()
    ensures RunFlushing(3, Init<int>(), [Recv(1), Recv(2), Close]).emitted == [Batch(Final, [1, 2])]
  {
    var t: seq<Event<int>> := [Recv(1), Recv(2), Close];
    var s1 := StepFlushing(3, Init<int>(), Recv(1));
    var s2 := StepFlushing(3, s1, Recv(2));
    var s3 := StepFlushing(3, s2, Close);
    assert s1 == State([1], [], false);
    assert [1] + [2] == [1, 2];
    assert s2 == State([1, 2], [], false);
    assert s3 == State([], [Batch(Final, [1, 2])], true);
    assert RunFlushing(3, Init<int>(), t) == RunFlushing(3, s1, t[1..]);
    assert RunFlushing(3, s1, t[1..]) == RunFlushing(3, s2, t[2..]);
    assert RunFlushing(3, s2, t[2..]) == RunFlushing(3, s3, t[3..]);
  }
}
