/** The batch scheduler of the benchmark runner. */
module Runner {
  import opened Arithmetic
  import opened Options
  import opened Stats

  const TWO32: nat := 0x1_0000_0000

  type U32 = x: int | 0 <= x < 0x1_0000_0000

  datatype Config = Config(warmupReps: U32, benchReps: U32, batchSize: U32)

  /** One call of a case's work: its returned pair and the time it took. */
  datatype Call = Call(proofBytes: nat, ok: bool, millis: real)

  datatype CaseResult = CaseResult(stats: SampleStats, samplesMs: seq<real>, proofBytes: nat, allVerified: bool)

  /** A registered case; `outcome` gives what its i-th call returns. */
  class BenchCase {
    const outcome: nat -> Call
    var calls: nat

    constructor (outcome: nat -> Call)
      ensures this.outcome == outcome && calls == 0
    {
      this.outcome := outcome;
      calls := 0;
    }

    method Invoke() returns (c: Call)
      modifies this
      ensures c == outcome(old(calls)) && calls == old(calls) + 1
    {
      c := outcome(calls);
      calls := calls + 1;
    }
  }

  /** `div_ceil`. */
  function DivCeil(a: nat, b: nat): nat
    requires b > 0
  {
    if a % b == 0 then a / b else a / b + 1
  }

  lemma DivCeilBounds(a: nat, b: nat)
    requires a > 0 && b > 0
    ensures DivCeil(a, b) >= 1 && (DivCeil(a, b) - 1) * b < a <= DivCeil(a, b) * b
  {}

  /** The end of a batch: a 32-bit product, which wraps in release builds. */
  function BatchEnd(batch: nat, size: nat, total: nat): nat {
    var end := ((batch + 1) * size) % TWO32;
    if end <= total then end else total
  }

  /** How many timed calls a case gets: all of them unless the last batch end wraps, and
      then the last batch is skipped. */
  function TimedCalls(total: nat, size: nat): nat
    requires size > 0
  {
    if DivCeil(total, size) * size < TWO32 then total
    else (DivCeil(total, size) - 1) * size
  }

  /** The scheduler makes all repetitions exactly when the rounded-up total fits 32 bits. */
  lemma AllRepsIffNoWrap(total: U32, size: U32)
    requires total > 0 && size > 0
    ensures TimedCalls(total, size) == total <==> DivCeil(total, size) * size < TWO32
    ensures 0 < TimedCalls(total, size) <= total
  {}

  lemma BatchEnds(total: U32, size: U32, batch: nat)
    requires total > 0 && size > 0 && batch < DivCeil(total, size)
    ensures batch + 1 < DivCeil(total, size) ==> BatchEnd(batch, size, total) == (batch + 1) * size <= TimedCalls(total, size)
    ensures batch + 1 == DivCeil(total, size) && DivCeil(total, size) * size < TWO32 ==>
      BatchEnd(batch, size, total) == total > batch * size
    ensures batch + 1 == DivCeil(total, size) && DivCeil(total, size) * size >= TWO32 ==>
      BatchEnd(batch, size, total) <= batch * size == TimedCalls(total, size)
  {
    DivCeilBounds(total, size);
    AllRepsIffNoWrap(total, size);
    var b := DivCeil(total, size);
    var p := (batch + 1) * size;
    if batch + 1 < b {
      MulMonotonic(batch + 1, b - 1, size);
      SmallRemainder(p, TWO32);
    } else if b * size < TWO32 {
      SmallRemainder(p, TWO32);
    } else {
      assert (b - 1) * size == p - size by { Distribute(size, b, -1); }
      RemainderIsUnique(p, 1, p - TWO32, TWO32);
      assert b >= 2;
      MulMonotonic(1, b - 1, size);
    }
  }

  lemma MulMonotonic(a: nat, b: nat, c: nat)
    requires a <= b
    ensures a * c <= b * c
  {}

  function Calls(outcome: nat -> Call, from: nat, count: nat): (s: seq<Call>)
    ensures |s| == count && forall i | 0 <= i < count :: s[i] == outcome(from + i)
  {
    seq(count, i requires i >= 0 => outcome(from + i))
  }

  function Durations(calls: seq<Call>): (s: seq<real>)
    ensures |s| == |calls|
  {
    seq(|calls|, i requires 0 <= i < |calls| => calls[i].millis)
  }

  predicate AllOk(calls: seq<Call>) {
    forall i | 0 <= i < |calls| :: calls[i].ok
  }

  /** `max().unwrap_or(0)`. */
  function MaxBytes(sizes: seq<nat>): (m: nat)
    ensures forall x | x in sizes :: x <= m
    ensures if sizes == [] then m == 0 else m in sizes
  {
    if sizes == [] then 0
    else
      var last, m := sizes[|sizes| - 1], MaxBytes(sizes[..|sizes| - 1]);
      assert sizes == sizes[..|sizes| - 1] + [last];
      if |sizes| == 1 || last >= m then last else m
  }

  function Sizes(calls: seq<Call>): (s: seq<nat>)
    ensures |s| == |calls|
  {
    seq(|calls|, i requires 0 <= i < |calls| => calls[i].proofBytes)
  }

  /** The result of a case whose timed calls were `calls`. */
  function ResultOf(calls: seq<Call>): Option<CaseResult> {
    var ds := Durations(calls);
    match FromDurations(ds)
    case None => None
    case Some(stats) => Some(CaseResult(stats, SamplesMs(ds), MaxBytes(Sizes(calls)), AllOk(calls)))
  }

  /** What a case result says about its timed calls. */
  lemma ResultMeaning(calls: seq<Call>)
    requires calls != []
    ensures ResultOf(calls).Some?
    ensures var r := ResultOf(calls).value;
      && (r.allVerified <==> forall c | c in calls :: c.ok)
      && (forall c | c in calls :: c.proofBytes <= r.proofBytes)
      && (exists c | c in calls :: c.proofBytes == r.proofBytes)
      && Describes(r.stats, r.samplesMs, Durations(calls))
      && forall i | 0 <= i < |calls| :: Durations(calls)[i] == calls[i].millis
  {
    hide FromDurations, SamplesMs, Describes;
    var sizes := Sizes(calls);
    StatsAreSamples(Durations(calls));
    forall c | c in calls ensures c.proofBytes in sizes {
      var i :| 0 <= i < |calls| && calls[i] == c;
      assert sizes[i] == c.proofBytes;
    }
    var i :| 0 <= i < |sizes| && sizes[i] == MaxBytes(sizes);
    assert calls[i] in calls && calls[i].proofBytes == MaxBytes(sizes);
    if AllOk(calls) {
      forall c | c in calls ensures c.ok {
        var j :| 0 <= j < |calls| && calls[j] == c;
      }
    } else {
      var j :| 0 <= j < |calls| && !calls[j].ok;
      assert calls[j] in calls;
    }
  }

  function SumNat(s: seq<nat>): nat {
    if s == [] then 0 else SumNat(s[..|s| - 1]) + s[|s| - 1]
  }

  /** The batches made so far, out of `count`: they add up to `calls`, all but the very last
      are full, and that one is at most full. */
  ghost predicate Batched(batches: seq<nat>, count: nat, size: nat, calls: nat) {
    && SumNat(batches) == calls
    && |batches| <= count
    && (forall i | 0 <= i < |batches| && i < count - 1 :: batches[i] == size)
    && (forall i | 0 <= i < |batches| :: batches[i] <= size)
  }

  function Full(count: nat, size: nat): (s: seq<nat>)
    ensures |s| == count && forall i | 0 <= i < count :: s[i] == size
  {
    seq(count, _ => size)
  }

  lemma {:induction false} SumFull(count: nat, size: nat)
    ensures SumNat(Full(count, size)) == count * size
  {
    if count == 0 {
    } else {
      SumFull(count - 1, size);
      assert Full(count, size)[..count - 1] == Full(count - 1, size);
      NextBatch(count - 1, size);
    }
  }

  /** Number, size and total leave no choice: full batches, and the rest in the last one. */
  lemma BatchSizes(batches: seq<nat>, size: nat, calls: nat)
    requires batches != []
    ensures var full, last := |batches| - 1, batches[|batches| - 1];
      Batched(batches, |batches|, size, calls)
      <==> batches == Full(full, size) + [last] && last <= size && calls == full * size + last
  {
    var full, last := |batches| - 1, batches[|batches| - 1];
    SumFull(full, size);
    assert batches == batches[..full] + [last];
    if batches[..full] == Full(full, size) {
      assert forall i | 0 <= i < full :: batches[i] == batches[..full][i];
    }
    if Batched(batches, |batches|, size, calls) {
      assert batches[..full] == Full(full, size);
    }
    if batches == Full(full, size) + [last] {
      assert batches[..full] == Full(full, size);
    }
  }

  lemma BatchedSnoc(batches: seq<nat>, count: nat, size: nat, calls: nat, more: nat)
    requires Batched(batches, count, size, calls) && |batches| < count
    requires more <= size && (|batches| < count - 1 ==> more == size)
    ensures Batched(batches + [more], count, size, calls + more)
  {
    assert (batches + [more])[..|batches|] == batches;
  }

  /** One case of `BenchSuite::run`: warm-up, then the batched timed calls.  `batches` records
      how many calls each batch made: they add up to the timed calls, all but the last are
      full, and the last is not empty if and only if no repetition is lost.  All repetitions
      are made if and only if their number rounded up to full batches fits 32 bits. */
  method RunCase(cfg: Config, c: BenchCase) returns (r: Option<CaseResult>, ghost batches: seq<nat>)
    modifies c
    ensures var size := if cfg.batchSize >= 1 then cfg.batchSize else 1;
      var timed := if cfg.benchReps == 0 then 0 else TimedCalls(cfg.benchReps, size);
      && c.calls == old(c.calls) + cfg.warmupReps + timed
      && r == ResultOf(Calls(c.outcome, old(c.calls) + cfg.warmupReps, timed))
      && |batches| == DivCeil(cfg.benchReps, size)
      && Batched(batches, DivCeil(cfg.benchReps, size), size, timed)
      && (batches != [] ==> (batches[|batches| - 1] > 0 <==> timed == cfg.benchReps))
    ensures var size := if cfg.batchSize >= 1 then cfg.batchSize else 1;
      c.calls == old(c.calls) + cfg.warmupReps + cfg.benchReps <==> DivCeil(cfg.benchReps, size) * size < TWO32
  {
    hide FromDurations, SamplesMs, MaxBytes, DivCeil, TimedCalls, BatchEnd, Recorded, Batched, Durations, Sizes, AllOk, Calls, ResultOf;
    for i := 0 to cfg.warmupReps
      invariant c.calls == old(c.calls) + i
    {
      var warm := c.Invoke();
    }
    var total := cfg.benchReps;
    var size := if cfg.batchSize >= 1 then cfg.batchSize else 1;
    var numBatches := DivCeil(total, size);
    ghost var from := c.calls;
    var durations: seq<real>, proofSizes: seq<nat> := [], [];
    var allOk, rep := true, 0;
    batches := [];
    RecordNone(c.outcome, from);
    BatchedNone(numBatches, size);
    NoBatches(size);
    if total > 0 {
      AllRepsIffNoWrap(total, size);
      DivCeilBounds(total, size);
    }
    for batch := 0 to numBatches
      invariant total > 0 || numBatches == 0
      invariant rep == if batch < numBatches then batch * size else if total == 0 then 0 else TimedCalls(total, size)
      invariant c.calls == from + rep
      invariant Recorded(c.outcome, from, rep, durations, proofSizes, allOk)
      invariant |batches| == batch
      invariant Batched(batches, numBatches, size, rep)
      invariant 0 < batch == numBatches ==> (batches[batch - 1] > 0 <==> TimedCalls(total, size) == total)
    {
      BatchEnds(total, size, batch);
      NextBatch(batch, size);
      var end := BatchEnd(batch, size, total);
      ghost var start := rep;
      while rep < end
        invariant start <= rep && (rep <= end || rep == start)
        invariant c.calls == from + rep
        invariant Recorded(c.outcome, from, rep, durations, proofSizes, allOk)
      {
        var call := c.Invoke();
        RecordOne(c.outcome, from, rep, durations, proofSizes, allOk);
        durations := durations + [call.millis];
        proofSizes := proofSizes + [call.proofBytes];
        if !call.ok {
          allOk := false;
        }
        rep := rep + 1;
      }
      BatchedSnoc(batches, numBatches, size, start, rep - start);
      batches := batches + [rep - start];
    }
    RecordedResult(c.outcome, from, rep, durations, proofSizes, allOk);
    var stats := FromDurations(durations);
    match stats
    case None =>
      r := None;
    case Some(st) =>
      var samplesMs := SamplesMs(durations);
      r := Some(CaseResult(st, samplesMs, MaxBytes(proofSizes), allOk));
  }

  lemma BatchedNone(count: nat, size: nat)
    ensures Batched([], count, size, 0)
  {}

  lemma RecordNone(outcome: nat -> Call, from: nat)
    ensures Recorded(outcome, from, 0, [], [], true)
  {}

  lemma RecordedResult(outcome: nat -> Call, from: nat, rep: nat,
                       durations: seq<real>, proofSizes: seq<nat>, allOk: bool)
    requires Recorded(outcome, from, rep, durations, proofSizes, allOk)
    ensures ResultOf(Calls(outcome, from, rep)) ==
      match FromDurations(durations)
      case None => None
      case Some(st) => Some(CaseResult(st, SamplesMs(durations), MaxBytes(proofSizes), allOk))
  {}

  /** With 2^32 - 1 repetitions in batches of two, the scheduler makes one call too few. */
  method WrapLosesACall(c: BenchCase)
    modifies c
    ensures c.calls == old(c.calls) + 0xFFFF_FFFE
  {
    var r, batches := RunCase(Config(0, 0xFFFF_FFFF, 2), c);
  }

  lemma NoBatches(size: nat)
    requires size > 0
    ensures DivCeil(0, size) == 0 && DivCeil(0, size) * size == 0
  {}

  lemma NextBatch(batch: nat, size: nat)
    ensures (batch + 1) * size == batch * size + size
  {}

  /** The vectors hold exactly the first `rep` timed calls. */
  ghost predicate Recorded(outcome: nat -> Call, from: nat, rep: nat,
                           durations: seq<real>, proofSizes: seq<nat>, allOk: bool) {
    var calls := Calls(outcome, from, rep);
    durations == Durations(calls) && proofSizes == Sizes(calls) && allOk == AllOk(calls)
  }

  lemma RecordOne(outcome: nat -> Call, from: nat, rep: nat,
                  durations: seq<real>, proofSizes: seq<nat>, allOk: bool)
    requires Recorded(outcome, from, rep, durations, proofSizes, allOk)
    ensures var c := outcome(from + rep);
      Recorded(outcome, from, rep + 1, durations + [c.millis], proofSizes + [c.proofBytes], allOk && c.ok)
  {
    var calls, more := Calls(outcome, from, rep), Calls(outcome, from, rep + 1);
    assert more == calls + [outcome(from + rep)];
    assert more[rep] == outcome(from + rep);
    assert forall i | 0 <= i < rep :: calls[i] == more[i];
    if AllOk(more) {
      assert forall i | 0 <= i < rep :: more[i].ok;
    }
  }

  lemma ResultExists(calls: seq<Call>)
    requires calls != []
    ensures ResultOf(calls).Some?
  {
    hide Describes;
    ResultMeaning(calls);
  }

  /** `BenchSuite::run`: every case in registration order, one result each. */
  method Run(cfg: Config, cases: seq<BenchCase>) returns (results: seq<CaseResult>)
    requires cfg.benchReps >= 1
    requires forall i, j | 0 <= i < j < |cases| :: cases[i] != cases[j]
    modifies cases
    ensures |results| == |cases|
    ensures var timed := TimedCalls(cfg.benchReps, if cfg.batchSize >= 1 then cfg.batchSize else 1);
      forall i | 0 <= i < |cases| ::
        && cases[i].calls == old(cases[i].calls) + cfg.warmupReps + timed
        && Some(results[i]) == ResultOf(Calls(cases[i].outcome, old(cases[i].calls) + cfg.warmupReps, timed))
  {
    hide ResultOf, DivCeil, TimedCalls;
    results := [];
    ghost var timed := TimedCalls(cfg.benchReps, if cfg.batchSize >= 1 then cfg.batchSize else 1);
    for i := 0 to |cases|
      invariant |results| == i
      invariant forall j | i <= j < |cases| :: cases[j].calls == old(cases[j].calls)
      invariant forall j | 0 <= j < i ::
        && cases[j].calls == old(cases[j].calls) + cfg.warmupReps + timed
        && Some(results[j]) == ResultOf(Calls(cases[j].outcome, old(cases[j].calls) + cfg.warmupReps, timed))
    {
      var r, b := RunCase(cfg, cases[i]);
      AllRepsIffNoWrap(cfg.benchReps, if cfg.batchSize >= 1 then cfg.batchSize else 1);
      ResultExists(Calls(cases[i].outcome, old(cases[i].calls) + cfg.warmupReps, timed));
      results := results + [r.value];
    }
  }
}
