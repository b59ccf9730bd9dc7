/**
 * The runtime monitor of an owned build process: disk, stdout and memory bounds
 * checked on every poll, critical memory counted in consecutive samples, and one
 * forced observation after the process is gone.
 */
module RuntimeMonitor {
  import opened Wrappers

  const PROBE_EVERY_CHECKS: nat := 5
  const IMMEDIATE_FREE_PERCENT: int := 5
  const SUSTAINED_FREE_PERCENT: int := 10
  const SUSTAINED_FREE_SAMPLES: nat := 3
  const SWAP_FREE_PERCENT: int := 15
  const SWAP_USED_BYTES: int := 8 * 0x4000_0000
  const SWAP_SUSTAINED_SAMPLES: nat := 2
  const SWAP_TOLERANCE: int := 2 * 0x10_0000

  datatype Limits = Limits(hardFloor: nat, stdoutLimit: nat, pollMilliseconds: nat)

  datatype Sample = Sample(total: int, free: int, swapTotal: int, swapUsed: int, swapFree: int)

  function Distance(a: int, b: int): int { if a < b then b - a else a - b }

  predicate WellFormed(s: Sample) {
    && s.total > 0 && 0 <= s.free <= 100
    && s.swapTotal >= 0 && s.swapUsed >= 0 && s.swapFree >= 0
    && s.swapUsed <= s.swapTotal + SWAP_TOLERANCE
    && Distance(s.swapTotal - s.swapUsed, s.swapFree) <= SWAP_TOLERANCE
  }

  /** The two ways a sample is critical without calling for an abort by itself. */
  datatype Criterion = LowFree | LowFreeHighSwap {
    predicate Meets(s: Sample) {
      match this
      case LowFree => s.free <= SUSTAINED_FREE_PERCENT
      case LowFreeHighSwap => s.free <= SWAP_FREE_PERCENT && s.swapUsed >= SWAP_USED_BYTES
    }
  }

  // ---------- the sample history as a specification ----------

  /** How many of the latest samples in a row meet `p`. */
  function Run(samples: seq<Sample>, p: Criterion): (k: nat)
    ensures k <= |samples|
  {
    if samples == [] || !p.Meets(samples[|samples| - 1]) then 0
    else 1 + Run(samples[..|samples| - 1], p)
  }

  function Max(a: int, b: int): int { if a < b then b else a }

  function Min(a: int, b: int): int { if a < b then a else b }

  /** The longest run that ever stood. */
  function LongestRun(samples: seq<Sample>, p: Criterion): nat {
    if samples == [] then 0 else Max(LongestRun(samples[..|samples| - 1], p), Run(samples, p))
  }

  /** Run is the length of the longest suffix all of which meets `p`. */
  lemma {:induction false} RunIsLongestSuffix(samples: seq<Sample>, p: Criterion, k: nat)
    requires k <= |samples|
    ensures k <= Run(samples, p) <==> forall i :: |samples| - k <= i < |samples| ==> p.Meets(samples[i])
  {
    if k > 0 {
      var front := samples[..|samples| - 1];
      if p.Meets(samples[|samples| - 1]) {
        RunIsLongestSuffix(front, p, k - 1);
        assert forall i :: 0 <= i < |front| ==> front[i] == samples[i];
      }
    }
  }

  /** LongestRun is reached by some stretch of the history and exceeded by none. */
  lemma {:induction false} LongestRunIsMaximal(samples: seq<Sample>, p: Criterion, lo: nat, hi: nat)
    requires lo <= hi <= |samples|
    requires forall i :: lo <= i < hi ==> p.Meets(samples[i])
    ensures hi - lo <= LongestRun(samples, p)
  {
    if hi == |samples| {
      RunIsLongestSuffix(samples, p, hi - lo);
    } else {
      LongestRunIsMaximal(samples[..|samples| - 1], p, lo, hi);
    }
  }

  lemma {:induction false} LongestRunIsReached(samples: seq<Sample>, p: Criterion) returns (lo: nat)
    ensures lo + LongestRun(samples, p) <= |samples|
    ensures forall i :: lo <= i < lo + LongestRun(samples, p) ==> p.Meets(samples[i])
  {
    lo := 0;
    if samples != [] {
      if LongestRun(samples, p) == Run(samples, p) {
        RunIsLongestSuffix(samples, p, Run(samples, p));
        lo := |samples| - Run(samples, p);
      } else {
        var front := samples[..|samples| - 1];
        lo := LongestRunIsReached(front, p);
        assert forall i :: 0 <= i < |front| ==> front[i] == samples[i];
      }
    }
  }

  /** The latest sample calls for an abort. */
  predicate Pressed(samples: seq<Sample>) {
    samples != [] &&
    (samples[|samples| - 1].free <= IMMEDIATE_FREE_PERCENT
     || Run(samples, LowFree) >= SUSTAINED_FREE_SAMPLES
     || Run(samples, LowFreeHighSwap) >= SWAP_SUSTAINED_SAMPLES)
  }

  /** An abort is called for exactly by an immediately critical sample, a third low
      sample in a row, or a second low sample with high swap in a row. */
  lemma PressedExactly(samples: seq<Sample>)
    requires samples != []
    ensures var n := |samples|;
      Pressed(samples) <==>
        || samples[n - 1].free <= IMMEDIATE_FREE_PERCENT
        || (n >= 3 && LowFree.Meets(samples[n - 1]) && LowFree.Meets(samples[n - 2]) && LowFree.Meets(samples[n - 3]))
        || (n >= 2 && LowFreeHighSwap.Meets(samples[n - 1]) && LowFreeHighSwap.Meets(samples[n - 2]))
  {
    var n := |samples|;
    if n >= 3 { RunIsLongestSuffix(samples, LowFree, 3); }
    if n >= 2 { RunIsLongestSuffix(samples, LowFreeHighSwap, 2); }
  }

  /** No abort was called for at any time. */
  predicate NeverPressed(samples: seq<Sample>) {
    samples == [] || (!Pressed(samples) && NeverPressed(samples[..|samples| - 1]))
  }

  lemma NeverPressedNext(samples: seq<Sample>, s: Sample)
    ensures NeverPressed(samples + [s]) <==> NeverPressed(samples) && !Pressed(samples + [s])
  {
    assert (samples + [s])[..|samples|] == samples;
  }

  lemma {:induction false} NeverPressedBounds(samples: seq<Sample>)
    requires NeverPressed(samples)
    ensures LongestRun(samples, LowFree) < SUSTAINED_FREE_SAMPLES
    ensures LongestRun(samples, LowFreeHighSwap) < SWAP_SUSTAINED_SAMPLES
    ensures forall i :: 0 <= i < |samples| ==> samples[i].free > IMMEDIATE_FREE_PERCENT
  {
    if samples != [] { NeverPressedBounds(samples[..|samples| - 1]); }
  }

  // ---------- the report and what the status validator asks of it ----------

  datatype Memory = Memory(
    samples: nat,
    minimumFree: Option<int>,
    maximumSwapUsed: int,
    maximumSwapTotal: int,
    last: Option<Sample>,
    freeRun: nat,
    swapRun: nat,
    maximumFreeRun: nat,
    maximumSwapRun: nat)

  const EMPTY_MEMORY: Memory := Memory(0, None, 0, 0, None, 0, 0, 0, 0)

  datatype Free = Free(source: int, logs: int)

  datatype Report = Report(
    checks: nat,
    minimumFree: Option<Free>,
    lastFree: Option<Free>,
    maximumStdout: int,
    limits: Limits,
    groupAbsent: bool,
    memory: Memory)

  function EmptyReport(limits: Limits): Report {
    Report(0, None, None, 0, limits, true, EMPTY_MEMORY)
  }

  /** The memory section of the exit status validator. */
  predicate MemoryAccepted(m: Memory) {
    && m.maximumSwapUsed >= 0 && m.maximumSwapTotal >= 0
    && (m.minimumFree.Some? ==> 0 <= m.minimumFree.value <= 100)
    && if m.samples == 0 then m == EMPTY_MEMORY
       else
         && m.last.Some?
         && m.last.value.total > 0 && 0 <= m.last.value.free <= 100
         && m.last.value.swapTotal >= 0 && m.last.value.swapUsed >= 0 && m.last.value.swapFree >= 0
         && m.minimumFree.Some? && m.minimumFree.value <= m.last.value.free
         && m.maximumSwapUsed >= m.last.value.swapUsed
         && m.maximumSwapTotal >= m.last.value.swapTotal
         && m.maximumFreeRun >= m.freeRun
         && m.maximumSwapRun >= m.swapRun
  }

  predicate NonNegative(f: Option<Free>) { f.Some? ==> f.value.source >= 0 && f.value.logs >= 0 }

  /** The monitor section of the exit status validator. */
  predicate MonitorAccepted(r: Report, limits: Limits) {
    && r.limits == limits && r.groupAbsent
    && r.maximumStdout >= 0 && r.limits.pollMilliseconds > 0
    && NonNegative(r.minimumFree) && NonNegative(r.lastFree)
    && (r.minimumFree.Some? && r.lastFree.Some? ==>
          r.minimumFree.value.source <= r.lastFree.value.source && r.minimumFree.value.logs <= r.lastFree.value.logs)
    && MemoryAccepted(r.memory)
  }

  predicate AboveFloor(f: Option<Free>, floor: nat) {
    f.Some? && f.value.source >= floor && f.value.logs >= floor
  }

  /** What the validator asks of the report behind a success. */
  predicate GatePassed(r: Report) {
    && r.checks >= 2 && r.maximumStdout <= r.limits.stdoutLimit
    && r.memory.samples >= 2
    && r.memory.minimumFree.Some? && r.memory.minimumFree.value > IMMEDIATE_FREE_PERCENT
    && r.memory.maximumFreeRun < SUSTAINED_FREE_SAMPLES
    && r.memory.maximumSwapRun < SWAP_SUSTAINED_SAMPLES
    && AboveFloor(r.minimumFree, r.limits.hardFloor) && AboveFloor(r.lastFree, r.limits.hardFloor)
  }

  // ---------- one run of the monitor ----------

  /** What the probes of one check would answer; `None` is an exception. */
  datatype StdoutProbe = StdoutBytes(bytes: nat) | StdoutFailed
  datatype Probe = Probe(stdout: StdoutProbe, source: Option<int>, logs: Option<int>, memory: Option<Sample>)

  datatype Poll = Running | Exited(code: int) | PollFailed
  datatype Round = Round(probe: Probe, poll: Poll)

  datatype Outcome =
    | Completed
    | ProcessExitFailure
    | DiskHardFloorAbort
    | StdoutBoundAbort
    | MonitorObservationAbort
    | MemoryPressureAbort
    | DescendantProcessAbort
    | ObservationError
    | Interrupted

  /** The outcomes a single check or poll can give. */
  predicate FromCheck(o: Outcome) {
    o.DiskHardFloorAbort? || o.StdoutBoundAbort? || o.MonitorObservationAbort? || o.MemoryPressureAbort?
  }

  datatype MonitorResult = MonitorResult(outcome: Outcome, returncode: int, report: Report)

  /** What happens to the process group once the loop is over. */
  datatype Ending = Ending(stopCode: int, waitCode: int, survivors: bool, restopCode: int, absent: bool)

  function LeastFree(samples: seq<Sample>): int
    requires samples != []
  {
    var last := samples[|samples| - 1].free;
    if |samples| == 1 then last else Min(LeastFree(samples[..|samples| - 1]), last)
  }

  function MostSwapUsed(samples: seq<Sample>): int {
    if samples == [] then 0 else Max(MostSwapUsed(samples[..|samples| - 1]), samples[|samples| - 1].swapUsed)
  }

  function MostSwapTotal(samples: seq<Sample>): int {
    if samples == [] then 0 else Max(MostSwapTotal(samples[..|samples| - 1]), samples[|samples| - 1].swapTotal)
  }

  /** The memory report a sample history stands for. */
  function Summary(samples: seq<Sample>): Memory {
    if samples == [] then EMPTY_MEMORY
    else Memory(|samples|, Some(LeastFree(samples)), MostSwapUsed(samples), MostSwapTotal(samples),
                Some(samples[|samples| - 1]), Run(samples, LowFree), Run(samples, LowFreeHighSwap),
                LongestRun(samples, LowFree), LongestRun(samples, LowFreeHighSwap))
  }

  lemma RunGrows(samples: seq<Sample>, s: Sample, p: Criterion)
    ensures Run(samples + [s], p) == if p.Meets(s) then Run(samples, p) + 1 else 0
    ensures LongestRun(samples + [s], p) == Max(LongestRun(samples, p), Run(samples + [s], p))
  {
    assert (samples + [s])[..|samples|] == samples;
  }

  /** The memory report after one more sample. */
  function Counted(m: Memory, s: Sample): Memory {
    var freeRun := if LowFree.Meets(s) then m.freeRun + 1 else 0;
    var swapRun := if LowFreeHighSwap.Meets(s) then m.swapRun + 1 else 0;
    Memory(m.samples + 1, Some(if m.minimumFree == None then s.free else Min(m.minimumFree.value, s.free)),
           Max(m.maximumSwapUsed, s.swapUsed), Max(m.maximumSwapTotal, s.swapTotal), Some(s),
           freeRun, swapRun, Max(m.maximumFreeRun, freeRun), Max(m.maximumSwapRun, swapRun))
  }

  /** The in-place update of the memory report is the summary of one more sample. */
  lemma SummaryGrows(samples: seq<Sample>, s: Sample)
    ensures Summary(samples + [s]) == Counted(Summary(samples), s)
  {
    var longer := samples + [s];
    assert longer[..|longer| - 1] == samples;
    assert MostSwapUsed(longer) == Max(MostSwapUsed(samples), s.swapUsed);
    assert MostSwapTotal(longer) == Max(MostSwapTotal(samples), s.swapTotal);
    assert LeastFree(longer) == if samples == [] then s.free else Min(LeastFree(samples), s.free);
    RunGrows(samples, s, LowFree);
    RunGrows(samples, s, LowFreeHighSwap);
  }

  predicate AllWellFormed(samples: seq<Sample>) { forall i :: 0 <= i < |samples| ==> WellFormed(samples[i]) }

  lemma {:induction false} SummaryAccepted(samples: seq<Sample>)
    requires AllWellFormed(samples)
    ensures MemoryAccepted(Summary(samples))
  {
    if |samples| > 1 {
      SummaryAccepted(samples[..|samples| - 1]);
    }
  }

  lemma {:induction false} LeastFreeIsReached(samples: seq<Sample>)
    requires samples != []
    ensures exists i :: 0 <= i < |samples| && samples[i].free == LeastFree(samples)
  {
    if |samples| > 1 {
      var front := samples[..|samples| - 1];
      LeastFreeIsReached(front);
      var i :| 0 <= i < |front| && front[i].free == LeastFree(front);
      assert samples[i].free == LeastFree(front);
    }
    assert samples[|samples| - 1].free == LeastFree(samples) || |samples| > 1;
  }

  lemma {:induction false} SummaryBounds(samples: seq<Sample>, i: nat)
    requires i < |samples|
    ensures LeastFree(samples) <= samples[i].free
    ensures samples[i].swapUsed <= MostSwapUsed(samples) && samples[i].swapTotal <= MostSwapTotal(samples)
  {
    var front := samples[..|samples| - 1];
    if i < |front| { SummaryBounds(front, i); }
  }

  lemma {:induction false} MostSwapIsReached(samples: seq<Sample>)
    ensures MostSwapUsed(samples) == 0 || exists s :: s in samples && s.swapUsed == MostSwapUsed(samples)
    ensures MostSwapTotal(samples) == 0 || exists s :: s in samples && s.swapTotal == MostSwapTotal(samples)
  {
    if samples != [] {
      var front := samples[..|samples| - 1];
      MostSwapIsReached(front);
      assert forall s :: s in front ==> s in samples;
      assert samples[|samples| - 1] in samples;
    }
  }

  // ---------- what one check observes, and what a report says of all of them ----------

  /** The free bytes of a check: stdout was within its bound, and both volumes gave a byte
      count. */
  function FreeOf(probe: Probe, limits: Limits): seq<Free> {
    if && probe.stdout.StdoutBytes? && probe.stdout.bytes <= limits.stdoutLimit
       && probe.source.Some? && probe.logs.Some? && probe.source.value >= 0 && probe.logs.value >= 0
    then [Free(probe.source.value, probe.logs.value)]
    else []
  }

  /** The size of stdout, within the bound or not. */
  function CountOf(probe: Probe): seq<int> {
    if probe.stdout.StdoutBytes? then [probe.stdout.bytes] else []
  }

  /** The sample, if one is due, of a check that found stdout and disk in order. */
  function SampleOf(probe: Probe, due: bool, limits: Limits): seq<Sample> {
    if due && DiskInOrder(probe, limits) then Valid(probe.memory) else []
  }

  function Valid(observed: Option<Sample>): seq<Sample> {
    if observed.Some? && WellFormed(observed.value) then [observed.value] else []
  }

  predicate DiskInOrder(probe: Probe, limits: Limits) {
    && probe.stdout.StdoutBytes? && probe.stdout.bytes <= limits.stdoutLimit
    && probe.source.Some? && probe.logs.Some?
    && probe.source.value >= limits.hardFloor && probe.logs.value >= limits.hardFloor
  }

  /** `least` is below every pair, and each of its parts is that of some pair. */
  ghost predicate LeastOf(frees: seq<Free>, least: Option<Free>) {
    if frees == [] then least == None
    else
      && least.Some?
      && (forall f :: f in frees ==> least.value.source <= f.source && least.value.logs <= f.logs)
      && (exists f :: f in frees && f.source == least.value.source)
      && (exists f :: f in frees && f.logs == least.value.logs)
  }

  /** `most` is one of the counts and above all of them, or zero if there are none. */
  ghost predicate MostOf(counts: seq<int>, most: int) {
    if counts == [] then most == 0 else most in counts && forall c :: c in counts ==> c <= most
  }

  function LastOf<T>(s: seq<T>): Option<T> { if s == [] then None else Some(s[|s| - 1]) }

  lemma LeastGrows(frees: seq<Free>, least: Option<Free>, f: Free)
    requires LeastOf(frees, least)
    ensures LeastOf(frees + [f], Some(if least == None then f
                                      else Free(Min(least.value.source, f.source), Min(least.value.logs, f.logs))))
  {
    var longer := frees + [f];
    assert f in longer && forall g :: g in frees ==> g in longer;
    assert forall g :: g in longer ==> g in frees || g == f;
  }

  lemma MostGrows(counts: seq<int>, most: int, c: nat)
    requires MostOf(counts, most)
    ensures MostOf(counts + [c], Max(most, c))
  {
    var longer := counts + [c];
    assert c in longer && forall d :: d in counts ==> d in longer;
    assert forall d :: d in longer ==> d in counts || d == c;
  }

  /** The report of `checks` checks that observed these free bytes, these sizes of stdout
      and these samples. */
  ghost predicate Reports(r: Report, checks: nat, frees: seq<Free>, counts: seq<int>, samples: seq<Sample>) {
    && r.checks == checks && r.groupAbsent
    && LeastOf(frees, r.minimumFree) && r.lastFree == LastOf(frees)
    && MostOf(counts, r.maximumStdout)
    && r.memory == Summary(samples)
  }

  /** There is only one such report. */
  lemma ReportsUnique(r: Report, q: Report, checks: nat, frees: seq<Free>, counts: seq<int>, samples: seq<Sample>)
    requires r.limits == q.limits
    requires Reports(r, checks, frees, counts, samples) && Reports(q, checks, frees, counts, samples)
    ensures r == q
  {
  }

  class Monitor {
    const limits: Limits
    var checks: nat
    var minimumFree: Option<Free>
    var lastFree: Option<Free>
    var maximumStdout: int
    var memory: Memory
    ghost var samples: seq<Sample>   // the well-formed samples observed so far
    ghost var frees: seq<Free>       // the free bytes observed so far
    ghost var counts: seq<int>       // the sizes of stdout observed so far

    constructor (limits: Limits)
      ensures this.limits == limits && Consistent() && Fresh()
    {
      this.limits := limits;
      checks, minimumFree, lastFree, maximumStdout, memory := 0, None, None, 0, EMPTY_MEMORY;
      samples, frees, counts := [], [], [];
    }

    /** No check has been made. */
    ghost predicate Fresh()
      reads this
    {
      checks == 0 && samples == [] && frees == [] && counts == []
    }

    /** The counters stand for everything observed. */
    ghost predicate Consistent()
      reads this
    {
      DiskTallied() && MemoryTallied()
    }

    ghost predicate MemoryTallied()
      reads this`memory, this`samples
    {
      memory == Summary(samples) && AllWellFormed(samples)
    }

    ghost predicate DiskTallied()
      reads this`minimumFree, this`lastFree, this`maximumStdout, this`frees, this`counts
    {
      && LeastOf(frees, minimumFree) && lastFree == LastOf(frees) && MostOf(counts, maximumStdout)
      && maximumStdout >= 0
      && minimumFree.Some? == lastFree.Some?
      && NonNegative(minimumFree) && NonNegative(lastFree)
      && (minimumFree.Some? ==>
            minimumFree.value.source <= lastFree.value.source && minimumFree.value.logs <= lastFree.value.logs)
    }

    /** Nothing so far crossed a bound. */
    ghost predicate Sound()
      reads this
    {
      && DiskSound() && NeverPressed(samples)
      && (if checks == 0 then minimumFree == None else minimumFree.Some? && samples != [])
    }

    ghost predicate DiskSound()
      reads this`minimumFree, this`lastFree, this`maximumStdout
    {
      && maximumStdout <= limits.stdoutLimit
      && (minimumFree.Some? ==> AboveFloor(minimumFree, limits.hardFloor) && AboveFloor(lastFree, limits.hardFloor))
    }

    /** The counters after one more well-formed sample. */
    method Count(s: Sample)
      requires MemoryTallied() && WellFormed(s)
      modifies this`memory, this`samples
      ensures MemoryTallied() && samples == old(samples) + [s]
      ensures memory.last == Some(s) && memory.freeRun == Run(samples, LowFree)
      ensures memory.swapRun == Run(samples, LowFreeHighSwap)
    {
      SummaryGrows(samples, s);
      ghost var counted := Counted(memory, s);
      var freeRun := if s.free <= SUSTAINED_FREE_PERCENT then memory.freeRun + 1 else 0;
      var swapRun := if s.free <= SWAP_FREE_PERCENT && s.swapUsed >= SWAP_USED_BYTES then memory.swapRun + 1 else 0;
      memory := Memory(
        memory.samples + 1,
        Some(if memory.minimumFree == None then s.free else Min(memory.minimumFree.value, s.free)),
        Max(memory.maximumSwapUsed, s.swapUsed), Max(memory.maximumSwapTotal, s.swapTotal), Some(s),
        freeRun, swapRun, Max(memory.maximumFreeRun, freeRun), Max(memory.maximumSwapRun, swapRun));
      assert memory == counted;
      samples := samples + [s];
    }

    /** observe_memory: count the sample, then decide whether it calls for an abort. */
    method ObserveMemory(observed: Option<Sample>) returns (r: Option<Outcome>)
      requires MemoryTallied()
      modifies this`memory, this`samples
      ensures MemoryTallied()
      ensures samples == old(samples) + Valid(observed)
      ensures r == if observed == None || !WellFormed(observed.value) then Some(MonitorObservationAbort)
                   else if Pressed(samples) then Some(MemoryPressureAbort) else None
    {
      if observed == None || !WellFormed(observed.value) { return Some(MonitorObservationAbort); }
      Count(observed.value);
      if observed.value.free <= IMMEDIATE_FREE_PERCENT { return Some(MemoryPressureAbort); }
      if memory.freeRun >= SUSTAINED_FREE_SAMPLES { return Some(MemoryPressureAbort); }
      if memory.swapRun >= SWAP_SUSTAINED_SAMPLES { return Some(MemoryPressureAbort); }
      return None;
    }

    /** The stdout and disk part of one check. */
    method ObserveDisk(probe: Probe) returns (r: Option<Outcome>)
      requires DiskTallied()
      modifies this`maximumStdout, this`minimumFree, this`lastFree, this`frees, this`counts
      ensures DiskTallied()
      ensures r.Some? ==> FromCheck(r.value)
      ensures r == None <==> DiskInOrder(probe, limits)
      ensures r == Some(StdoutBoundAbort) <==> probe.stdout.StdoutBytes? && probe.stdout.bytes > limits.stdoutLimit
      ensures r == Some(DiskHardFloorAbort) <==> DiskLow(probe)
      ensures r == DiskOutcome(probe) && r != Some(MemoryPressureAbort)
      ensures frees == old(frees) + FreeOf(probe, limits) && counts == old(counts) + CountOf(probe)
      ensures r == None ==> minimumFree.Some? && (old(DiskSound()) ==> DiskSound())
    {
      match probe.stdout {
        case StdoutFailed => return Some(MonitorObservationAbort);
        case StdoutBytes(bytes) =>
          MostGrows(counts, maximumStdout, bytes);
          maximumStdout, counts := Max(maximumStdout, bytes), counts + [bytes];
          if bytes > limits.stdoutLimit { return Some(StdoutBoundAbort); }
      }
      if probe.source == None || probe.logs == None || probe.source.value < 0 || probe.logs.value < 0 {
        return Some(MonitorObservationAbort);
      }
      var observed := Free(probe.source.value, probe.logs.value);
      LeastGrows(frees, minimumFree, observed);
      lastFree, frees := Some(observed), frees + [observed];
      minimumFree := Some(if minimumFree == None then observed
                          else Free(Min(minimumFree.value.source, observed.source),
                                    Min(minimumFree.value.logs, observed.logs)));
      if Min(observed.source, observed.logs) < limits.hardFloor { return Some(DiskHardFloorAbort); }
      return None;
    }

    /** observe_runtime: one check, with the memory probe on the first, on every
        fifth, and when forced. */
    method ObserveRuntime(probe: Probe, force: bool) returns (r: Option<Outcome>)
      requires Consistent()
      modifies this
      ensures Consistent() && checks == old(checks) + 1
      ensures r.Some? ==> FromCheck(r.value)
      ensures r == None <==> Unremarkable(probe, force, old(checks), old(samples))
      ensures r == Some(StdoutBoundAbort) <==> probe.stdout.StdoutBytes? && probe.stdout.bytes > limits.stdoutLimit
      ensures r == Some(DiskHardFloorAbort) <==> DiskLow(probe)
      ensures r == Some(MemoryPressureAbort) <==> MemoryPresses(probe, force, old(checks), old(samples))
      ensures samples == old(samples) + SampleOf(probe, force || old(checks) % PROBE_EVERY_CHECKS == 0, limits)
      ensures frees == old(frees) + FreeOf(probe, limits) && counts == old(counts) + CountOf(probe)
      ensures r == CheckOutcome(probe, force, old(checks), old(samples))
      ensures r == None && old(Sound()) ==> Sound()
    {
      OutcomeExactly(probe, force, checks, samples);
      r := ObserveAll(probe, force);
    }

    /** The parts of a check in order. */
    method ObserveAll(probe: Probe, force: bool) returns (r: Option<Outcome>)
      requires Consistent()
      modifies this
      ensures Consistent() && checks == old(checks) + 1
      ensures samples == old(samples) + SampleOf(probe, force || old(checks) % PROBE_EVERY_CHECKS == 0, limits)
      ensures frees == old(frees) + FreeOf(probe, limits) && counts == old(counts) + CountOf(probe)
      ensures r == CheckOutcome(probe, force, old(checks), old(samples))
      ensures r == None ==> minimumFree.Some? && (old(DiskSound()) ==> DiskSound())
      ensures r == None && old(NeverPressed(samples)) ==> NeverPressed(samples)
    {
      checks := checks + 1;
      r := ObserveDisk(probe);
      if r == None { r := ObserveIfDue(probe.memory, force); }
    }

    /** The memory part of a check that the disk part let pass. */
    method ObserveIfDue(observed: Option<Sample>, force: bool) returns (r: Option<Outcome>)
      requires MemoryTallied() && checks > 0
      modifies this`memory, this`samples
      ensures MemoryTallied()
      ensures r == MemoryOutcome(observed, force, checks - 1, old(samples))
      ensures samples == if force || (checks - 1) % PROBE_EVERY_CHECKS == 0 then old(samples) + Valid(observed)
                         else old(samples)
      ensures r == None && old(NeverPressed(samples)) ==> NeverPressed(samples)
    {
      if force || checks == 1 || (checks - 1) % PROBE_EVERY_CHECKS == 0 {
        if observed.Some? { NeverPressedNext(samples, observed.value); }
        r := ObserveMemory(observed);
      } else {
        r := None;
      }
    }

    /** What one check makes of the answers it gets: the first remarkable one decides. */
    ghost function CheckOutcome(probe: Probe, force: bool, before: nat, seen: seq<Sample>): Option<Outcome> {
      var disk := DiskOutcome(probe);
      if disk.Some? then disk else MemoryOutcome(probe.memory, force, before, seen)
    }

    ghost function DiskOutcome(probe: Probe): Option<Outcome> {
      if probe.stdout.StdoutFailed? then Some(MonitorObservationAbort)
      else if probe.stdout.bytes > limits.stdoutLimit then Some(StdoutBoundAbort)
      else if DiskLow(probe) then Some(DiskHardFloorAbort)
      else if !DiskInOrder(probe, limits) then Some(MonitorObservationAbort)
      else None
    }

    /** The sample is taken on the first, every fifth and the forced check. */
    ghost function MemoryOutcome(observed: Option<Sample>, force: bool, before: nat, seen: seq<Sample>)
      : Option<Outcome>
    {
      if !force && before % PROBE_EVERY_CHECKS != 0 then None
      else if observed == None || !WellFormed(observed.value) then Some(MonitorObservationAbort)
      else if Pressed(seen + [observed.value]) then Some(MemoryPressureAbort)
      else None
    }

    /** Each outcome of a check in its exact case. */
    lemma OutcomeExactly(probe: Probe, force: bool, before: nat, seen: seq<Sample>)
      ensures var o := CheckOutcome(probe, force, before, seen);
        && (o.Some? ==> FromCheck(o.value))
        && (o == None <==> Unremarkable(probe, force, before, seen))
        && (o == Some(StdoutBoundAbort) <==> probe.stdout.StdoutBytes? && probe.stdout.bytes > limits.stdoutLimit)
        && (o == Some(DiskHardFloorAbort) <==> DiskLow(probe))
        && (o == Some(MemoryPressureAbort) <==> MemoryPresses(probe, force, before, seen))
    {
    }

    /** Stdout is fine and both volumes answer, but one is below the hard floor. */
    ghost predicate DiskLow(probe: Probe) {
      && probe.stdout.StdoutBytes? && probe.stdout.bytes <= limits.stdoutLimit
      && probe.source.Some? && probe.logs.Some?
      && probe.source.value >= 0 && probe.logs.value >= 0
      && (probe.source.value < limits.hardFloor || probe.logs.value < limits.hardFloor)
    }

    /** The check takes a sample, and that sample calls for an abort. */
    ghost predicate MemoryPresses(probe: Probe, force: bool, before: nat, seen: seq<Sample>) {
      && DiskInOrder(probe, limits)
      && (force || before % PROBE_EVERY_CHECKS == 0)
      && probe.memory.Some? && WellFormed(probe.memory.value) && Pressed(seen + [probe.memory.value])
    }

    /** The check finds every probe answering and every bound respected. */
    ghost predicate Unremarkable(probe: Probe, force: bool, before: nat, seen: seq<Sample>) {
      && DiskInOrder(probe, limits)
      && (force || before % PROBE_EVERY_CHECKS == 0 ==>
            probe.memory.Some? && WellFormed(probe.memory.value) && !Pressed(seen + [probe.memory.value]))
    }

    /** The samples that the first `n` checks of a probe history take. */
    ghost function Taken(rounds: seq<Round>, n: nat): seq<Sample>
      requires n <= |rounds|
    {
      if n == 0 then []
      else Taken(rounds, n - 1) + SampleOf(rounds[n - 1].probe, (n - 1) % PROBE_EVERY_CHECKS == 0, limits)
    }

    ghost function FreesSeen(rounds: seq<Round>, n: nat): seq<Free>
      requires n <= |rounds|
    {
      if n == 0 then [] else FreesSeen(rounds, n - 1) + FreeOf(rounds[n - 1].probe, limits)
    }

    ghost function CountsSeen(rounds: seq<Round>, n: nat): seq<int>
      requires n <= |rounds|
    {
      if n == 0 then [] else CountsSeen(rounds, n - 1) + CountOf(rounds[n - 1].probe)
    }

    /** The forced check is made if the process had exited, the checks were quiet, and
        nothing of its group survived. */
    ghost predicate ChecksOnceMore(rounds: seq<Round>, n: nat, ending: Ending)
      requires 0 < n <= |rounds|
    {
      !ending.survivors && StopOutcome(rounds, n) == None
    }

    /** The report is that of the first `n` checks, and of the forced one if it was made. */
    ghost predicate ReportsRun(r: Report, rounds: seq<Round>, n: nat, ending: Ending, final: Probe)
      requires 0 < n <= |rounds|
    {
      if ChecksOnceMore(rounds, n, ending) then
        Reports(r, n + 1, FreesSeen(rounds, n) + FreeOf(final, limits), CountsSeen(rounds, n) + CountOf(final),
                Taken(rounds, n) + SampleOf(final, true, limits))
      else
        Reports(r, n, FreesSeen(rounds, n), CountsSeen(rounds, n), Taken(rounds, n))
    }

    /** The check of round `i` finds nothing. */
    ghost predicate QuietAt(rounds: seq<Round>, i: nat) {
      i < |rounds| && Unremarkable(rounds[i].probe, false, i, Taken(rounds, i))
    }

    /** The first `n` checks find nothing and the process is running after each. */
    ghost predicate Passed(rounds: seq<Round>, n: nat) {
      n == 0 || (Passed(rounds, n - 1) && QuietAt(rounds, n - 1) && rounds[n - 1].poll.Running?)
    }

    /** The loop stops at check `n`: the first that finds something or after which
        the process is no longer running. */
    ghost predicate StopsAt(rounds: seq<Round>, n: nat) {
      0 < n <= |rounds| && Passed(rounds, n - 1) && !Passed(rounds, n)
    }

    lemma {:induction false} PassedBefore(rounds: seq<Round>, m: nat, n: nat)
      requires m <= n <= |rounds| && Passed(rounds, n)
      ensures Passed(rounds, m)
    {
      if m < n { PassedBefore(rounds, m, n - 1); }
    }

    /** A history of probes and polls has at most one check at which the loop stops. */
    lemma StopsOnce(rounds: seq<Round>, m: nat, n: nat)
      requires StopsAt(rounds, m) && StopsAt(rounds, n)
      ensures m == n
    {
      if m < n { PassedBefore(rounds, m, n - 1); }
      if n < m { PassedBefore(rounds, n, m - 1); }
    }

    /** Why the loop stops at check `n`; `None` if the process has exited. */
    ghost function StopOutcome(rounds: seq<Round>, n: nat): Option<Outcome>
      requires 0 < n <= |rounds|
    {
      var found := CheckOutcome(rounds[n - 1].probe, false, n - 1, Taken(rounds, n - 1));
      if found.Some? then found
      else if rounds[n - 1].poll.Exited? then None
      else Some(MonitorObservationAbort)
    }

    /** The outcome of a run that stops at check `n`. */
    ghost function WaitOutcome(rounds: seq<Round>, n: nat, ending: Ending, final: Probe): Outcome
      requires 0 < n <= |rounds|
    {
      if ending.survivors then DescendantProcessAbort
      else if StopOutcome(rounds, n).Some? then StopOutcome(rounds, n).value
      else
        var late := CheckOutcome(final, true, n, Taken(rounds, n));
        if late.Some? then late.value else Completed
    }

    /** The process is found to have exited at the last of `n` quiet checks, nothing
        of its group survives, and the forced check is quiet too. */
    ghost predicate RunsToEnd(rounds: seq<Round>, n: nat, ending: Ending, final: Probe) {
      && 0 < n <= |rounds|
      && Passed(rounds, n - 1) && QuietAt(rounds, n - 1)
      && rounds[n - 1].poll.Exited? && !ending.survivors
      && Unremarkable(final, true, n, Taken(rounds, n))
    }

    /** The last of `n` checks, or else the forced check after them, is the first
        whose sample calls for an abort. */
    ghost predicate PressesFirst(rounds: seq<Round>, n: nat, final: Probe) {
      && 0 < n <= |rounds|
      && Passed(rounds, n - 1)
      && (|| MemoryPresses(rounds[n - 1].probe, false, n - 1, Taken(rounds, n - 1))
          || (QuietAt(rounds, n - 1) && rounds[n - 1].poll.Exited? && MemoryPresses(final, true, n, Taken(rounds, n))))
    }

    /** Only the check at which the loop stops can end a run well or press first. */
    lemma EndsWhereItStops(rounds: seq<Round>, n: nat, ending: Ending, final: Probe)
      requires StopsAt(rounds, n)
      ensures WaitOutcome(rounds, n, ending, final) == Completed <==> RunsToEnd(rounds, n, ending, final)
      ensures WaitOutcome(rounds, n, ending, final) == Completed <==>
                exists k: nat :: RunsToEnd(rounds, k, ending, final)
      ensures WaitOutcome(rounds, n, ending, final) == MemoryPressureAbort <==>
                !ending.survivors && exists k: nat :: PressesFirst(rounds, k, final)
    {
      forall k: nat | RunsToEnd(rounds, k, ending, final) || PressesFirst(rounds, k, final)
        ensures k == n
      {
        StopsOnce(rounds, k, n);
      }
      assert WaitOutcome(rounds, n, ending, final) == Completed <==> RunsToEnd(rounds, n, ending, final);
      assert WaitOutcome(rounds, n, ending, final) == MemoryPressureAbort <==>
               !ending.survivors && PressesFirst(rounds, n, final);
    }

    /** What the polling loop keeps from pass to pass: `n` checks were quiet. */
    ghost predicate Watching(rounds: seq<Round>, n: nat)
      reads this
    {
      && n <= |rounds| && Consistent() && Sound() && checks == n && Passed(rounds, n) && Seen(rounds, n)
    }

    /** What was observed is what the first `n` checks observe. */
    ghost predicate Seen(rounds: seq<Round>, n: nat)
      requires n <= |rounds|
      reads this
    {
      && samples == Taken(rounds, n) && frees == FreesSeen(rounds, n) && counts == CountsSeen(rounds, n)
    }

    /** The loop is over after `n` checks, for the reason `r`. */
    ghost predicate Stopped(rounds: seq<Round>, n: nat, r: Option<Outcome>)
      reads this
    {
      && StopsAt(rounds, n) && r == StopOutcome(rounds, n) && (r.Some? ==> FromCheck(r.value))
      && Consistent() && checks == n && Seen(rounds, n)
      && (r == None ==> Sound())
    }

    /** One pass through the polling loop. */
    method Turn(rounds: seq<Round>, n: nat) returns (r: Option<Outcome>, over: bool)
      requires n < |rounds| && Watching(rounds, n)
      modifies this
      ensures over <==> StopsAt(rounds, n + 1)
      ensures over ==> Stopped(rounds, n + 1, r)
      ensures !over ==> r == None && rounds[n].poll.Running? && Watching(rounds, n + 1)
    {
      r := ObserveRuntime(rounds[n].probe, false);
      if r.Some? { return r, true; }
      match rounds[n].poll {
        case Running => over := false;
        case PollFailed => return Some(MonitorObservationAbort), true;
        case Exited(_) => over := true;
      }
    }

    /** The polling loop: where and why it stopped. */
    method Watch(rounds: seq<Round>) returns (r: Option<Outcome>, n: nat)
      requires Consistent() && Fresh()
      requires rounds != [] && !rounds[|rounds| - 1].poll.Running?
      modifies this
      ensures Stopped(rounds, n, r)
    {
      n, r := 0, None;
      var over := false;
      while !over
        invariant if over then Stopped(rounds, n, r) else n < |rounds| && Watching(rounds, n)
        decreases !over, |rounds| - n
      {
        r, over := Turn(rounds, n);
        n := n + 1;
      }
    }

    /** _monitored_wait. `None` means that the group's absence was not proven; the
        outcome is that of the one check at which the loop stops. */
    method Wait(rounds: seq<Round>, ending: Ending, final: Probe) returns (r: Option<MonitorResult>, ghost n: nat)
      requires Consistent() && Fresh()
      requires rounds != [] && !rounds[|rounds| - 1].poll.Running? && limits.pollMilliseconds > 0
      modifies this
      ensures r == None <==> !ending.absent
      ensures StopsAt(rounds, n)
      ensures r.Some? ==> MonitorAccepted(r.value.report, limits)
      ensures r.Some? ==> ReportsRun(r.value.report, rounds, n, ending, final)
      ensures r.Some? ==> r.value.outcome == WaitOutcome(rounds, n, ending, final)
      ensures r.Some? ==> (r.value.outcome == Completed <==> RunsToEnd(rounds, n, ending, final))
      ensures r.Some? ==> (r.value.outcome == Completed <==> exists k: nat :: RunsToEnd(rounds, k, ending, final))
      ensures r.Some? ==> (r.value.outcome == MemoryPressureAbort <==>
                             !ending.survivors && exists k: nat :: PressesFirst(rounds, k, final))
      ensures r.Some? ==> r.value.returncode == if ending.survivors then ending.restopCode
                                                else if StopOutcome(rounds, n).Some? then ending.stopCode
                                                else ending.waitCode
      ensures r.Some? && r.value.outcome == Completed ==>
                GatePassed(r.value.report) && r.value.returncode == ending.waitCode
      ensures r.Some? ==> r.value.outcome !in {ProcessExitFailure, ObservationError, Interrupted}
    {
      var stopped: Option<Outcome>, observed: nat;
      stopped, observed := Watch(rounds);
      n := observed;
      if !ending.absent { return None, n; }
      EndsWhereItStops(rounds, n, ending, final);
      var result := Settle(stopped, ending, final, rounds, n);
      r := Some(result);
    }

    /** The last part: judge, and build the result. */
    method Settle(stopped: Option<Outcome>, ending: Ending, final: Probe, ghost rounds: seq<Round>, ghost n: nat)
      returns (r: MonitorResult)
      requires Stopped(rounds, n, stopped) && limits.pollMilliseconds > 0
      modifies this
      ensures MonitorAccepted(r.report, limits) && ReportsRun(r.report, rounds, n, ending, final)
      ensures r.outcome == WaitOutcome(rounds, n, ending, final)
      ensures r.outcome == Completed || r.outcome == DescendantProcessAbort || FromCheck(r.outcome)
      ensures r.outcome == Completed ==> GatePassed(r.report) && r.returncode == ending.waitCode
      ensures r.returncode == if ending.survivors then ending.restopCode
                              else if stopped.Some? then ending.stopCode
                              else ending.waitCode
    {
      var outcome, returncode := Judge(stopped, ending, final, rounds, n);
      r := Conclude(outcome, returncode);
    }

    /** What the reason to stop comes to: survivors of the group override it, and a
        process that exited well is checked once more. */
    method Judge(stopped: Option<Outcome>, ending: Ending, final: Probe, ghost rounds: seq<Round>, ghost n: nat)
      returns (outcome: Outcome, returncode: int)
      requires Stopped(rounds, n, stopped)
      modifies this
      ensures Consistent() && outcome == WaitOutcome(rounds, n, ending, final)
      ensures if ChecksOnceMore(rounds, n, ending) then SeenWith(rounds, n, final) else checks == n && Seen(rounds, n)
      ensures outcome == Completed || outcome == DescendantProcessAbort || FromCheck(outcome)
      ensures outcome == Completed ==> Sound() && checks >= 2 && |samples| >= 2 && returncode == ending.waitCode
      ensures returncode == if ending.survivors then ending.restopCode
                            else if stopped.Some? then ending.stopCode
                            else ending.waitCode
    {
      outcome := if stopped.Some? then stopped.value else Completed;
      returncode := if stopped.Some? then ending.stopCode else ending.waitCode;
      if ending.survivors {
        outcome, returncode := DescendantProcessAbort, ending.restopCode;
      }
      if outcome == Completed {
        var late := CheckOnceMore(final, rounds, n);
        if late.Some? { outcome := late.value; }
      }
    }

    ghost predicate SeenWith(rounds: seq<Round>, n: nat, final: Probe)
      requires n <= |rounds|
      reads this
    {
      && checks == n + 1
      && samples == Taken(rounds, n) + SampleOf(final, true, limits)
      && frees == FreesSeen(rounds, n) + FreeOf(final, limits) && counts == CountsSeen(rounds, n) + CountOf(final)
    }

    /** The forced check after a process that exited well. */
    method CheckOnceMore(final: Probe, ghost rounds: seq<Round>, ghost n: nat) returns (late: Option<Outcome>)
      requires Stopped(rounds, n, None)
      modifies this
      ensures Consistent() && SeenWith(rounds, n, final)
      ensures late == CheckOutcome(final, true, n, Taken(rounds, n)) && (late.Some? ==> FromCheck(late.value))
      ensures late == None ==> Sound() && checks >= 2 && |samples| >= 2
    {
      late := ObserveRuntime(final, true);
    }

    /** The result built from the counters as they stand. */
    function Conclude(outcome: Outcome, returncode: int): (r: MonitorResult)
      requires Consistent() && (outcome == Completed ==> Sound() && checks >= 2 && |samples| >= 2)
      requires limits.pollMilliseconds > 0
      reads this
      ensures MonitorAccepted(r.report, limits) && Reports(r.report, checks, frees, counts, samples)
      ensures r.outcome == outcome && r.returncode == returncode
      ensures outcome == Completed ==> GatePassed(r.report)
    {
      SummaryAccepted(samples);
      if outcome == Completed then
        GateFollows(samples);
        MonitorResult(outcome, returncode, Report(checks, minimumFree, lastFree, maximumStdout, limits, true, memory))
      else
        MonitorResult(outcome, returncode, Report(checks, minimumFree, lastFree, maximumStdout, limits, true, memory))
    }
  }

  /** A history of at least two samples without pressure passes the memory gate. */
  lemma GateFollows(samples: seq<Sample>)
    requires NeverPressed(samples) && |samples| >= 2
    ensures var m := Summary(samples);
      && m.samples >= 2 && m.minimumFree.Some? && m.minimumFree.value > IMMEDIATE_FREE_PERCENT
      && m.maximumFreeRun < SUSTAINED_FREE_SAMPLES && m.maximumSwapRun < SWAP_SUSTAINED_SAMPLES
  {
    NeverPressedBounds(samples);
    LeastFreeIsReached(samples);
  }
}
