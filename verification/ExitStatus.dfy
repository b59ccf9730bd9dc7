/**
 * The immutable exit status of an owned run: how the runner builds it and what
 * its validator, reading everything again, asks of it.
 */
module ExitStatus {
  import opened Wrappers
  import opened RuntimeMonitor

  const MAX_MESSAGE: nat := 4096
  const STATUS_SCHEMA: nat := 2

  type Digest = int

  // ---------- errors and failure entries ----------

  datatype Family = Controlled(signum: nat) | Abrupt | Ordinary

  /** A Python exception: its family, class name, message and repr. */
  datatype Error = Error(family: Family, kind: string, message: string, repr: string)

  predicate Presentable(e: Error) { e.kind != "" && e.repr != "" }

  datatype Entry = Entry(stage: string, kind: string, message: string)
  datatype Staged = Staged(stage: string, error: Error)
  datatype Failure = Failure(primary: Entry, secondary: seq<Entry>)

  function ErrorEntry(s: Staged): Entry {
    var message := if |s.error.message| > MAX_MESSAGE then s.error.message[..4093] + "..." else s.error.message;
    Entry(s.stage, s.error.kind, if message == "" then s.error.repr else message)
  }

  /** A message is kept up to its bound; an empty one gives way to the repr. */
  lemma MessageKept(s: Staged)
    ensures var m, text := ErrorEntry(s).message, s.error.message;
      && (text == "" ==> m == s.error.repr)
      && (0 < |text| <= MAX_MESSAGE ==> m == text)
      && (|text| > MAX_MESSAGE ==> |m| == MAX_MESSAGE && m[..4093] == text[..4093] && m[4093..] == "...")
    ensures ErrorEntry(s).stage == s.stage && ErrorEntry(s).kind == s.error.kind
  {
  }

  function Entries(errors: seq<Staged>): (r: seq<Entry>)
    ensures |r| == |errors| && forall i :: 0 <= i < |r| ==> r[i] == ErrorEntry(errors[i])
  {
    if errors == [] then [] else [ErrorEntry(errors[0])] + Entries(errors[1..])
  }

  function FailureValue(primary: Staged, secondary: seq<Staged>): Failure {
    Failure(ErrorEntry(primary), Entries(secondary))
  }

  predicate Reportable(s: Staged) { s.stage != "" && Presentable(s.error) }

  predicate EntryAccepted(e: Entry) { e.stage != "" && e.kind != "" && e.message != "" }

  predicate FailureAccepted(f: Option<Failure>) {
    f.Some? ==>
      EntryAccepted(f.value.primary) && forall i :: 0 <= i < |f.value.secondary| ==> EntryAccepted(f.value.secondary[i])
  }

  lemma FailureValueAccepted(primary: Staged, secondary: seq<Staged>)
    requires Reportable(primary) && forall i :: 0 <= i < |secondary| ==> Reportable(secondary[i])
    ensures FailureAccepted(Some(FailureValue(primary, secondary)))
  {
    var f := FailureValue(primary, secondary);
    forall i | 0 <= i < |f.secondary|
      ensures EntryAccepted(f.secondary[i])
    {
      assert f.secondary[i] == ErrorEntry(secondary[i]);
    }
  }

  // ---------- the status value ----------

  /** Digests of the three live records, where they were published. */
  datatype Live = Live(primary: Option<Digest>, supplement: Option<Digest>, revalidation: Option<Digest>)

  predicate Complete(live: Live) { live.primary.Some? && live.supplement.Some? && live.revalidation.Some? }

  datatype Stdout = Stdout(bytes: nat, digest: Digest, frozen: bool)

  /** What is fixed once the process is settled. */
  datatype Settled = Settled(
    pid: nat,
    runnerPid: nat,
    returncode: int,
    waitReturnedAt: int,
    preLaunch: Digest,
    live: Live,
    monitor: Report)

  datatype Value = Value(
    schema: nat,
    pid: nat,
    returncode: int,
    waitReturnedAt: int,
    runnerPid: nat,
    outcome: Outcome,
    failure: Option<Failure>,
    monitor: Report,
    evidenceComplete: bool,
    success: bool,
    preLaunch: Digest,
    live: Live,
    stdout: Option<Stdout>,
    postRun: Option<Digest>)

  /** _exit_status_value. */
  function ExitStatusValue(run: Settled, outcome: Outcome, failure: Option<Failure>,
                           stdout: Option<Stdout>, postRun: Option<Digest>): Value
  {
    var complete := Complete(run.live);
    var success := run.returncode == 0 && outcome == Completed && failure == None && complete
                   && stdout.Some? && postRun.Some?;
    Value(STATUS_SCHEMA, run.pid, run.returncode, run.waitReturnedAt, run.runnerPid, outcome, failure, run.monitor,
          complete, success, run.preLaunch, run.live, stdout, postRun)
  }

  // ---------- the validator ----------

  /** What the validator finds when it reads the evidence again. */
  datatype World = World(
    preLaunch: Digest,
    live: Live,
    stdout: Stdout,
    postRun: Digest,
    status: Option<Value>,     // behind the published name
    statusImmutable: bool)

  predicate LinkCurrent(link: Option<Digest>, found: Option<Digest>) { link.Some? ==> found == link }

  /** Everything the status refers to is still what it was. */
  predicate Unchanged(v: Value, w: World) {
    && w.preLaunch == v.preLaunch
    && LinkCurrent(v.live.primary, w.live.primary)
    && LinkCurrent(v.live.supplement, w.live.supplement)
    && LinkCurrent(v.live.revalidation, w.live.revalidation)
    && (v.stdout.Some? ==> w.stdout.frozen && w.stdout == v.stdout.value)
    && (v.postRun.Some? ==> w.postRun == v.postRun.value)
    && w.status == Some(v) && w.statusImmutable
  }

  /** The process as the validator's caller knows it. */
  predicate SameProcess(v: Value, run: Settled) {
    && v.schema == STATUS_SCHEMA && v.pid == run.pid && v.runnerPid == run.runnerPid
    && v.returncode == run.returncode && v.waitReturnedAt > 0
    && v.preLaunch == run.preLaunch
  }

  predicate SuccessDerived(v: Value) {
    v.returncode == 0 && v.outcome == Completed && v.failure == None && Complete(v.live) && v.stdout.Some?
    && v.postRun.Some?
  }

  /** The relations between outcome, failure and success. */
  predicate RelationsHold(v: Value) {
    && v.evidenceComplete == Complete(v.live)
    && v.success == SuccessDerived(v)
    && (v.success <==> v.failure == None)
    && (v.success <==> v.outcome == Completed)
  }

  /** validate_exit_status. */
  predicate Accepts(v: Value, run: Settled, limits: Limits, w: World) {
    && SameProcess(v, run)
    && FailureAccepted(v.failure)
    && MonitorAccepted(v.monitor, limits)
    && RelationsHold(v)
    && (v.success ==> 0 < v.stdout.value.bytes <= limits.stdoutLimit && GatePassed(v.monitor))
    && Unchanged(v, w)
  }

  /** How the runner may bring an outcome, a failure and the snapshots together. */
  predicate Coherent(run: Settled, limits: Limits, outcome: Outcome, failure: Option<Failure>,
                     stdout: Option<Stdout>, postRun: Option<Digest>)
  {
    && (failure == None <==> outcome == Completed)
    && (outcome == Completed ==>
          && run.returncode == 0 && Complete(run.live) && GatePassed(run.monitor)
          && stdout.Some? && 0 < stdout.value.bytes <= limits.stdoutLimit && postRun.Some?)
  }

  /** The producer and the validator agree on what a success is, whatever is put together. */
  lemma SuccessAgreed(run: Settled, outcome: Outcome, failure: Option<Failure>,
                      stdout: Option<Stdout>, postRun: Option<Digest>)
    ensures var v := ExitStatusValue(run, outcome, failure, stdout, postRun);
      && v.success == SuccessDerived(v) && v.evidenceComplete == Complete(v.live)
      && SameProcess(v, run) == (run.waitReturnedAt > 0)
  {
  }

  /** What may have changed since the status was built. */
  datatype Change =
    PreLaunchRecord | PrimaryRecord | SupplementRecord | RevalidationRecord | StdoutLog | Output | StatusFile
  {
    predicate Seen(v: Value, w: World) {
      match this
      case PreLaunchRecord => w.preLaunch != v.preLaunch
      case PrimaryRecord => v.live.primary.Some? && w.live.primary != v.live.primary
      case SupplementRecord => v.live.supplement.Some? && w.live.supplement != v.live.supplement
      case RevalidationRecord => v.live.revalidation.Some? && w.live.revalidation != v.live.revalidation
      case StdoutLog => v.stdout.Some? && (!w.stdout.frozen || w.stdout != v.stdout.value)
      case Output => v.postRun.Some? && w.postRun != v.postRun.value
      case StatusFile => w.status != Some(v) || !w.statusImmutable
    }
  }

  /** Each single change is found, and without one nothing counts as changed. */
  lemma ChangedExactly(v: Value, w: World)
    ensures !Unchanged(v, w) <==> exists c: Change :: c.Seen(v, w)
  {
    assert PreLaunchRecord.Seen(v, w) || PrimaryRecord.Seen(v, w) || SupplementRecord.Seen(v, w)
           || RevalidationRecord.Seen(v, w) || StdoutLog.Seen(v, w) || Output.Seen(v, w) || StatusFile.Seen(v, w)
           || Unchanged(v, w);
  }

  /** What an accepted status proves to whoever reads it. */
  lemma AcceptanceProves(v: Value, run: Settled, limits: Limits, w: World)
    requires Accepts(v, run, limits, w)
    ensures v.schema == STATUS_SCHEMA && v.pid == run.pid && v.runnerPid == run.runnerPid
    ensures v.returncode == run.returncode && v.waitReturnedAt > 0 && v.preLaunch == run.preLaunch == w.preLaunch
    ensures v.failure == None <==> v.outcome == Completed
    ensures v.failure.Some? ==>
              forall e :: e == v.failure.value.primary || e in v.failure.value.secondary ==>
                e.stage != "" && e.kind != "" && e.message != ""
    ensures v.monitor.limits == limits && v.monitor.groupAbsent && v.monitor.maximumStdout >= 0
    ensures v.monitor.minimumFree.Some? ==>
              v.monitor.minimumFree.value.source >= 0 && v.monitor.minimumFree.value.logs >= 0
    ensures v.success ==>
              && v.returncode == 0 && v.outcome == Completed && Complete(w.live) && w.live == v.live
              && w.stdout == v.stdout.value && 0 < w.stdout.bytes <= limits.stdoutLimit && w.stdout.frozen
              && w.postRun == v.postRun.value && v.monitor.maximumStdout <= limits.stdoutLimit
              && v.monitor.checks >= 2 && v.monitor.memory.samples >= 2
              && v.monitor.lastFree.value.source >= limits.hardFloor
              && v.monitor.lastFree.value.logs >= limits.hardFloor
    ensures w.status == Some(v) && w.statusImmutable
  {
  }

  /** The validator accepts what the producer built exactly when the combination is
      coherent and nothing the status refers to has changed since. */
  lemma AcceptedExactly(run: Settled, limits: Limits, outcome: Outcome, failure: Option<Failure>,
                        stdout: Option<Stdout>, postRun: Option<Digest>, w: World)
    requires FailureAccepted(failure) && MonitorAccepted(run.monitor, limits) && run.waitReturnedAt > 0
    ensures var v := ExitStatusValue(run, outcome, failure, stdout, postRun);
      Accepts(v, run, limits, w) <==> Coherent(run, limits, outcome, failure, stdout, postRun) && Unchanged(v, w)
  {
  }
}
