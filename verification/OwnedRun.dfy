/**
 * The completion of an owned build process: settle what happened, freeze the
 * evidence, and publish one immutable status while termination signals keep
 * arriving. A success that a signal overtook is withdrawn and published again as
 * an interruption.
 */
module OwnedRun {
  import opened Wrappers
  import opened RuntimeMonitor
  import opened ExitStatus

  function RunnerError(message: string): Error { Error(Ordinary, "RunnerError", message, "RunnerError()") }

  /** The errors that settlement and completion themselves come up with. */
  datatype Wording = Wording(
    absenceUnproven: Staged,
    monitorAborted: Staged,
    nonzeroReturn: Staged,
    incomplete: Staged,
    freezeFailed: Staged,
    postRunFailed: Staged,
    snapshotsMissing: Staged,
    terminated: Staged)
  {
    /** The error of a signal; its family carries the number. */
    function Signal(signum: nat): Staged { terminated.(error := terminated.error.(family := Controlled(signum))) }

    predicate Sound() {
      && Deferrable(absenceUnproven) && Deferrable(monitorAborted) && Deferrable(nonzeroReturn)
      && Deferrable(incomplete) && Deferrable(freezeFailed) && Deferrable(postRunFailed)
      && Deferrable(snapshotsMissing) && Reportable(terminated)
    }
  }

  predicate Deferrable(s: Staged) { Reportable(s) && s.error.family.Ordinary? }

  const WORDING := Wording(
    Staged("runtime-monitor", RunnerError("group absence was not proven")),
    Staged("runtime-monitor", RunnerError("runtime monitor aborted")),
    Staged("popen-wait", RunnerError("nonzero return code")),
    Staged("live-evidence-completeness", RunnerError("live evidence set is incomplete")),
    Staged("stdout-freeze", RunnerError("stdout freeze failed")),
    Staged("post-run-observation", RunnerError("post-run snapshot failed")),
    Staged("completion-snapshots", RunnerError("required completion snapshots are missing")),
    Staged("signal", Error(Controlled(0), "ControlledTermination",
                           "runner received a signal while it owned the build process", "ControlledTermination()")))

  lemma WordingSound()
    ensures WORDING.Sound()
  {
  }

  /** What settlement hands to completion. */
  datatype Settlement = Settlement(outcome: Outcome, error: Option<Staged>, returncode: int, monitor: Report)

  function OutcomeOf(e: Error): Outcome {
    if e.family.Ordinary? then ObservationError else Interrupted
  }

  /** The settlement part of `execute`: the first error decides, then the monitor,
      then the return code. */
  function Settle(result: Option<MonitorResult>, error: Option<Staged>, settledCode: int,
                  limits: Limits, words: Wording): (s: Settlement)
    requires result == None ==> error.Some?
  {
    if result == None then
      Settlement(OutcomeOf(error.value.error), error, settledCode, EmptyReport(limits))
    else
      var m := result.value;
      if error.Some? then
        Settlement(OutcomeOf(error.value.error), error, m.returncode, m.report)
      else if m.outcome != Completed then
        Settlement(m.outcome, Some(words.monitorAborted), m.returncode, m.report)
      else if m.returncode != 0 then
        Settlement(ProcessExitFailure, Some(words.nonzeroReturn), m.returncode, m.report)
      else
        Settlement(Completed, None, m.returncode, m.report)
  }

  /** What completion relies on: an outcome other than completed comes with an error
      and the other way round, and a completed run passed the monitor's gate. */
  predicate Sound(s: Settlement, limits: Limits) {
    && (s.error == None <==> s.outcome == Completed)
    && (s.error.Some? ==> Reportable(s.error.value))
    && (s.error.Some? && s.error.value.error.family.Controlled? ==> s.outcome == Interrupted)
    && (s.outcome == Completed ==> s.returncode == 0 && GatePassed(s.monitor))
    && MonitorAccepted(s.monitor, limits)
  }

  /** Reportable errors of a phase in which no signal handler raises. */
  predicate Deferred(errors: seq<Staged>) {
    forall i :: 0 <= i < |errors| ==> Reportable(errors[i]) && !errors[i].error.family.Controlled?
  }

  lemma SettleSound(result: Option<MonitorResult>, error: Option<Staged>, settledCode: int, limits: Limits,
                    words: Wording)
    requires words.Sound()
    requires result == None ==> error.Some?
    requires error.Some? ==> Reportable(error.value)
    requires limits.pollMilliseconds > 0
    requires result.Some? ==> MonitorAccepted(result.value.report, limits)
    requires result.Some? && result.value.outcome == Completed ==> GatePassed(result.value.report)
    ensures Sound(Settle(result, error, settledCode, limits, words), limits)
    ensures Settle(result, error, settledCode, limits, words).outcome == Completed <==>
              error == None && result.value.outcome == Completed && result.value.returncode == 0
  {
  }

  /** The error that a run completes with as far as signals and snapshots leave it alone:
      the one it already had, then the hook's, then missing live evidence. */
  function FirstError(error: Option<Staged>, hook: Option<Error>, live: Live, incomplete: Staged): Option<Staged> {
    if error.Some? then error
    else if hook.Some? then Some(Staged("post-settle-hook", hook.value))
    else if Complete(live) then None
    else Some(incomplete)
  }

  /** The outcome that belongs to it. */
  function FirstOutcome(outcome: Outcome, error: Option<Staged>, hook: Option<Error>, live: Live): Outcome {
    if error.Some? then outcome
    else if hook.Some? then OutcomeOf(hook.value)
    else if Complete(live) then outcome
    else ObservationError
  }

  /** Standard output as it was found can be frozen: it always has a bound, unless running
      into that bound is what ended the run, and a success needs some of it. */
  predicate Freezable(frozen: Option<Stdout>, outcome: Outcome, mayPublishSuccess: bool, limits: Limits) {
    && frozen.Some? && frozen.value.frozen
    && (mayPublishSuccess ==> frozen.value.bytes > 0)
    && (outcome != StdoutBoundAbort ==> frozen.value.bytes <= limits.stdoutLimit)
  }

  /** The errors that the two snapshots add. */
  function SnapshotErrors(frozen: bool, snapshot: bool, words: Wording): seq<Staged> {
    (if frozen then [] else [words.freezeFailed]) + (if snapshot then [] else [words.postRunFailed])
  }

  /** A primary error, if there is one, and the secondary ones behind it. */
  function Listed(error: Option<Staged>, secondary: seq<Staged>): seq<Staged> {
    if error.Some? then [error.value] + secondary else secondary
  }

  datatype Finish =
    | Published(value: Value)
    | PublicationRaised
    | ValidationRaised
    | WithdrawalRaised

  class Completion {
    const run: Settled
    const limits: Limits
    const words: Wording
    const quiet: bool                   // no signal arrives, and nothing outside fails or changes
    var signum: Option<nat>             // the first deferred signal
    var status: Option<Value>           // behind the status name
    var handlersRestored: bool
    ghost var publications: nat
    ghost var drifted: bool             // something outside the runner changed evidence
    ghost var lastCheck: Option<nat>    // the signal as the publish loop last read it

    var outcome: Outcome
    var error: Option<Staged>
    var secondary: seq<Staged>

    constructor (run: Settled, limits: Limits, s: Settlement, prior: seq<Staged>, words: Wording, quiet: bool)
      requires Sound(s, limits) && run.returncode == s.returncode && run.monitor == s.monitor && run.waitReturnedAt > 0
      requires Deferred(prior) && words.Sound()
      ensures this.run == run && this.limits == limits && this.outcome == s.outcome && this.error == s.error
      ensures this.secondary == prior && this.words == words && this.quiet == quiet && lastCheck == None
      ensures signum == None && status == None && !handlersRestored && publications == 0 && !drifted
      ensures Consistent()
    {
      this.run, this.limits, this.words, this.quiet := run, limits, words, quiet;
      outcome, error, secondary := s.outcome, s.error, prior;
      signum, status, handlersRestored := None, None, false;
      publications, drifted, lastCheck := 0, false, None;
    }

    ghost predicate Consistent()
      reads this
    {
      && MonitorAccepted(run.monitor, limits) && run.waitReturnedAt > 0
      && (error == None <==> outcome == Completed)
      && (error.Some? ==> Reportable(error.value))
      && (error.Some? && error.value.error.family.Controlled? ==> outcome == Interrupted)
      && (outcome == Completed ==> run.returncode == 0 && GatePassed(run.monitor))
      && Deferred(secondary) && words.Sound()
    }

    /** The deferred handler: only the first signal is recorded. */
    method SignalsMayArrive()
      modifies this`signum
      ensures old(signum).Some? || quiet ==> signum == old(signum)
    {
      var arriving: Option<nat> := *;
      if signum == None && !quiet { signum := arriving; }
    }

    /** The reported errors, in the order in which the status lists them. */
    ghost function Reported(): seq<Staged>
      reads this
    {
      Listed(error, secondary)
    }

    /** The hook, then the completeness of the live evidence. */
    method CheckEvidence(hook: Option<Error>)
      requires Consistent() && (hook.Some? ==> Presentable(hook.value))
      modifies this`signum, this`outcome, this`error
      ensures Consistent()
      ensures error == None <==> old(error) == None && hook == None && Complete(run.live)
      ensures error == FirstError(old(error), hook, run.live, words.incomplete)
      ensures outcome == FirstOutcome(old(outcome), old(error), hook, run.live)
      ensures old(signum).Some? || quiet ==> signum == old(signum)
    {
      SignalsMayArrive();
      if hook.Some? && error == None {
        error := Some(Staged("post-settle-hook", hook.value));
        outcome := OutcomeOf(hook.value);
      }
      if error == None && !Complete(run.live) {
        outcome := ObservationError;
        error := Some(words.incomplete);
      }
    }

    /** Freeze stdout, found as `frozen`, and take the post-run snapshot; failures become
        secondary. */
    method TakeSnapshots(frozen: Option<Stdout>, snapshot: Option<Digest>)
      returns (stdout: Option<Stdout>, postRun: Option<Digest>)
      requires Consistent()
      modifies this`signum, this`secondary
      ensures Consistent()
      ensures stdout == if Freezable(frozen, outcome, error == None && Complete(run.live), limits) then frozen else None
      ensures postRun == snapshot
      ensures secondary == old(secondary) + SnapshotErrors(stdout.Some?, postRun.Some?, words)
      ensures error == None && Complete(run.live) && stdout.Some? ==> 0 < stdout.value.bytes <= limits.stdoutLimit
      ensures old(signum).Some? || quiet ==> signum == old(signum)
    {
      SignalsMayArrive();
      var requireNonempty := error == None && outcome == Completed && run.returncode == 0 && Complete(run.live);
      var allowOversize := outcome == StdoutBoundAbort;
      if frozen.Some? && frozen.value.frozen && (requireNonempty ==> frozen.value.bytes > 0)
         && (!allowOversize ==> frozen.value.bytes <= limits.stdoutLimit) {
        stdout := frozen;
      } else {
        stdout := None;
        secondary := secondary + [words.freezeFailed];
      }
      postRun := snapshot;
      if snapshot == None {
        secondary := secondary + [words.postRunFailed];
      }
      SignalsMayArrive();
    }

    /** A pending signal becomes the primary error and demotes the one there was. */
    method PreferSignal()
      requires Consistent()
      modifies this`error, this`outcome, this`secondary
      ensures Consistent()
      ensures signum.Some? ==> error.Some? && outcome == Interrupted && error.value.error.family.Controlled?
      ensures signum == None || old(error.Some? && error.value.error.family.Controlled?) ==>
                error == old(error) && outcome == old(outcome) && secondary == old(secondary)
      ensures signum.Some? && !old(error.Some? && error.value.error.family.Controlled?) ==>
                error == Some(words.Signal(signum.value)) && secondary == old(Reported())
    {
      if signum.Some? && !(error.Some? && error.value.error.family.Controlled?) {
        if error.Some? { secondary := [error.value] + secondary; }
        error := Some(words.Signal(signum.value));
        outcome := Interrupted;
      }
    }

    /** Without an error of its own, completion reports its first failed snapshot. */
    method PromoteSecondary(stdout: Option<Stdout>, postRun: Option<Digest>)
      requires Consistent()
      modifies this`error, this`outcome, this`secondary
      ensures Consistent()
      ensures old(error).Some? ==> error == old(error) && outcome == old(outcome) && secondary == old(secondary)
      ensures error == None ==> stdout.Some? && postRun.Some? && secondary == [] && old(secondary) == []
      ensures Reported() ==
                if old(Reported()) == [] && (stdout == None || postRun == None) then [words.snapshotsMissing]
                else old(Reported())
      ensures outcome == if error == old(error) then old(outcome) else ObservationError
      ensures error == None <==> Reported() == []
    {
      if error == None && secondary != [] {
        error := Some(secondary[0]);
        secondary := secondary[1..];
        outcome := ObservationError;
        assert Reported() == old(secondary);
      }
      if error == None && (stdout == None || postRun == None) {
        error := Some(words.snapshotsMissing);
        outcome := ObservationError;
      }
    }

    /** Publication without replacement: it may fail with or without having bound
        the status name. */
    method Publish(value: Value) returns (ok: bool)
      requires Consistent()
      modifies this`status, this`signum, this`publications
      ensures publications == old(publications) + 1
      ensures ok ==> old(status) == None && status == Some(value)
      ensures status == old(status) || (old(status) == None && status == Some(value))
      ensures quiet && old(status) == None ==> ok
      ensures old(signum).Some? || quiet ==> signum == old(signum)
    {
      publications := publications + 1;
      SignalsMayArrive();
      var works: bool, effective: bool := *, *;
      ok := (works || quiet) && status == None;
      if status == None && (ok || effective) { status := Some(value); }
      SignalsMayArrive();
    }

    /** What the validator reads: the world as the status describes it, unless
        something outside the runner changed it. */
    method ReadWorld(value: Value) returns (w: World)
      requires status == Some(value)
      modifies this`drifted, this`signum
      ensures drifted == (old(drifted) || !Unchanged(value, w))
      ensures quiet && (value.stdout.Some? ==> value.stdout.value.frozen) ==> Unchanged(value, w)
      ensures old(signum).Some? || quiet ==> signum == old(signum)
    {
      var other: World := *;
      SignalsMayArrive();
      w := if quiet then Described(value) else other;
      drifted := drifted || !Unchanged(value, w);
    }

    /** The world exactly as a status describes it. */
    function Described(value: Value): (w: World)
      ensures (value.stdout.Some? ==> value.stdout.value.frozen) ==> Unchanged(value, w)
    {
      World(value.preLaunch, value.live, if value.stdout.Some? then value.stdout.value else Stdout(0, 0, true),
            if value.postRun.Some? then value.postRun.value else 0, Some(value), true)
    }

    /** Removal of exactly the status that was published. */
    method Withdraw() returns (ok: bool)
      modifies this`status, this`signum
      ensures ok ==> status == None
      ensures quiet ==> ok
      ensures status == old(status) || status == None
      ensures old(signum).Some? || quiet ==> signum == old(signum)
    {
      var works: bool, effective: bool := *, *;
      ok := works || quiet;
      if ok || effective { status := None; }
      SignalsMayArrive();
    }

    /** The published value tells one consistent story. */
    ghost predicate Truthful(v: Value)
      reads this
    {
      && RelationsHold(v)
      && v == Current(v.stdout, v.postRun)
      && (v.success ==>
            && v.returncode == 0 && Complete(v.live) && v.stdout.Some? && v.stdout.value.bytes > 0
            && GatePassed(v.monitor))
    }

    /** The status as the errors now stand. */
    function Current(stdout: Option<Stdout>, postRun: Option<Digest>): Value
      reads this
    {
      var failure := if error == None then None else Some(FailureValue(error.value, secondary));
      ExitStatusValue(run, outcome, failure, stdout, postRun)
    }

    /** A run without an error has everything a success needs. */
    ghost predicate Ready(stdout: Option<Stdout>, postRun: Option<Digest>)
      reads this
    {
      error == None ==>
        && Complete(run.live) && stdout.Some? && 0 < stdout.value.bytes <= limits.stdoutLimit && postRun.Some?
        && secondary == []
    }

    lemma CurrentCoherent(stdout: Option<Stdout>, postRun: Option<Digest>, w: World)
      requires Consistent() && Ready(stdout, postRun)
      ensures Truthful(Current(stdout, postRun))
      ensures Accepts(Current(stdout, postRun), run, limits, w) <==> Unchanged(Current(stdout, postRun), w)
      ensures Current(stdout, postRun).success <==> error == None
    {
      var failure := if error == None then None else Some(FailureValue(error.value, secondary));
      if error.Some? { FailureValueAccepted(error.value, secondary); }
      AcceptedExactly(run, limits, outcome, failure, stdout, postRun, w);
    }

    /** One round: publish the status and let the validator read it back. */
    method PublishAndValidate(stdout: Option<Stdout>, postRun: Option<Digest>) returns (r: Finish)
      requires Consistent() && Ready(stdout, postRun) && status == None
      modifies this`status, this`signum, this`publications, this`drifted
      ensures publications == old(publications) + 1
      ensures r.Published? ==> status == Some(r.value) && r.value == Current(stdout, postRun) && Truthful(r.value)
      ensures r.Published? ==> drifted == old(drifted) && (r.value.success <==> error == None)
      ensures r.ValidationRaised? ==> drifted
      ensures !r.WithdrawalRaised?
      ensures quiet && (stdout.Some? ==> stdout.value.frozen) ==> r.Published?
      ensures status.Some? ==> status.value.success == (error == None)
      ensures old(signum).Some? || quiet ==> signum == old(signum)
    {
      var value := Current(stdout, postRun);
      var published := Publish(value);
      ghost var anyWorld := World(0, Live(None, None, None), Stdout(0, 0, false), 0, None, false);
      if !published {
        CurrentCoherent(stdout, postRun, anyWorld);
        return PublicationRaised;
      }
      var world := ReadWorld(value);
      CurrentCoherent(stdout, postRun, world);
      if !Accepts(value, run, limits, world) { return ValidationRaised; }
      return Published(value);
    }

    /** Take the success back and turn the run into an interrupted one. */
    method Overtake() returns (ok: bool)
      requires Consistent() && error == None && signum.Some?
      modifies this`status, this`signum, this`error, this`outcome
      ensures Consistent() && signum == old(signum)
      ensures ok ==> status == None && error == Some(words.Signal(signum.value)) && outcome == Interrupted
      ensures !ok ==> error == None && outcome == old(outcome)
    {
      ok := Withdraw();
      if !ok { return; }
      error := Some(words.Signal(signum.value));
      outcome := Interrupted;
    }

    /** The publish loop: publish, validate, and take a success back if a signal was
        seen meanwhile. It publishes at most twice. */
    method PublishLoop(stdout: Option<Stdout>, postRun: Option<Digest>) returns (r: Finish)
      requires Consistent() && Ready(stdout, postRun) && status == None && publications == 0 && !drifted
      modifies this`status, this`signum, this`publications, this`drifted, this`lastCheck, this`error, this`outcome
      ensures Consistent()
      ensures publications <= 2
      ensures r.Published? ==> status == Some(r.value) && Truthful(r.value)
      ensures r.Published? ==> r.value.stdout == stdout && r.value.postRun == postRun
      // no signal seen at the last check leaves a success behind
      ensures r.Published? && r.value.success ==> lastCheck == None
      ensures status.Some? && status.value.success ==> lastCheck == None || r.WithdrawalRaised?
      ensures r.ValidationRaised? ==> drifted
      ensures old(error).Some? ==> error == old(error) && outcome == old(outcome) && publications <= 1
      ensures error == old(error) ==> outcome == old(outcome)
      ensures error != old(error) ==> old(error) == None && outcome == Interrupted && signum.Some?
      ensures r.Published? && error != old(error) ==> lastCheck.Some? && error == Some(words.Signal(lastCheck.value))
      ensures r.Published? && old(error) == None ==> (r.value.success <==> lastCheck == None)
      ensures r.Published? ==> lastCheck == signum || (lastCheck == None && r.value.success == (error == None))
      ensures r.Published? && old(signum).Some? ==> lastCheck == old(signum)
      ensures quiet && old(signum) == None && (stdout.Some? ==> stdout.value.frozen) ==>
                r.Published? && lastCheck == None && publications == 1
    {
      lastCheck := None;
      while true
        invariant Consistent() && Ready(stdout, postRun) && status == None && !drifted
        invariant publications == 0 ==> error == old(error) && outcome == old(outcome) && lastCheck == None
        invariant publications > 0 ==>
                    && publications == 1 && old(error) == None && signum.Some? && outcome == Interrupted
                    && error == Some(words.Signal(signum.value)) && lastCheck == signum
        invariant old(signum).Some? || quiet ==> signum == old(signum)
        decreases 2 - publications
      {
        r := PublishAndValidate(stdout, postRun);
        if !r.Published? { return; }
        lastCheck := signum;
        if signum == None || !r.value.success { return; }
        var withdrawn := Overtake();
        if !withdrawn { return WithdrawalRaised; }
      }
    }

    /** Everything a success needs, signals aside. */
    ghost predicate Clean(hook: Option<Error>, frozen: Option<Stdout>, snapshot: Option<Digest>)
      reads this
    {
      && error == None && secondary == [] && hook == None && Complete(run.live)
      && frozen.Some? && frozen.value.frozen && 0 < frozen.value.bytes <= limits.stdoutLimit && snapshot.Some?
    }

    /** Standard output as the status will have it. */
    ghost function Frozen(hook: Option<Error>, frozen: Option<Stdout>): Option<Stdout>
      reads this
    {
      var first := FirstError(error, hook, run.live, words.incomplete);
      if Freezable(frozen, FirstOutcome(outcome, error, hook, run.live), first == None, limits) then frozen else None
    }

    /** What the run reports if no signal comes in. */
    ghost function Natural(hook: Option<Error>, frozen: Option<Stdout>, snapshot: Option<Digest>): seq<Staged>
      reads this
    {
      var first := FirstError(error, hook, run.live, words.incomplete);
      Listed(first, secondary + SnapshotErrors(Frozen(hook, frozen).Some?, snapshot.Some?, words))
    }

    /** And the outcome it then has: that of its first error, or an observation error if
        only snapshots failed. */
    ghost function NaturalOutcome(hook: Option<Error>, frozen: Option<Stdout>, snapshot: Option<Digest>): Outcome
      reads this
    {
      if FirstError(error, hook, run.live, words.incomplete).Some? then FirstOutcome(outcome, error, hook, run.live)
      else if Natural(hook, frozen, snapshot) == [] then Completed
      else ObservationError
    }

    lemma CleanExactly(hook: Option<Error>, frozen: Option<Stdout>, snapshot: Option<Digest>)
      requires Consistent()
      ensures Natural(hook, frozen, snapshot) == [] <==> Clean(hook, frozen, snapshot)
    {
    }

    /** Everything before the publication: afterwards the run reports its natural errors,
        preceded by a signal if one has come in meanwhile and is not among them. */
    method Prepare(hook: Option<Error>, frozen: Option<Stdout>, snapshot: Option<Digest>)
      returns (stdout: Option<Stdout>, postRun: Option<Digest>)
      requires Consistent() && (hook.Some? ==> Presentable(hook.value))
      modifies this`signum, this`outcome, this`error, this`secondary
      ensures Consistent() && Ready(stdout, postRun)
      ensures stdout == old(Frozen(hook, frozen)) && postRun == snapshot
      ensures stdout.Some? ==> stdout.value.frozen
      ensures old(signum).Some? || quiet ==> signum == old(signum)
      ensures signum == None ==> Reported() == old(Natural(hook, frozen, snapshot))
                                 && outcome == old(NaturalOutcome(hook, frozen, snapshot))
      ensures signum.Some? ==>
                && outcome == Interrupted
                && (|| Reported() == [words.Signal(signum.value)] + old(Natural(hook, frozen, snapshot))
                    || (Reported() == old(Natural(hook, frozen, snapshot)) && error.value.error.family.Controlled?))
    {
      CheckEvidence(hook);
      stdout, postRun := TakeSnapshots(frozen, snapshot);
      PreferSignal();
      PromoteSecondary(stdout, postRun);
    }

    /** _complete_owned_run. A published status is a success exactly if nothing went wrong
        and no signal had come in at the last check; no error is lost and none made up. */
    method CompleteOwnedRun(hook: Option<Error>, frozen: Option<Stdout>, snapshot: Option<Digest>) returns (r: Finish)
      requires Consistent() && status == None && publications == 0 && !drifted && !handlersRestored
      requires hook.Some? ==> Presentable(hook.value)
      modifies this
      ensures handlersRestored && publications <= 2
      ensures r.Published? ==> status == Some(r.value) && Truthful(r.value)
      ensures r.Published? ==> r.value.stdout == old(Frozen(hook, frozen)) && r.value.postRun == snapshot
      ensures r.Published? ==> (r.value.success <==> old(Clean(hook, frozen, snapshot)) && lastCheck == None)
      ensures r.Published? && lastCheck == None ==>
                && Reported() == old(Natural(hook, frozen, snapshot))
                && r.value.outcome == old(NaturalOutcome(hook, frozen, snapshot))
      ensures r.Published? && lastCheck.Some? ==>
                || (Reported() == old(Natural(hook, frozen, snapshot))
                    && r.value.outcome in {Interrupted, old(NaturalOutcome(hook, frozen, snapshot))})
                || (r.value.outcome == Interrupted
                    && Reported() == [words.Signal(lastCheck.value)] + old(Natural(hook, frozen, snapshot)))
      ensures r.Published? && (old(signum).Some? || old(outcome) == Interrupted) ==> r.value.outcome == Interrupted
      ensures r.ValidationRaised? ==> drifted
      ensures r.Published? && old(error).Some? ==> old(error).value in Reported()
      ensures quiet && old(signum) == None ==> r.Published? && lastCheck == None && publications == 1
    {
      CleanExactly(hook, frozen, snapshot);
      var stdout, postRun := Prepare(hook, frozen, snapshot);
      r := PublishLoop(stdout, postRun);
      handlersRestored := true;
    }
  }

  /** From a settlement to the published status. */
  method CompleteSettled(s: Settlement, limits: Limits, pid: nat, runnerPid: nat, waitReturnedAt: int,
                         preLaunch: Digest, live: Live, hook: Option<Error>, frozen: Option<Stdout>,
                         snapshot: Option<Digest>, words: Wording, quiet: bool)
    returns (r: Finish, ghost c: Completion)
    requires Sound(s, limits) && waitReturnedAt > 0 && words.Sound()
    requires hook.Some? ==> Presentable(hook.value)
    ensures c.handlersRestored && c.publications <= 2
    ensures r.Published? ==> c.status == Some(r.value) && RelationsHold(r.value)
    ensures r.Published? ==> r.value.monitor == s.monitor && r.value.returncode == s.returncode
    ensures r.Published? ==>
              (r.value.success <==>
                && c.lastCheck == None && s.error == None && hook == None && Complete(live)
                && frozen.Some? && frozen.value.frozen && 0 < frozen.value.bytes <= limits.stdoutLimit
                && snapshot.Some?)
    ensures r.Published? && s.error.Some? ==>
              && s.error.value in c.Reported()
              && (r.value.outcome == s.outcome || (c.lastCheck.Some? && r.value.outcome == Interrupted))
    ensures quiet ==> r.Published? && c.lastCheck == None
    ensures r.ValidationRaised? ==> c.drifted
  {
    var run := Settled(pid, runnerPid, s.returncode, waitReturnedAt, preLaunch, live, s.monitor);
    var completion := new Completion(run, limits, s, [], words, quiet);
    c := completion;
    r := completion.CompleteOwnedRun(hook, frozen, snapshot);
  }

  /** The outcome of a run that no error outside the monitor ended: the monitor's, or that of
      a leader that exited with an error. */
  ghost function RunOutcome(m: Monitor, rounds: seq<Round>, n: nat, ending: Ending, final: Probe): Outcome
    requires 0 < n <= |rounds|
  {
    var outcome := m.WaitOutcome(rounds, n, ending, final);
    if outcome == Completed && ending.waitCode != 0 then ProcessExitFailure else outcome
  }

  /** The monitor and the settlement of what it, or an error beside it, says. `None` if
      neither the monitor nor `settled` proves that the group is gone. */
  method MonitorAndSettle(m: Monitor, rounds: seq<Round>, ending: Ending, final: Probe,
                          raised: Option<Staged>, late: Option<Staged>, settled: Option<int>, words: Wording)
    returns (r: Option<Settlement>, ghost n: nat)
    requires m.Consistent() && m.Fresh() && words.Sound()
    requires rounds != [] && !rounds[|rounds| - 1].poll.Running? && m.limits.pollMilliseconds > 0
    requires (raised.Some? ==> Reportable(raised.value)) && (late.Some? ==> Reportable(late.value))
    modifies m
    ensures raised == None ==> m.StopsAt(rounds, n)
    ensures r == None <==> (raised.Some? || !ending.absent) && settled == None
    ensures r.Some? ==> Sound(r.value, m.limits)
    ensures r.Some? ==>
              (r.value.error == None <==>
                && raised == None && late == None && ending.absent
                && m.RunsToEnd(rounds, n, ending, final) && ending.waitCode == 0)
    ensures r.Some? && raised.Some? ==> r.value.error == raised
    ensures r.Some? && r.value.error.Some? && !r.value.error.value.error.family.Ordinary? ==>
              r.value.outcome == Interrupted
    ensures r.Some? && raised == None && ending.absent ==>
              m.ReportsRun(r.value.monitor, rounds, n, ending, final)
    ensures r.Some? && raised == None && late == None && ending.absent ==>
              r.value.outcome == RunOutcome(m, rounds, n, ending, final)
  {
    var result: Option<MonitorResult> := None;
    var error := late;
    n := 0;
    if raised.Some? {
      error := raised;
    } else {
      result, n := m.Wait(rounds, ending, final);
      if result == None { error := Some(words.absenceUnproven); }
    }
    if result == None && settled == None { return None, n; }
    SettleSound(result, error, if settled.Some? then settled.value else 0, m.limits, words);
    r := Some(Settle(result, error, if settled.Some? then settled.value else 0, m.limits, words));
  }

  /** From the monitor to the published status. `raised` is an error, a signal
      handler's among others, that ended the monitor before it returned; `late` one that
      was raised after it returned; `settled` says whether the group's absence could be
      proven when the monitor gave no result. `None` is that failure. */
  method MonitorAndComplete(m: Monitor, rounds: seq<Round>, ending: Ending, final: Probe,
                            raised: Option<Staged>, late: Option<Staged>,
                            settled: Option<int>, pid: nat, runnerPid: nat, waitReturnedAt: int, preLaunch: Digest,
                            live: Live, hook: Option<Error>, frozen: Option<Stdout>, snapshot: Option<Digest>,
                            words: Wording, quiet: bool)
    returns (r: Option<Finish>, ghost n: nat, ghost c: Completion?)
    requires m.Consistent() && m.Fresh()
    requires rounds != [] && !rounds[|rounds| - 1].poll.Running? && m.limits.pollMilliseconds > 0 && waitReturnedAt > 0
    requires (raised.Some? ==> Reportable(raised.value)) && (late.Some? ==> Reportable(late.value))
    requires (hook.Some? ==> Presentable(hook.value)) && words.Sound()
    modifies m
    ensures raised == None ==> m.StopsAt(rounds, n)
    ensures r == None <==> (raised.Some? || !ending.absent) && settled == None
    ensures r.Some? ==> c != null && c.handlersRestored && c.publications <= 2
    ensures r.Some? && r.value.Published? ==> c.status == Some(r.value.value) && RelationsHold(r.value.value)
    ensures r.Some? && r.value.Published? ==>
              (r.value.value.success <==>
                && c.lastCheck == None
                && raised == None && late == None && hook == None && Complete(live)
                && m.RunsToEnd(rounds, n, ending, final) && ending.absent && ending.waitCode == 0
                && frozen.Some? && frozen.value.frozen && 0 < frozen.value.bytes <= m.limits.stdoutLimit
                && snapshot.Some?)
    ensures r.Some? && quiet ==> r.value.Published? && c.lastCheck == None
    // the status carries the report and the outcome of the monitor
    ensures r.Some? && r.value.Published? && raised == None && ending.absent ==>
              m.ReportsRun(r.value.value.monitor, rounds, n, ending, final)
    ensures r.Some? && r.value.Published? && raised == None && late == None && ending.absent && c.lastCheck == None ==>
              var outcome := RunOutcome(m, rounds, n, ending, final);
              outcome != Completed ==> r.value.value.outcome == outcome
    // a signal that ends the monitor makes the run an interrupted one, with that signal in its report
    ensures r.Some? && r.value.Published? && raised.Some? ==> raised.value in c.Reported()
    ensures r.Some? && r.value.Published? && raised.Some? && !raised.value.error.family.Ordinary? ==>
              r.value.value.outcome == Interrupted
    ensures r.Some? && r.value.ValidationRaised? ==> c.drifted
  {
    var s;
    s, n := MonitorAndSettle(m, rounds, ending, final, raised, late, settled, words);
    if s == None { return None, n, null; }
    var finish;
    finish, c := CompleteSettled(s.value, m.limits, pid, runnerPid, waitReturnedAt, preLaunch, live, hook, frozen,
                                 snapshot, words, quiet);
    r := Some(finish);
  }
}
