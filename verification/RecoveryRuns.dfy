/**
 * Two runs of the recovery tool's publication, step by step as its calls take them: one
 * in which its rollback removes a rival's file, and one in which a link that raised
 * after taking effect leaves the record public.
 */
module RecoveryRuns {
  import opened Wrappers
  import opened DirectoryTraces

  /** Where a run without any rival so far has come to, nothing withdrawn or sealed. */
  ghost predicate At(candidate: Inode, payload: Bytes, trace: Trace, s: Snapshot, linked: bool) {
    && Now(trace) == s && Careful(candidate, payload, trace) && SparesRivals(candidate, trace)
    && RivalsKeepOff(candidate, trace) && RemovedAsSeen(trace)
    && !Disturbed(trace) && !Withdrawn(trace) && !Sealed(trace)
    && Linked(trace) == LinkedCandidate(candidate, trace) == linked
  }

  ghost function Idle(trace: Trace): Trace { Then(trace, Interfere, Now(trace)) }

  ghost function Idling(trace: Trace, action: Action, after: Snapshot): Trace { Then(Idle(trace), action, after) }

  /** A step that nobody disturbs. */
  lemma Step(candidate: Inode, payload: Bytes, trace: Trace, linked: bool, action: Action, after: Snapshot)
    requires At(candidate, payload, trace, Now(trace), linked)
    requires Possible(candidate, Now(trace), action, after)
    requires Heeds(candidate, payload, trace, action) && !action.UnlinkDest? && !action.Interfere?
    requires action != FlushDirectory(true)
    requires action.Link? ==> Now(trace).names.temp == Some(candidate)
    ensures At(candidate, payload, Then(trace, action, after), after, linked || action.Link?)
  {
  }

  /** The same for a call before which rivals could have acted. */
  lemma IdleStep(candidate: Inode, payload: Bytes, trace: Trace, linked: bool, action: Action, after: Snapshot)
    requires At(candidate, payload, trace, Now(trace), linked)
    requires Possible(candidate, Now(trace), action, after)
    requires Heeds(candidate, payload, trace, action) && !action.UnlinkDest? && !action.Interfere?
    requires action != FlushDirectory(true)
    requires action.Link? ==> Now(trace).names.temp == Some(candidate)
    ensures At(candidate, payload, Idling(trace, action, after), after, linked || action.Link?)
  {
    CandidateExists(candidate, payload, trace);
    assert At(candidate, payload, Idle(trace), Now(trace), linked);
    Step(candidate, payload, Idle(trace), linked, action, after);
  }

  /** A publication up to and including its link: both names are found free, the
      private file is created, written, flushed and measured, and linked. */
  lemma PublishedRun(candidate: Inode, payload: Bytes, mode: nat) returns (trace: Trace)
    ensures At(candidate, payload, trace,
              Snapshot(Names(Some(candidate), Some(candidate), 0), File(true, payload, mode, true), None), true)
    ensures trace.Then? && trace.action.Link?
  {
    var start := Snapshot(Names(None, None, 0), File(false, [], 0, false), None);
    var created := start.(names := Names(None, Some(candidate), 0), file := File(true, [], mode, false));
    var written := created.(file := File(true, payload, mode, false));
    var flushed := created.(file := File(true, payload, mode, true));
    trace := Origin(start);
    IdleStep(candidate, payload, trace, false, LookDest(true), start);
    trace := Idling(trace, LookDest(true), start);
    IdleStep(candidate, payload, trace, false, LookDest(true), start);
    trace := Idling(trace, LookDest(true), start);
    assert At(candidate, payload, Idle(trace), start, false);
    trace := Idle(trace);
    IdleStep(candidate, payload, trace, false, Create, created);
    trace := Idling(trace, Create, created);
    IdleStep(candidate, payload, trace, false, Write, written);
    trace := Idling(trace, Write, written);
    IdleStep(candidate, payload, trace, false, FlushFile, flushed);
    trace := Idling(trace, FlushFile, flushed);
    IdleStep(candidate, payload, trace, false, Measure, flushed);
    trace := Idling(trace, Measure, flushed);
    var linked := flushed.(names := Names(Some(candidate), Some(candidate), 0));
    IdleStep(candidate, payload, trace, false, Link, linked);
    trace := Idling(trace, Link, linked);
  }

  /** Otherwise it need not be. The run of a rollback: the record is linked, the
      directory flush fails, the name is found, looked up and opened for its digest,
      and a rival that takes it over while the digest is computed loses its own file
      to the removal. */
  lemma CarefulMayRemoveRival(candidate: Inode, rival: Inode, payload: Bytes, mode: nat) returns (trace: Trace)
    requires candidate != rival
    ensures Careful(candidate, payload, trace) && RivalsKeepOff(candidate, trace) && LinkedCandidate(candidate, trace)
    ensures Now(trace).file == File(true, payload, mode, true)
    ensures trace.Then? && trace.action.UnlinkDest? && Now(trace.before).names.dest == Some(rival)
    ensures trace.before.Then? && trace.before.action.Interfere?
    ensures At(candidate, payload, trace.before.before,
              Snapshot(Names(Some(candidate), None, 0), File(true, payload, mode, true), None), true)
    ensures LastLook(trace.before) == Saw(Some(candidate))
    ensures !SparesRivals(candidate, trace)
  {
    trace := PublishedRun(candidate, payload, mode);
    var public := Snapshot(Names(Some(candidate), None, 0), File(true, payload, mode, true), None);
    IdleStep(candidate, payload, trace, true, UnlinkTemp(false), public);
    trace := Idling(trace, UnlinkTemp(false), public);
    IdleStep(candidate, payload, trace, true, Fault(OtherCall, Exc.OtherOs), public);   // the directory flush
    trace := Idling(trace, Fault(OtherCall, Exc.OtherOs), public);
    IdleStep(candidate, payload, trace, true, LookDest(true), public);
    trace := Idling(trace, LookDest(true), public);
    IdleStep(candidate, payload, trace, true, LookDest(true), public);
    trace := Idling(trace, LookDest(true), public);
    CandidateExists(candidate, payload, trace);
    assert At(candidate, payload, Idle(trace), public, true);              // open
    trace := Idle(trace);
    assert LastLook(trace) == Saw(Some(candidate));
    var taken := public.(names := Names(Some(rival), None, 0));
    trace := Then(trace, Interfere, taken);                                // digest
    assert Careful(candidate, payload, trace);
    trace := Then(trace, UnlinkDest, taken.(names := Names(None, None, 0)));
  }

  /** The run of a link that raises after taking effect: only the private name is
      dropped, and the record stays public, though nothing was acknowledged. */
  lemma LateLinkStaysPublic(candidate: Inode, payload: Bytes, mode: nat) returns (trace: Trace)
    ensures Disciplined(candidate, payload, trace) && !Disturbed(trace)
    ensures LinkedCandidate(candidate, trace) && !Withdrawn(trace) && !Sealed(trace)
    ensures Now(trace) == Snapshot(Names(Some(candidate), None, 0), File(true, payload, mode, true), None)
    ensures LinkFailedLate(trace)
  {
    trace := PublishedRun(candidate, payload, mode);
    var linked := trace;
    Step(candidate, payload, trace, true, Fault(LinkCall, Exc.OtherOs), Now(trace));
    trace := Then(trace, Fault(LinkCall, Exc.OtherOs), Now(trace));
    assert LinkFailedLate(trace);
    CandidateExists(candidate, payload, trace);
    assert At(candidate, payload, Idle(trace), Now(trace), true);          // lexists of the private name
    trace := Idle(trace);
    var public := Snapshot(Names(Some(candidate), None, 0), File(true, payload, mode, true), None);
    IdleStep(candidate, payload, trace, true, UnlinkTemp(false), public);
    trace := Idling(trace, UnlinkTemp(false), public);
  }
}
