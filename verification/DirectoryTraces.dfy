/**
 * The history of one directory as a hard-link publisher sees it: a final name, a
 * private temporary name and the candidate inode the publisher created. What such
 * a history is, which publishers are careful and disciplined in it, and what it can
 * then never show.
 */
module DirectoryTraces {
  import opened Wrappers

  type Inode = nat
  newtype Byte = b: int | 0 <= b < 256
  type Bytes = seq<Byte>

  /** A Python exception: the four kinds a system call raises, a failed check of
      the publisher itself, and the two error classes of the args writer. */
  datatype Exc =
    | NotFound
    | Exists
    | OtherOs
    | Interrupt
    | CheckFailed
    | Retained(identity: Option<Inode>, kept: bool, present: Option<bool>)
    | Committed(identity: Option<Inode>, kept: bool)
  {
    predicate IsOsError() { NotFound? || Exists? || OtherOs? }

    predicate FromSystemCall() { IsOsError() || Interrupt? }

    /** Neither of the two classified errors. */
    predicate IsPlain() { !Retained? && !Committed? }
  }

  datatype Result<+T> = Ok(value: T) | Raise(exc: Exc)

  datatype Stat = Stat(inode: Inode, nlink: nat, size: nat, mode: nat)

  /** The names of the directory: the final one, the private one, and how many
      further hard links to the candidate exist elsewhere. */
  datatype Names = Names(dest: Option<Inode>, temp: Option<Inode>, hidden: nat)

  /** The candidate file; `flushed` once its data reached the disk. */
  datatype File = File(created: bool, content: Bytes, mode: nat, flushed: bool)

  /** One instant; `durable` is what the final name bound at the last directory flush. */
  datatype Snapshot = Snapshot(names: Names, file: File, durable: Option<Inode>)

  /** The calls that can fail, by what they are for. */
  datatype Call =
    | LinkCall
    | LookCall      // a lookup of the final name
    | RemoveCall    // the removal of the final name
    | PrivateCall   // a lookup or the removal of the private name
    | OtherCall

  datatype Action =
    | Interfere
    | Fault(call: Call, exc: Exc)
    | Create
    | Chmod
    | Write
    | FlushFile
    | Link
    | UnlinkDest
    | UnlinkTemp(checked: bool)   // whether it directly follows a check of what the name binds
    | FlushDirectory(acknowledged: bool)
    | Measure                  // fstat of the candidate
    | Hash(value: int)         // hashing through a descriptor
    | LookDest(worked: bool)   // lookup of the final name
  {
    predicate ChangesNames() { Create? || Link? || UnlinkDest? || UnlinkTemp? }
  }

  /** The history of a directory, latest step outermost. */
  datatype Trace = Origin(start: Snapshot) | Then(before: Trace, action: Action, after: Snapshot)

  ghost function Now(trace: Trace): Snapshot {
    if trace.Origin? then trace.start else trace.after
  }

  function Links(candidate: Inode, s: Snapshot): nat {
    (if s.names.dest == Some(candidate) then 1 else 0) +
    (if s.names.temp == Some(candidate) then 1 else 0) + s.names.hidden
  }

  ghost predicate Uncreated(candidate: Inode, s: Snapshot) {
    !s.file.created && s.names.dest != Some(candidate) && s.names.temp != Some(candidate) && s.names.hidden == 0
  }

  /** What one step may do to the state, whoever takes it. */
  ghost predicate Possible(candidate: Inode, before: Snapshot, action: Action, after: Snapshot) {
    match action
    case Interfere =>
      && after == before.(names := after.names)
      && (before.file.created || Uncreated(candidate, after))
    case Fault(_, _) => after == before
    case Create =>
      && !before.file.created && before.names.temp == None
      && after == before.(names := before.names.(temp := Some(candidate)),
                          file := File(true, [], after.file.mode, false))
    case Chmod => after == before.(file := before.file.(mode := after.file.mode))
    case Write => before.file.created
                  && after == before.(file := before.file.(content := after.file.content, flushed := false))
    case FlushFile => after == before.(file := before.file.(flushed := true))
    case Link => before.names.dest == None && before.names.temp.Some?
                 && after == before.(names := before.names.(dest := before.names.temp))
    case UnlinkDest => before.names.dest.Some? && after == before.(names := before.names.(dest := None))
    case UnlinkTemp(_) => before.names.temp.Some? && after == before.(names := before.names.(temp := None))
    case FlushDirectory(_) => after == before.(durable := before.names.dest)
    case Measure => after == before
    case Hash(_) => after == before
    case LookDest(_) => after == before
  }

  /** What the next step of a publisher must respect: the candidate is linked only
      once its whole payload is on disk, it is not written after a link, the final
      name is removed only after a lookup that found the candidate, and the private
      name, where the publisher checks it first, only while it binds the candidate. */
  ghost predicate Heeds(candidate: Inode, payload: Bytes, before: Trace, action: Action) {
    match action
    case Link => Now(before).names.temp == Some(candidate) ==>
                   Now(before).file.content == payload && Now(before).file.flushed
    case Write => !Linked(before)
    case UnlinkDest => LastLook(before) == Saw(Some(candidate))
    case UnlinkTemp(checked) => checked ==> Now(before).names.temp == Some(candidate)
    case _ => true
  }

  /** A run in which the publisher heeds all that. */
  ghost predicate Careful(candidate: Inode, payload: Bytes, trace: Trace) {
    match trace
    case Origin(start) => Uncreated(candidate, start)
    case Then(before, action, after) =>
      && Careful(candidate, payload, before)
      && Possible(candidate, Now(before), action, after)
      && Heeds(candidate, payload, before, action)
  }

  /** The final name was never removed while it named anything but the candidate. */
  ghost predicate SparesRivals(candidate: Inode, trace: Trace) {
    trace.Then? ==>
      && SparesRivals(candidate, trace.before)
      && (trace.action.UnlinkDest? ==> Now(trace.before).names.dest == Some(candidate))
  }

  /** A careful run that spares every rival. */
  ghost predicate Disciplined(candidate: Inode, payload: Bytes, trace: Trace) {
    Careful(candidate, payload, trace) && SparesRivals(candidate, trace)
  }

  ghost predicate Linked(trace: Trace) {
    trace.Then? && (trace.action.Link? || Linked(trace.before))
  }

  ghost predicate Withdrawn(trace: Trace) {
    trace.Then? && (trace.action.UnlinkDest? || Withdrawn(trace.before))
  }

  /** How many calls of each kind have failed. */
  datatype Tally = Tally(link: nat, look: nat, remove: nat, private: nat, other: nat) {
    function Plus(call: Call): Tally {
      match call
      case LinkCall => this.(link := link + 1)
      case LookCall => this.(look := look + 1)
      case RemoveCall => this.(remove := remove + 1)
      case PrivateCall => this.(private := private + 1)
      case OtherCall => this.(other := other + 1)
    }

    function Total(): nat { link + look + remove + private + other }

    predicate Within(more: Tally) {
      && link <= more.link && look <= more.look && remove <= more.remove
      && private <= more.private && other <= more.other
    }
  }

  const NO_FAULTS := Tally(0, 0, 0, 0, 0)

  ghost function Faults(trace: Trace): Tally {
    if trace.Origin? then NO_FAULTS
    else if trace.action.Fault? then Faults(trace.before).Plus(trace.action.call)
    else Faults(trace.before)
  }

  ghost predicate Faulted(trace: Trace) { Faults(trace) != NO_FAULTS }

  /** The exception of the call that failed last. */
  ghost function LastFault(trace: Trace): Option<Exc> {
    if trace.Origin? then None
    else if trace.action.Fault? then Some(trace.action.exc)
    else LastFault(trace.before)
  }

  /** The digest that was read last. */
  ghost function LastHash(trace: Trace): Option<int> {
    if trace.Origin? then None
    else if trace.action.Hash? then Some(trace.action.value)
    else LastHash(trace.before)
  }

  /** Every change the publisher made to a name has been followed by a flush of the
      directory that returned. */
  ghost predicate NamesOnDisk(trace: Trace) {
    trace.Then? ==>
      || trace.action == FlushDirectory(true)
      || (!trace.action.ChangesNames() && NamesOnDisk(trace.before))
  }

  /** Some link took effect and was followed at once by an error. */
  ghost predicate LinkFailedLate(trace: Trace) {
    trace.Then?
    && ((trace.action.Fault? && trace.before.Then? && trace.before.action.Link?) || LinkFailedLate(trace.before))
  }

  /** Some rival changed something. */
  ghost predicate Disturbed(trace: Trace) {
    trace.Then? && ((trace.action.Interfere? && trace.after != Now(trace.before)) || Disturbed(trace.before))
  }

  /** A flush of the directory returned after a link that had not been withdrawn. */
  ghost predicate Sealed(trace: Trace) {
    trace.Then? &&
    ((trace.action == FlushDirectory(true) && Linked(trace.before) && !Withdrawn(trace.before)) || Sealed(trace.before))
  }

  /** Some measurement found the whole payload behind exactly one link, after the
      directory had been flushed. */
  ghost predicate SoleLinkSeen(candidate: Inode, payload: Bytes, trace: Trace) {
    trace.Then? &&
    ((trace.action.Measure? && Sealed(trace.before) && Links(candidate, trace.after) == 1
      && trace.after.file.content == payload)
     || SoleLinkSeen(candidate, payload, trace.before))
  }

  datatype Look = NoLook | LookFailed | Saw(dest: Option<Inode>)

  /** What the most recent lookup of the final name found. */
  ghost function LastLook(trace: Trace): Look {
    if trace.Origin? then NoLook
    else if trace.action.LookDest? then (if trace.action.worked then Saw(trace.after.names.dest) else LookFailed)
    else LastLook(trace.before)
  }

  /** The final name has not moved since it was last looked up. */
  ghost predicate StillAsSeen(trace: Trace) {
    trace.Then?
    && (trace.action.LookDest? || (trace.after.names.dest == Now(trace.before).names.dest && StillAsSeen(trace.before)))
  }

  /** Whenever the final name was removed, it had not moved since it was looked up. */
  ghost predicate RemovedAsSeen(trace: Trace) {
    trace.Then? ==> RemovedAsSeen(trace.before) && (trace.action.UnlinkDest? ==> StillAsSeen(trace.before))
  }

  lemma {:induction false} LookStillHolds(trace: Trace)
    requires LastLook(trace).Saw? && StillAsSeen(trace)
    ensures Now(trace).names.dest == LastLook(trace).dest
  {
    if !trace.action.LookDest? { LookStillHolds(trace.before); }
  }

  /** A careful publisher is disciplined as long as no rival slips in between its
      lookup and its removal. */
  lemma {:induction false} CarefulIsDisciplined(candidate: Inode, payload: Bytes, trace: Trace)
    requires Careful(candidate, payload, trace) && RemovedAsSeen(trace)
    ensures Disciplined(candidate, payload, trace)
  {
    if trace.Then? {
      CarefulIsDisciplined(candidate, payload, trace.before);
      if trace.action.UnlinkDest? { LookStillHolds(trace.before); }
    }
  }

  /** `late` continues `early`: it forgets no fault and no rival, and stays
      disciplined if the publisher's steps allow it. */
  ghost predicate Continues(candidate: Inode, payload: Bytes, early: Trace, late: Trace) {
    && (SparesRivals(candidate, early) ==> SparesRivals(candidate, late))
    && CarefullyContinues(candidate, payload, early, late)
  }

  /** The same for a publisher that is merely careful. */
  ghost predicate CarefullyContinues(candidate: Inode, payload: Bytes, early: Trace, late: Trace) {
    && (Careful(candidate, payload, early) ==> Careful(candidate, payload, late))
    && (Disturbed(early) ==> Disturbed(late))
    && (Faulted(early) ==> Faulted(late))
    && (SoleLinkSeen(candidate, payload, early) ==> SoleLinkSeen(candidate, payload, late))
  }

  ghost predicate SameMarks(early: Trace, late: Trace) {
    && Linked(early) == Linked(late) && Withdrawn(early) == Withdrawn(late)
    && Sealed(early) == Sealed(late) && LastLook(early) == LastLook(late)
  }

  /** Only rivals acted in between, and only on names. */
  ghost predicate Observes(candidate: Inode, payload: Bytes, early: Trace, late: Trace) {
    SameMarks(early, late) && Watches(candidate, payload, early, late)
  }

  /** The same, with a lookup of the final name among the steps. */
  ghost predicate Watches(candidate: Inode, payload: Bytes, early: Trace, late: Trace) {
    && Continues(candidate, payload, early, late)
    && Linked(early) == Linked(late) && Withdrawn(early) == Withdrawn(late) && Sealed(early) == Sealed(late)
    && Now(late).file == Now(early).file && Now(late).durable == Now(early).durable
    && (!Disturbed(late) ==> Now(late).names == Now(early).names)
    && (NamesOnDisk(early) ==> NamesOnDisk(late))
  }

  // ---------- what every disciplined run keeps ----------

  /** No rival ever made the final name a link to the candidate. */
  ghost predicate RivalsKeepOff(candidate: Inode, trace: Trace) {
    trace.Then? ==>
      && RivalsKeepOff(candidate, trace.before)
      && (trace.action.Interfere? && trace.after.names.dest == Some(candidate) ==>
            Now(trace.before).names.dest == Some(candidate))
  }

  /** At every instant the final name is free, a rival's, or a whole payload on disk. */
  ghost predicate NeverPartial(candidate: Inode, payload: Bytes, trace: Trace) {
    && (Now(trace).names.dest == Some(candidate) ==> Now(trace).file.content == payload && Now(trace).file.flushed)
    && (trace.Then? ==> NeverPartial(candidate, payload, trace.before))
  }

  /** Every step that is not a rival's leaves the final name, binds it while it was
      free, or frees it while it named the candidate. */
  ghost predicate NeverRebinds(candidate: Inode, trace: Trace) {
    trace.Then? ==>
      && NeverRebinds(candidate, trace.before)
      && (!trace.action.Interfere? ==>
            || trace.after.names.dest == Now(trace.before).names.dest
            || Now(trace.before).names.dest == None
            || (Now(trace.before).names.dest == Some(candidate) && trace.after.names.dest == None))
  }

  /** `late` continues `early` and no rival moved the final name in between. */
  ghost predicate Unmoved(early: Trace, late: Trace) {
    early == late ||
    (late.Then? && Unmoved(early, late.before)
     && (late.action.Interfere? ==> late.after.names.dest == Now(late.before).names.dest))
  }

  ghost predicate LinkedCandidate(candidate: Inode, trace: Trace) {
    trace.Then?
    && ((trace.action.Link? && Now(trace.before).names.temp == Some(candidate))
         || LinkedCandidate(candidate, trace.before))
  }

  lemma {:induction false} LinkedIsWhole(candidate: Inode, payload: Bytes, trace: Trace)
    requires Careful(candidate, payload, trace) && LinkedCandidate(candidate, trace)
    ensures Linked(trace) && Now(trace).file.content == payload && Now(trace).file.flushed && Now(trace).file.created
  {
    if trace.action.Link? && Now(trace.before).names.temp == Some(candidate) {
      CandidateExists(candidate, payload, trace.before);
    } else {
      LinkedIsWhole(candidate, payload, trace.before);
    }
  }

  /** Nothing names an inode before it exists. */
  lemma {:induction false} CandidateExists(candidate: Inode, payload: Bytes, trace: Trace)
    requires Careful(candidate, payload, trace)
    ensures Now(trace).file.created || Uncreated(candidate, Now(trace))
  {
    if trace.Then? { CandidateExists(candidate, payload, trace.before); }
  }

  /** Safety of every run: unless a rival itself links the private file early, no
      instant shows a partial payload under the final name. */
  lemma {:induction false} DisciplineKeepsWhole(candidate: Inode, payload: Bytes, trace: Trace)
    requires Careful(candidate, payload, trace) && RivalsKeepOff(candidate, trace)
    ensures NeverPartial(candidate, payload, trace)
    ensures Now(trace).names.dest == Some(candidate) ==> LinkedCandidate(candidate, trace)
  {
    if trace.Then? {
      DisciplineKeepsWhole(candidate, payload, trace.before);
    }
    if Now(trace).names.dest == Some(candidate) {
      LinkedIsWhole(candidate, payload, trace);
    }
  }

  lemma {:induction false} DisciplineNeverRebinds(candidate: Inode, payload: Bytes, trace: Trace)
    requires Disciplined(candidate, payload, trace)
    ensures NeverRebinds(candidate, trace)
  {
    if trace.Then? { DisciplineNeverRebinds(candidate, payload, trace.before); }
  }

  /** A rival's binding of the final name outlives everything the publisher does. */
  lemma {:induction false} RivalSurvives(candidate: Inode, payload: Bytes, early: Trace, late: Trace)
    requires Disciplined(candidate, payload, late) && Unmoved(early, late)
    requires Now(early).names.dest.Some? && Now(early).names.dest != Some(candidate)
    ensures Now(late).names.dest == Now(early).names.dest
  {
    if early != late { RivalSurvives(candidate, payload, early, late.before); }
  }
}
