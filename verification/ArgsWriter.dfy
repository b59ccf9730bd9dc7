/**
 * The writer of the canonical args.gn: it builds a private candidate, publishes
 * it by a no-replace hard link, flushes the directory, drops the private name,
 * verifies what it published and classifies every way to fail.
 */
module ArgsWriter {
  import opened Wrappers
  import opened DirectoryTraces
  import opened FaultyDirectory

  const PRIVATE_MODE: nat := 0x180   // 0o600

  datatype Plan = Plan(payload: Bytes, bytes: nat, sha256: int)

  /** The failed calls that it takes, in a run without rivals, to leave an uncommitted link
      or a retained error behind. */
  ghost predicate Excused(faults: Tally, public: bool, retained: bool, fits: bool) {
    && (public ==> faults.link > 0 || (faults.Total() >= 2 && (faults.look > 0 || faults.remove > 0)))
    && (retained ==> faults.link > 0 || faults.Total() >= if fits then 2 else 1)
  }

  /** An error that becomes a retained one does so because the link is public, or because
      of one failed call more. */
  lemma StaysExcused(before: Tally, after: Tally, public: bool, wasRetained: bool, retained: bool, fits: bool)
    requires Excused(before, public, wasRetained, fits) && before.Within(after)
    requires retained ==> wasRetained || public || (after.Total() > before.Total() && (fits ==> before != NO_FAULTS))
    ensures Excused(after, public, retained, fits)
  {
  }

  class Writer {
    const dir: Directory
    const plan: Plan
    var descriptor: bool
    var directory: bool
    var temporary: bool
    var temporaryIdentity: Option<Inode>
    var linkedIdentity: Option<Inode>
    var destinationLinked: bool
    var committed: bool
    var retainTemporary: bool
    var finalizationErrors: nat
    ghost var misled: bool   // a removal of the private name was answered as if it were not there

    ghost predicate Consistent()
      reads this, dir
    {
      && dir.Valid()
      && dir.payload == plan.payload
      && Disciplined(dir.candidate, dir.payload, dir.trace)
      && committed == Sealed(dir.trace)
      && (temporary ==> dir.now.file.created)
      && (directory ==> temporaryIdentity.Some?)
      && (Linked(dir.trace) ==> directory)
      && (temporaryIdentity.Some? ==>
            && temporaryIdentity == Some(dir.candidate)
            && dir.now.file.created && dir.now.file.content == plan.payload && dir.now.file.flushed
            && PlanFits())
      && (committed ==> linkedIdentity == Some(dir.candidate) && directory && !Withdrawn(dir.trace))
    }

    /** Names as the writer alone has left them, as long as no rival acted. */
    ghost predicate OwnNames()
      reads this, dir
    {
      !Disturbed(dir.trace) ==>
        && dir.now.names.hidden == 0
        && (dir.now.names.dest == None || dir.now.names.dest == Some(dir.candidate))
        && (!Linked(dir.trace) ==> dir.now.names.dest == None)
        && (linkedIdentity.Some? ==> linkedIdentity == Some(dir.candidate))
    }

    constructor (dir: Directory, plan: Plan)
      requires dir.Valid() && dir.payload == plan.payload && dir.trace.Origin? && !dir.now.file.created
      ensures this.dir == dir && this.plan == plan
      ensures Consistent() && !committed && !temporary && !directory && !retainTemporary && !destinationLinked
      ensures temporaryIdentity == None && linkedIdentity == None
      ensures !descriptor && finalizationErrors == 0 && !misled
    {
      this.dir, this.plan := dir, plan;
      descriptor, directory, temporary := false, false, false;
      temporaryIdentity, linkedIdentity := None, None;
      destinationLinked, committed, retainTemporary := false, false, false;
      finalizationErrors, misled := 0, false;
    }

    /** The parent chain is sound and the final name is free. */
    method RequireSafeChain() returns (r: Option<Exc>)
      requires dir.Valid()
      modifies dir
      ensures dir.Valid() && Watches(dir.candidate, dir.payload, old(dir.trace), dir.trace)
      ensures r.Some? ==> r.value.IsPlain()
      ensures r == None ==> Faults(dir.trace) == old(Faults(dir.trace))
      ensures r == None ==> LastLook(dir.trace) == Saw(None) && dir.now.names.dest == None
      ensures r.Some? && Faults(dir.trace) == old(Faults(dir.trace)) ==>
                r == Some(CheckFailed) && dir.now.names.dest.Some?
    {
      var parents := dir.Elsewhere();
      if parents.Raise? { return Some(CheckFailed); }
      var found := dir.StatDest();
      match found {
        case Ok(_) => return Some(CheckFailed);
        case Raise(exc) => return if exc.NotFound? then None else Some(exc);
      }
    }

    /** No rival, no fault, a free name and a plan whose size and digest are those
        of its payload: the conditions under which nothing may go wrong. */
    ghost predicate Undisturbed()
      reads dir
    {
      !Disturbed(dir.trace) && !Faulted(dir.trace)
    }

    /** No rival has acted, and no call has failed since there were `before` failures. */
    ghost predicate Calmly(before: Tally)
      reads dir
    {
      !Disturbed(dir.trace) && Faults(dir.trace) == before
    }

    ghost predicate PlanFits() {
      plan.bytes == |plan.payload| && plan.sha256 == dir.digest(plan.payload)
    }

    /** mkstemp until the candidate is verified. */
    method CreateCandidate() returns (r: Option<Exc>)
      requires Consistent() && OwnNames() && !committed && !directory && !temporary && !dir.now.file.created
      requires !Linked(dir.trace) && temporaryIdentity == None && !descriptor
      modifies dir, this`descriptor, this`temporary, this`temporaryIdentity
      ensures descriptor == temporary
      ensures Continues(dir.candidate, dir.payload, old(dir.trace), dir.trace)
      ensures Consistent() && OwnNames()
      ensures !Linked(dir.trace) && Withdrawn(dir.trace) == old(Withdrawn(dir.trace))
      ensures r.Some? ==> r.value.IsPlain() && temporaryIdentity == None
      ensures !Disturbed(dir.trace) ==> dir.now.names.dest == old(dir.now.names.dest)
      ensures r == None ==> temporary && temporaryIdentity == Some(dir.candidate) && dir.now.file.mode == PRIVATE_MODE
      ensures r == None && !Disturbed(dir.trace) ==> dir.now.names.temp == Some(dir.candidate)
      ensures r == None ==> Faults(dir.trace) == old(Faults(dir.trace))
      ensures Calmly(old(Faults(dir.trace))) && r.Some? ==>
                if old(dir.now.names.temp) == None then !PlanFits() else !descriptor
    {
      var mode: nat := *;
      var made := dir.CreateTemp(mode);
      if made.Raise? { return Some(made.exc); }
      descriptor, temporary := true, true;
      r := FillCandidate();
    }

    /** From the new private file to the verified one. */
    method FillCandidate() returns (r: Option<Exc>)
      requires Consistent() && OwnNames() && !committed && !directory && !Linked(dir.trace) && temporaryIdentity == None
      requires dir.now.file.created && dir.now.file.content == []
      requires !Disturbed(dir.trace) ==> dir.now.names.temp == Some(dir.candidate) && dir.now.names.dest == None
      modifies dir, this`temporaryIdentity
      ensures Continues(dir.candidate, dir.payload, old(dir.trace), dir.trace)
      ensures Consistent() && OwnNames() && SameMarks(old(dir.trace), dir.trace)
      ensures r.Some? ==> r.value.IsPlain() && temporaryIdentity == None
      ensures !Disturbed(dir.trace) ==> dir.now.names == old(dir.now.names)
      ensures r == None ==> temporaryIdentity == Some(dir.candidate) && dir.now.file.mode == PRIVATE_MODE
      ensures r == None ==> Faults(dir.trace) == old(Faults(dir.trace))
      ensures Calmly(old(Faults(dir.trace))) && r.Some? ==> !PlanFits()
    {
      var restricted := dir.Chmod(PRIVATE_MODE);
      if restricted.Raise? { return Some(restricted.exc); }
      r := dir.WriteAll(plan.payload, if plan.payload == [] then 1 else |plan.payload|);
      if r.Some? { return; }
      var flushed := dir.FlushFile();
      if flushed.Raise? { return Some(flushed.exc); }
      r := VerifyCandidate();
    }

    /** Check mode, link count, size and digest through the descriptor. */
    method VerifyCandidate() returns (r: Option<Exc>)
      requires Consistent() && OwnNames() && temporaryIdentity == None && !Linked(dir.trace)
      requires dir.now.file.created && dir.now.file.content == plan.payload && dir.now.file.flushed
      modifies dir, this`temporaryIdentity
      ensures Consistent() && OwnNames() && Observes(dir.candidate, dir.payload, old(dir.trace), dir.trace)
      ensures r.Some? ==> r.value.IsPlain() && temporaryIdentity == None
      ensures r == None ==> temporaryIdentity == Some(dir.candidate) && dir.now.file.mode == PRIVATE_MODE
      ensures r == None ==> Faults(dir.trace) == old(Faults(dir.trace))
      ensures Calmly(old(Faults(dir.trace))) && r.Some? ==>
                dir.now.file.mode != PRIVATE_MODE || Links(dir.candidate, dir.now) != 1 || !PlanFits()
    {
      var inode;
      r, inode := MeasureCandidate();
      if r.Some? { return; }
      var digest := dir.DigestPinned(dir.candidate);
      if digest.Raise? { return Some(digest.exc); }
      if digest.value != plan.sha256 { return Some(CheckFailed); }
      temporaryIdentity := Some(inode);
      return None;
    }

    /** The measurement of the candidate: private, a single link, the size of the plan. */
    method MeasureCandidate() returns (r: Option<Exc>, inode: Inode)
      requires Consistent() && dir.now.file.created && dir.now.file.content == plan.payload
      modifies dir
      ensures dir.Valid() && Observes(dir.candidate, dir.payload, old(dir.trace), dir.trace)
      ensures r.Some? ==> r.value.IsPlain()
      ensures r == None ==> inode == dir.candidate && Faults(dir.trace) == old(Faults(dir.trace))
      ensures r == None || Faults(dir.trace) == old(Faults(dir.trace)) ==>
                (r == None <==> dir.now.file.mode == PRIVATE_MODE && Links(dir.candidate, dir.now) == 1
                                && plan.bytes == |plan.payload|)
    {
      var observed := dir.StatPinned(dir.candidate);
      if observed.Raise? { return Some(observed.exc), 0; }
      if observed.value.mode != PRIVATE_MODE || observed.value.nlink != 1 || observed.value.size != plan.bytes {
        return Some(CheckFailed), 0;
      }
      return None, observed.value.inode;
    }

    /** Reopen the parent and compare it and the private name with what was built. */
    method OpenDirectory() returns (r: Option<Exc>)
      requires Consistent() && OwnNames() && !committed && !directory && temporaryIdentity.Some? && !Linked(dir.trace)
      requires !Disturbed(dir.trace) ==> dir.now.names.temp == Some(dir.candidate)
      modifies dir, this`directory
      ensures Continues(dir.candidate, dir.payload, old(dir.trace), dir.trace)
      ensures Consistent() && OwnNames()
      ensures !Linked(dir.trace) && Withdrawn(dir.trace) == old(Withdrawn(dir.trace))
      ensures r.Some? ==> r.value.IsPlain()
      ensures !Disturbed(dir.trace) ==> dir.now.names.temp == Some(dir.candidate)
      ensures dir.now.file.mode == old(dir.now.file.mode)
      ensures r == None ==> directory && dir.now.names.temp == Some(dir.candidate) && Links(dir.candidate, dir.now) == 1
      ensures r == None ==> Faults(dir.trace) == old(Faults(dir.trace))
      ensures Calmly(old(Faults(dir.trace))) ==> r == None
    {
      r := RequireSafeChain();
      if r.Some? { return; }
      var reached := dir.Elsewhere();
      if reached.Raise? { return Some(reached.exc); }
      directory := true;
      var parent := dir.Elsewhere();
      if parent.Raise? { return Some(CheckFailed); }
      var named := dir.StatTemp();
      if named.Raise? { return Some(named.exc); }
      if Some(named.value.inode) != temporaryIdentity || named.value.nlink != 1 { return Some(CheckFailed); }
      return None;
    }

    /** The link itself, and what to make of a link that raised. */
    method Publish() returns (r: Option<Exc>)
      requires Consistent() && OwnNames() && !committed && directory && temporary && !Linked(dir.trace)
      requires !Withdrawn(dir.trace)
      requires !retainTemporary && !destinationLinked
      requires !Disturbed(dir.trace) ==> dir.now.names.temp == Some(dir.candidate)
      modifies dir, this`destinationLinked, this`linkedIdentity, this`retainTemporary
      ensures Continues(dir.candidate, dir.payload, old(dir.trace), dir.trace)
      ensures Consistent() && OwnNames() && !Withdrawn(dir.trace)
      ensures !Disturbed(dir.trace) ==> dir.now.names.temp == Some(dir.candidate)
      ensures dir.now.file.mode == old(dir.now.file.mode)
      ensures r == None ==> Linked(dir.trace) && destinationLinked && !retainTemporary
      ensures r == None && !Disturbed(dir.trace) ==> dir.now.names.dest == Some(dir.candidate)
      ensures r.Some? ==> !r.value.Committed? && retainTemporary == r.value.Retained? && !r.value.Exists?
      ensures r.Some? && r.value.Retained? && !Disturbed(dir.trace) ==> Told(r.value)
      ensures r.Some? && r.value.IsPlain() ==> !destinationLinked
      ensures r.Some? && r.value.IsPlain() ==> GivenUpDurably()
      ensures retainTemporary ==> Unsettled()
      ensures r == None ==> Faults(dir.trace) == old(Faults(dir.trace))
      ensures r.Some? && !Disturbed(dir.trace) ==> Faults(dir.trace).Total() > old(Faults(dir.trace).Total())
      ensures r.Some? && !Disturbed(dir.trace) ==> Faults(dir.trace).link > 0
    {
      var linked := dir.LinkTemp();
      if linked.Ok? {
        destinationLinked := true;
        return None;
      }
      if linked.exc.Exists? { return Some(CheckFailed); }
      var exc := ClassifyLink(linked.exc);
      r := Some(exc);
    }

    /** What to make of a link that raised anything but that the name exists. */
    method ClassifyLink(raised: Exc) returns (r: Exc)
      requires Consistent() && OwnNames() && !committed && directory && temporary && temporaryIdentity.Some?
      requires !retainTemporary && !destinationLinked && raised.IsPlain() && !raised.Exists?
      requires !Disturbed(dir.trace) ==> dir.now.names.temp == Some(dir.candidate)
      requires !Disturbed(dir.trace) && Linked(dir.trace) ==> dir.now.names.dest == Some(dir.candidate)
      modifies dir, this`destinationLinked, this`linkedIdentity, this`retainTemporary
      ensures Consistent() && OwnNames() && Watches(dir.candidate, dir.payload, old(dir.trace), dir.trace)
      ensures retainTemporary == r.Retained? && (r.Retained? || (r.IsPlain() && !r.Exists? && !destinationLinked))
      ensures retainTemporary ==> Unsettled()
      ensures r.Retained? <==> LastLook(dir.trace).LookFailed? || LastLook(dir.trace) == Saw(temporaryIdentity)
      ensures r.Retained? ==> r.identity == temporaryIdentity && r.kept
                              && r.present == if LastLook(dir.trace).LookFailed? then None else Some(true)
      ensures r == raised || r.NotFound? || r.Retained?
      ensures r.Retained? && !Disturbed(dir.trace) ==> Told(r)
      ensures Faults(dir.trace).link == old(Faults(dir.trace).link)
      ensures Faults(dir.trace).Total() >= old(Faults(dir.trace).Total())
    {
      var current := dir.StatDest();
      if current.Raise? {
        if current.exc.NotFound? { return current.exc; }
        retainTemporary := true;
        return Exc.Retained(temporaryIdentity, temporary, None);
      }
      if Some(current.value.inode) == temporaryIdentity {
        destinationLinked, linkedIdentity, retainTemporary := true, temporaryIdentity, true;
        return Exc.Retained(linkedIdentity, temporary, Some(true));
      }
      return raised;
    }

    /** Why the private name is kept: a link was made, or the final name could not be looked
        up, or the candidate was seen behind it. */
    ghost predicate Unsettled()
      reads dir
    {
      || Linked(dir.trace)
      || LastLook(dir.trace).LookFailed?
      || LastLook(dir.trace) == Saw(Some(dir.candidate))
    }

    /** In a run without rivals a link that was made and is gone is gone on disk too. */
    ghost predicate GivenUpDurably()
      reads dir
    {
      !Disturbed(dir.trace) && Linked(dir.trace) && dir.now.names.dest == None ==> dir.now.durable == None
    }

    /** What a retained error says about the file and the two names is so, and it leaves
        nothing open that a lookup had answered. */
    ghost predicate Told(exc: Exc)
      reads this, dir
    {
      exc.Retained? ==>
        && (temporaryIdentity.Some? ==> exc.identity == temporaryIdentity)
        && (exc.kept ==> dir.now.names.temp == Some(dir.candidate))
        && (!exc.kept && dir.now.names.temp == Some(dir.candidate) ==> Faults(dir.trace).private > 0)
        && (exc.present == Some(true) ==> dir.now.names.dest == Some(dir.candidate))
        && (exc.present == Some(false) && !LastLook(dir.trace).LookFailed? ==>
              dir.now.names.dest != Some(dir.candidate))
        && (exc.present == None ==> LastLook(dir.trace).LookFailed?)
    }

    /** Check the new link from all sides and make it durable: the commit. */
    method Confirm() returns (r: Option<Exc>)
      requires Consistent() && OwnNames() && !committed && Linked(dir.trace) && !Withdrawn(dir.trace)
      requires !Disturbed(dir.trace) ==>
                 dir.now.names.temp == Some(dir.candidate) && dir.now.names.dest == Some(dir.candidate)
      modifies dir, this`linkedIdentity, this`committed
      ensures Continues(dir.candidate, dir.payload, old(dir.trace), dir.trace)
      ensures Consistent() && OwnNames() && !Withdrawn(dir.trace) && Linked(dir.trace)
      ensures !Disturbed(dir.trace) ==>
                dir.now.names.temp == Some(dir.candidate) && dir.now.names.dest == Some(dir.candidate)
      ensures dir.now.file.mode == old(dir.now.file.mode)
      ensures r == None <==> committed
      ensures r.Some? ==> r.value.IsPlain()
      ensures committed && !Disturbed(dir.trace) ==> dir.now.durable == Some(dir.candidate)
      ensures r == None ==> Faults(dir.trace) == old(Faults(dir.trace))
      ensures r.Some? && !Disturbed(dir.trace) ==> Faults(dir.trace).Total() > old(Faults(dir.trace).Total())
    {
      r := CheckLink();
      if r.Some? { return; }
      var flushed := dir.FlushDirectory();
      if flushed.Raise? { return Some(flushed.exc); }
      committed := true;
    }

    /** The checks before the commit: both names and the descriptor lead to the candidate,
        which has two links and the digest of the plan. */
    method CheckLink() returns (r: Option<Exc>)
      requires Consistent() && OwnNames() && !committed && Linked(dir.trace) && !Withdrawn(dir.trace)
      requires !Disturbed(dir.trace) ==>
                 dir.now.names.temp == Some(dir.candidate) && dir.now.names.dest == Some(dir.candidate)
      modifies dir, this`linkedIdentity
      ensures Consistent() && OwnNames() && Watches(dir.candidate, dir.payload, old(dir.trace), dir.trace)
      ensures r.Some? ==> r.value.IsPlain()
      ensures r == None ==> linkedIdentity == Some(dir.candidate)
      ensures r == None ==> Faults(dir.trace) == old(Faults(dir.trace))
      ensures r.Some? && !Disturbed(dir.trace) ==> Faults(dir.trace).Total() > old(Faults(dir.trace).Total())
    {
      r := CheckNames();
      if r.Some? { return; }
      var digest := dir.DigestPinned(dir.candidate);
      if digest.Raise? { return Some(digest.exc); }
      if digest.value != plan.sha256 { return Some(CheckFailed); }
      return None;
    }

    /** The measurements of both names and the descriptor; the last of them shows the
        candidate behind the private name and one more link. */
    method CheckNames() returns (r: Option<Exc>)
      requires Consistent() && OwnNames() && !committed && Linked(dir.trace) && !Withdrawn(dir.trace)
      requires !Disturbed(dir.trace) ==>
                 dir.now.names.temp == Some(dir.candidate) && dir.now.names.dest == Some(dir.candidate)
      modifies dir, this`linkedIdentity
      ensures Consistent() && OwnNames() && Watches(dir.candidate, dir.payload, old(dir.trace), dir.trace)
      ensures r.Some? ==> r.value.IsPlain()
      ensures r == None ==> linkedIdentity == Some(dir.candidate) && LastLook(dir.trace) == Saw(Some(dir.candidate))
      ensures r == None ==> dir.now.names.temp == Some(dir.candidate) && Links(dir.candidate, dir.now) == 2
      ensures r == None ==> Faults(dir.trace) == old(Faults(dir.trace))
      ensures r.Some? && !Disturbed(dir.trace) ==> Faults(dir.trace).Total() > old(Faults(dir.trace).Total())
    {
      var linked := dir.StatDest();
      if linked.Raise? { return Some(linked.exc); }
      linkedIdentity := Some(linked.value.inode);
      r := CompareWith(linked.value);
    }

    /** The other two measurements, and the comparison of all three. */
    method CompareWith(linked: Stat) returns (r: Option<Exc>)
      requires dir.Valid() && temporaryIdentity == Some(dir.candidate)
      modifies dir
      ensures dir.Valid() && Observes(dir.candidate, dir.payload, old(dir.trace), dir.trace)
      ensures r.Some? ==> r.value.IsPlain()
      ensures r == None ==> linked.inode == dir.candidate && linked.nlink == 2
      ensures r == None ==> dir.now.names.temp == Some(dir.candidate) && Links(dir.candidate, dir.now) == 2
      ensures r == None ==> Faults(dir.trace) == old(Faults(dir.trace))
      ensures old(Faults(dir.trace)).Total() <= Faults(dir.trace).Total()
      ensures r.Some? && !Disturbed(dir.trace) && dir.now.names.temp == Some(dir.candidate)
              && Links(dir.candidate, dir.now) == 2 && linked.inode == dir.candidate && linked.nlink == 2
              ==> Faults(dir.trace).Total() > old(Faults(dir.trace).Total())
    {
      var pinned := dir.StatPinned(dir.candidate);
      if pinned.Raise? { return Some(pinned.exc); }
      var named := dir.StatTemp();
      if named.Raise? { return Some(named.exc); }
      if Some(linked.inode) != temporaryIdentity || Some(named.value.inode) != temporaryIdentity
         || pinned.value.nlink != 2 || linked.nlink != 2 || named.value.nlink != 2 {
        return Some(CheckFailed);
      }
      return None;
    }

    /** After the commit: drop the private name, flush, and verify what is public
        through a fresh descriptor. */
    method VerifyPublished() returns (r: Option<Exc>)
      requires Consistent() && OwnNames() && committed && temporary
      requires !Disturbed(dir.trace) ==> AllOurs()
      requires !Disturbed(dir.trace) ==> dir.now.names.temp == Some(dir.candidate)
      modifies dir, this`temporary
      ensures Continues(dir.candidate, dir.payload, old(dir.trace), dir.trace)
      ensures Consistent() && OwnNames()
      ensures !Disturbed(dir.trace) ==> AllOurs()
      ensures dir.now.file.mode == old(dir.now.file.mode)
      ensures r.Some? ==> r.value.IsPlain()
      ensures r == None ==> Proved() && !temporary && NamesOnDisk(dir.trace)
      ensures r == None && !Disturbed(dir.trace) ==> dir.now.names.temp == None
      ensures r == None ==> Faults(dir.trace) == old(Faults(dir.trace))
      ensures Undisturbed() && PlanFits() && dir.now.file.mode == PRIVATE_MODE ==> r == None
    {
      r := RequireTwoLinks();
      if r.Some? { return; }
      var dropped := dir.UnlinkTemp(false);
      if dropped.Raise? { return Some(dropped.exc); }
      temporary := false;
      var flushed := dir.FlushDirectory();
      if flushed.Raise? { return Some(flushed.exc); }
      r := Reopen();
    }

    /** Open the final name afresh, inspect what it leads to, close it. */
    method Reopen() returns (r: Option<Exc>)
      requires Consistent() && OwnNames() && committed
      modifies dir
      ensures Consistent() && OwnNames() && Watches(dir.candidate, dir.payload, old(dir.trace), dir.trace)
      ensures r.Some? ==> r.value.IsPlain()
      ensures r == None ==> Proved() && dir.now.file.mode == PRIVATE_MODE && PlanFits()
      ensures r == None ==> Faults(dir.trace) == old(Faults(dir.trace))
      ensures Undisturbed() && PlanFits() && dir.now.file.mode == PRIVATE_MODE ==>
                Links(dir.candidate, dir.now) == 1 && dir.now.names.dest == Some(dir.candidate) ==> r == None
    {
      var pinned := dir.OpenDest();
      if pinned.Raise? { return Some(pinned.exc); }
      r := InspectFinal(pinned.value);
      var closed := dir.Elsewhere();
      if closed.Raise? { r := Some(closed.exc); }
    }

    /** Before the private name goes: the candidate has two links. */
    method RequireTwoLinks() returns (r: Option<Exc>)
      requires dir.Valid()
      modifies dir
      ensures dir.Valid() && Observes(dir.candidate, dir.payload, old(dir.trace), dir.trace)
      ensures r.Some? ==> r.value.IsPlain()
      ensures r == None ==> Links(dir.candidate, dir.now) == 2 && Faults(dir.trace) == old(Faults(dir.trace))
      ensures r.Some? && Faults(dir.trace) == old(Faults(dir.trace)) ==> Links(dir.candidate, dir.now) != 2
    {
      var before := dir.StatPinned(dir.candidate);
      if before.Raise? { return Some(before.exc); }
      if before.value.nlink != 2 { return Some(CheckFailed); }
      return None;
    }

    /** The checks on the reopened final name. */
    method InspectFinal(inode: Inode) returns (r: Option<Exc>)
      requires Consistent() && OwnNames() && committed
      modifies dir
      ensures Continues(dir.candidate, dir.payload, old(dir.trace), dir.trace)
      ensures Consistent() && OwnNames()
      ensures Watches(dir.candidate, dir.payload, old(dir.trace), dir.trace)
      ensures r.Some? ==> r.value.IsPlain()
      ensures r == None ==> Proved() && dir.now.file.mode == PRIVATE_MODE && inode == dir.candidate && PlanFits()
      ensures r == None ==> Faults(dir.trace) == old(Faults(dir.trace))
      ensures old(NamesOnDisk(dir.trace)) ==> NamesOnDisk(dir.trace)
      ensures Undisturbed() && PlanFits() && dir.now.file.mode == PRIVATE_MODE && inode == dir.candidate ==>
                Links(dir.candidate, dir.now) == 1 && dir.now.names.dest == Some(dir.candidate) ==> r == None
    {
      var final := dir.StatPinned(inode);
      if final.Raise? { return Some(final.exc); }
      var named := dir.StatDest();
      if named.Raise? { return Some(named.exc); }
      if Some(final.value.inode) != linkedIdentity || Some(named.value.inode) != linkedIdentity
         || final.value.mode != PRIVATE_MODE || final.value.nlink != 1 || final.value.size != plan.bytes {
        return Some(CheckFailed);
      }
      var digest := dir.DigestPinned(inode);
      if digest.Raise? { return Some(digest.exc); }
      if digest.value != plan.sha256 { return Some(CheckFailed); }
      return None;
    }

    /** The evidence behind a normal return: after the commit the candidate was
        measured with one link and the whole payload, and the last lookup of the
        final name found it. */
    ghost predicate Proved()
      reads dir
    {
      && SoleLinkSeen(dir.candidate, dir.payload, dir.trace)
      && LastLook(dir.trace) == Saw(Some(dir.candidate))
    }

    ghost predicate AllOurs()
      reads dir
    {
      dir.now.names.dest == Some(dir.candidate) && dir.now.durable == Some(dir.candidate)
    }

    /** Everything after the commit, with its failures wrapped. */
    method Settle() returns (r: Option<Exc>)
      requires Consistent() && OwnNames() && committed && temporary
      requires !Disturbed(dir.trace) ==> AllOurs()
      requires !Disturbed(dir.trace) ==> dir.now.names.temp == Some(dir.candidate)
      modifies dir, this`temporary
      ensures Continues(dir.candidate, dir.payload, old(dir.trace), dir.trace)
      ensures Consistent() && OwnNames()
      ensures !Disturbed(dir.trace) ==> AllOurs()
      ensures dir.now.file.mode == old(dir.now.file.mode)
      ensures r.Some? ==> !r.value.Retained? && (r.value.Committed? ==> r.value.identity == Some(dir.candidate))
      ensures r == None ==> Proved() && !temporary && NamesOnDisk(dir.trace)
      ensures r == None && !Disturbed(dir.trace) ==> dir.now.names.temp == None
      ensures Undisturbed() && PlanFits() && dir.now.file.mode == PRIVATE_MODE ==> r == None
    {
      r := VerifyPublished();
      if r.Some? {
        var report := ReportUnsettled();
        r := Some(report);
      }
    }

    /** Something failed after the commit: what is left of the private name. */
    method ReportUnsettled() returns (exit: Exc)
      requires Consistent() && OwnNames() && committed
      modifies dir
      ensures Consistent() && Observes(dir.candidate, dir.payload, old(dir.trace), dir.trace) && OwnNames()
      ensures exit == Interrupt || (exit.Committed? && exit.identity == linkedIdentity)
      ensures exit == Interrupt <==>
                Faults(dir.trace) != old(Faults(dir.trace)) && LastFault(dir.trace) == Some(Interrupt)
      ensures exit.Committed? && exit.kept ==> temporary && dir.now.names.temp == temporaryIdentity
      ensures Faults(dir.trace) == old(Faults(dir.trace)) ==>
                exit.Committed? && exit.kept == (temporary && dir.now.names.temp == temporaryIdentity)
    {
      var kept := false;
      if temporary {
        var observed := dir.StatTemp();
        if observed.Raise? {
          if !observed.exc.IsOsError() { return observed.exc; }
        } else {
          kept := Some(observed.value.inode) == temporaryIdentity;
        }
      }
      return Exc.Committed(linkedIdentity, kept);
    }

    /** Withdraw a link that was not committed, but only while it is the candidate. Without
        rivals it succeeds unless a call fails, and the link stays only if a lookup or the
        removal did. */
    method Rollback(original: Exc) returns (r: Exc)
      requires Consistent() && OwnNames() && !committed && destinationLinked && temporary && !retainTemporary
      requires directory && original.IsPlain() && Linked(dir.trace) && !Withdrawn(dir.trace)
      requires !Disturbed(dir.trace) ==>
                 dir.now.names.temp == Some(dir.candidate) && dir.now.names.dest == Some(dir.candidate)
      modifies dir, this`destinationLinked, this`retainTemporary
      ensures Continues(dir.candidate, dir.payload, old(dir.trace), dir.trace)
      ensures Consistent() && OwnNames()
      ensures !Disturbed(dir.trace) ==> dir.now.names.temp == Some(dir.candidate)
      ensures r == original || r.Retained?
      ensures retainTemporary == r.Retained?
      ensures r.IsPlain() ==> !destinationLinked && NamesOnDisk(dir.trace)
      ensures r.IsPlain() && !Disturbed(dir.trace) ==> dir.now.durable == None && dir.now.names.dest == None
      ensures Linked(dir.trace)
      ensures r.Retained? && !Disturbed(dir.trace) ==> Told(r)
      ensures r.Retained? ==> r.identity == temporaryIdentity && r.kept && Answers(r.present)
      ensures Calmly(old(Faults(dir.trace))) ==> r == original
      ensures StaysOnlyIf(old(Faults(dir.trace)))
      ensures r.Retained? && !Disturbed(dir.trace) ==> Faults(dir.trace).Total() > old(Faults(dir.trace).Total())
      ensures Faults(dir.trace).Total() >= old(Faults(dir.trace).Total())
    {
      var current := dir.StatDest();
      if current.Raise? {
        retainTemporary := true;
        return Exc.Retained(temporaryIdentity, temporary, if current.exc.NotFound? then Some(false) else None);
      }
      if Some(current.value.inode) != temporaryIdentity {
        retainTemporary := true;
        return Exc.Retained(temporaryIdentity, temporary, Some(true));
      }
      r := Withdraw(original);
    }

    /** In a run without rivals the link is still there only if a lookup or the removal of
        the final name has failed since there were `before` failures. */
    ghost predicate StaysOnlyIf(before: Tally)
      reads dir
    {
      !Disturbed(dir.trace) && dir.now.names.dest == Some(dir.candidate) ==>
        Faults(dir.trace).look > before.look || Faults(dir.trace).remove > before.remove
    }

    /** Whether the final name is bound, as far as the last lookup tells: unknown exactly
        if that lookup failed. A link that was withdrawn after it is not there. */
    ghost predicate Answers(present: Option<bool>)
      reads this, dir
    {
      && (present == None <==> LastLook(dir.trace).LookFailed?)
      && (present == Some(true) ==> LastLook(dir.trace).Saw? && LastLook(dir.trace).dest.Some?)
      && (present == Some(false) && destinationLinked ==> LastLook(dir.trace) != Saw(Some(dir.candidate)))
    }

    /** Remove the link that was just looked up, and make that durable. */
    method Withdraw(original: Exc) returns (r: Exc)
      requires Consistent() && OwnNames() && !committed && destinationLinked && temporary && !retainTemporary
      requires directory && original.IsPlain() && Linked(dir.trace) && !Withdrawn(dir.trace)
      requires LastLook(dir.trace) == Saw(Some(dir.candidate)) && dir.now.names.dest == Some(dir.candidate)
      requires !Disturbed(dir.trace) ==> dir.now.names.temp == Some(dir.candidate)
      modifies dir, this`destinationLinked, this`retainTemporary
      ensures Continues(dir.candidate, dir.payload, old(dir.trace), dir.trace)
      ensures Consistent() && OwnNames() && Linked(dir.trace)
      ensures !Disturbed(dir.trace) ==> dir.now.names.temp == Some(dir.candidate)
      ensures r == original || r.Retained?
      ensures retainTemporary == r.Retained?
      ensures r.IsPlain() ==> !destinationLinked && NamesOnDisk(dir.trace)
      ensures r.IsPlain() && !Disturbed(dir.trace) ==> dir.now.durable == None && dir.now.names.dest == None
      ensures r.Retained? && !Disturbed(dir.trace) ==> Told(r)
      ensures r.Retained? ==> r.identity == temporaryIdentity && r.kept && Answers(r.present)
      ensures StaysOnlyIf(old(Faults(dir.trace)))
      ensures r.Retained? ==> Faults(dir.trace).Total() > old(Faults(dir.trace).Total())
      ensures Faults(dir.trace).Total() >= old(Faults(dir.trace).Total())
    {
      var withdrawn := dir.UnlinkDest();
      if withdrawn.Raise? {
        r := LookAgain();
        return;
      }
      destinationLinked := false;
      r := FlushWithdrawal(original);
    }

    /** The link is gone: make that durable. */
    method FlushWithdrawal(original: Exc) returns (r: Exc)
      requires Consistent() && OwnNames() && !committed && !destinationLinked && temporary && !retainTemporary
      requires original.IsPlain() && Withdrawn(dir.trace) && temporaryIdentity == Some(dir.candidate)
      requires !Disturbed(dir.trace) ==>
                 dir.now.names.temp == Some(dir.candidate) && dir.now.names.dest == None
      requires !LastLook(dir.trace).LookFailed?
      modifies dir, this`retainTemporary
      ensures Continues(dir.candidate, dir.payload, old(dir.trace), dir.trace)
      ensures Consistent() && OwnNames() && Linked(dir.trace) == old(Linked(dir.trace))
      ensures LastLook(dir.trace) == old(LastLook(dir.trace))
      ensures !Disturbed(dir.trace) ==> dir.now.names == old(dir.now.names)
      ensures retainTemporary == r.Retained?
      ensures if r.Retained? then r == Exc.Retained(temporaryIdentity, true, Some(false))
              else r == original && NamesOnDisk(dir.trace) && (!Disturbed(dir.trace) ==> dir.now.durable == None)
      ensures Faults(dir.trace) ==
                if r.Retained? then old(Faults(dir.trace)).Plus(OtherCall) else old(Faults(dir.trace))
    {
      var flushed := dir.FlushDirectory();
      if flushed.Raise? {
        retainTemporary := true;
        return Exc.Retained(temporaryIdentity, temporary, Some(false));
      }
      return original;
    }

    /** What is under the final name after a removal that raised. */
    method LookAgain() returns (r: Exc)
      requires Consistent() && OwnNames() && !committed && temporary && directory && Linked(dir.trace)
      requires !Disturbed(dir.trace) ==> dir.now.names.temp == Some(dir.candidate)
      modifies dir, this`retainTemporary
      ensures Consistent() && OwnNames() && Watches(dir.candidate, dir.payload, old(dir.trace), dir.trace)
      ensures r.Retained? && retainTemporary && (!Disturbed(dir.trace) ==> Told(r))
      ensures r.identity == temporaryIdentity && r.kept && Answers(r.present)
      ensures r.present == Some(true) ==> LastLook(dir.trace) == Saw(temporaryIdentity)
      ensures Faults(dir.trace).remove == old(Faults(dir.trace).remove)
      ensures Faults(dir.trace).Total() >= old(Faults(dir.trace).Total())
    {
      var rebound := dir.StatDest();
      retainTemporary := true;
      var present :=
        match rebound
        case Ok(found) => Some(Some(found.inode) == temporaryIdentity)
        case Raise(exc) => if exc.NotFound? then Some(false) else None;
      return Exc.Retained(temporaryIdentity, temporary, present);
    }

    /** Both checks of the way to the final name, and the directory made in between. */
    method Precheck() returns (r: Option<Exc>)
      requires dir.Valid()
      modifies dir
      ensures dir.Valid() && Watches(dir.candidate, dir.payload, old(dir.trace), dir.trace)
      ensures r.Some? ==> r.value.IsPlain()
      ensures r == None ==> Faults(dir.trace) == old(Faults(dir.trace))
      ensures r == None ==> LastLook(dir.trace) == Saw(None) && dir.now.names.dest == None
      ensures Calmly(old(Faults(dir.trace))) && r.Some? ==> r == Some(CheckFailed) && dir.now.names.dest.Some?
    {
      r := RequireSafeChain();
      if r.Some? { return; }
      var created := dir.Elsewhere();
      if created.Raise? { return Some(CheckFailed); }
      r := RequireSafeChain();
    }

    /** The outer try block. */
    method Attempt() returns (r: Option<Exc>)
      requires Consistent() && OwnNames() && !committed && !directory && !temporary && !dir.now.file.created
      requires !Linked(dir.trace) && !Withdrawn(dir.trace) && temporaryIdentity == None
      requires !descriptor && !retainTemporary && !destinationLinked
      modifies dir, this`descriptor, this`directory, this`temporary, this`temporaryIdentity, this`linkedIdentity
      modifies this`destinationLinked, this`committed, this`retainTemporary
      ensures Continues(dir.candidate, dir.payload, old(dir.trace), dir.trace)
      ensures HandedOver(r)
      ensures !Disturbed(dir.trace) && !committed ==> LeftBecause(r)
      ensures !Disturbed(dir.trace) && !committed && descriptor && PlanFits() ==> Faulted(dir.trace)
      ensures Undisturbed() && PlanFits() && old(dir.now.names.temp) == None ==> r == None
    {
      r := CreateCandidate();
      if r.Some? { return; }
      r := OpenDirectory();
      if r.Some? { return; }
      r := PublishAndSettle();
    }

    /** The link, and what follows it. */
    method PublishAndSettle() returns (r: Option<Exc>)
      requires Consistent() && OwnNames() && !committed && directory && temporary && !Linked(dir.trace)
      requires !Withdrawn(dir.trace) && !retainTemporary && !destinationLinked && dir.now.file.mode == PRIVATE_MODE
      requires !Disturbed(dir.trace) ==> dir.now.names.temp == Some(dir.candidate)
      modifies dir, this`temporary, this`linkedIdentity, this`destinationLinked, this`committed, this`retainTemporary
      ensures Continues(dir.candidate, dir.payload, old(dir.trace), dir.trace)
      ensures Consistent() && OwnNames() && Ended(r)
      ensures !committed ==> temporary
      ensures !Disturbed(dir.trace) && !committed ==> LeftBecause(r)
      ensures Calmly(old(Faults(dir.trace))) ==> committed
      ensures Undisturbed() && PlanFits() ==> r == None
    {
      r := Publish();
      if r == None { r := SettleLink(); }
    }

    /** After a link that returned: confirm it and go on, or take it back. */
    method SettleLink() returns (r: Option<Exc>)
      requires Consistent() && OwnNames() && !committed && directory && temporary && Linked(dir.trace)
      requires !Withdrawn(dir.trace) && !retainTemporary && destinationLinked && dir.now.file.mode == PRIVATE_MODE
      requires !Disturbed(dir.trace) ==>
                 dir.now.names.temp == Some(dir.candidate) && dir.now.names.dest == Some(dir.candidate)
      modifies dir, this`temporary, this`linkedIdentity, this`destinationLinked, this`committed, this`retainTemporary
      ensures Continues(dir.candidate, dir.payload, old(dir.trace), dir.trace)
      ensures Consistent() && OwnNames() && Ended(r)
      ensures !committed ==> temporary
      ensures !Disturbed(dir.trace) && !committed ==> LeftBecause(r)
      ensures Calmly(old(Faults(dir.trace))) ==> committed
      ensures Undisturbed() && PlanFits() ==> r == None
    {
      r := Confirm();
      if r == None {
        r := Settle();
      } else {
        var exc := Rollback(r.value);
        r := Some(exc);
      }
    }

    /** How the part from the link on can end. */
    ghost predicate Ended(r: Option<Exc>)
      reads this, dir
    {
      && (r == None ==> committed && Proved() && !temporary && NamesOnDisk(dir.trace))
      && (r.Some? && r.value.Committed? ==> committed && r.value.identity == Some(dir.candidate))
      && retainTemporary == (r.Some? && r.value.Retained?)
      && (retainTemporary ==> !committed && Unsettled())
      && (r.Some? && r.value.IsPlain() && !committed ==> GivenUpDurably())
      && (!committed && !retainTemporary ==> !destinationLinked)
      && (!Disturbed(dir.trace) ==>
            && (committed ==> AllOurs())
            && (r.Some? ==> Told(r.value))
            && (r == None ==> Finished())
            && (!committed ==> dir.now.names.temp == Some(dir.candidate)))
    }

    /** Why a run without rivals was given up from the link on: the candidate is under the
        final name only if the link itself raised, or two calls failed, a lookup or the
        removal of the final name among them. A retained error takes a link that raised or
        two failed calls, the second of them in the rollback or the cleanup; a candidate
        that does not fit the plan stands for the first. */
    ghost predicate LeftBecause(r: Option<Exc>)
      reads dir
    {
      Excused(Faults(dir.trace), dir.now.names.dest == Some(dir.candidate), r.Some? && r.value.Retained?, PlanFits())
    }

    /** The published state of an undisturbed run. */
    ghost predicate Finished()
      reads dir
    {
      dir.now ==
        Snapshot(Names(Some(dir.candidate), None, 0), File(true, dir.payload, PRIVATE_MODE, true), Some(dir.candidate))
    }

    /** Remove the private name, by identity when the directory is pinned. */
    method DropTemporary() returns (r: Option<Exc>)
      requires Consistent() && OwnNames() && temporary && !committed
      modifies dir, this`temporary, this`misled
      ensures Continues(dir.candidate, dir.payload, old(dir.trace), dir.trace)
      ensures Consistent() && OwnNames() && SameMarks(old(dir.trace), dir.trace)
      ensures dir.now.durable == old(dir.now.durable)
      ensures !Disturbed(dir.trace) ==> dir.now.names.dest == old(dir.now.names.dest)
      ensures r.Some? ==> r.value.IsPlain()
      ensures r == None && !Disturbed(dir.trace) && !misled ==> dir.now.names.temp == None
      ensures misled ==> old(misled) || Faulted(dir.trace)
      ensures old(Faults(dir.trace)).Within(Faults(dir.trace))
      ensures !Disturbed(dir.trace) && dir.now.names.temp == Some(dir.candidate) ==>
                Faults(dir.trace).private > old(Faults(dir.trace)).private
      ensures r.Some? && Faults(dir.trace) == old(Faults(dir.trace)) ==>
                && directory && dir.now.names.temp.Some? && dir.now.names.temp != Some(dir.candidate)
                && (!Disturbed(dir.trace) ==> dir.now.names == old(dir.now.names))
    {
      if directory {
        var current := dir.StatTemp();
        if current.Raise? {
          if current.exc.NotFound? { temporary := false; return None; }
          return Some(current.exc);
        }
        if Some(current.value.inode) != temporaryIdentity { return Some(CheckFailed); }
      }
      r := UnlinkPrivate();
    }

    /** The removal itself; a name that is not there counts as removed. */
    method UnlinkPrivate() returns (r: Option<Exc>)
      requires Consistent() && OwnNames() && temporary && !committed
      requires directory ==> dir.now.names.temp == Some(dir.candidate)
      modifies dir, this`temporary, this`misled
      ensures Continues(dir.candidate, dir.payload, old(dir.trace), dir.trace)
      ensures Consistent() && OwnNames() && SameMarks(old(dir.trace), dir.trace)
      ensures dir.now.durable == old(dir.now.durable)
      ensures !Disturbed(dir.trace) ==> dir.now.names.dest == old(dir.now.names.dest)
      ensures r.Some? ==> r.value.IsPlain()
      ensures r == None && !Disturbed(dir.trace) && !misled ==> dir.now.names.temp == None
      ensures misled ==> old(misled) || Faulted(dir.trace)
      ensures || Faults(dir.trace) == old(Faults(dir.trace)).Plus(PrivateCall)
              || (Faults(dir.trace) == old(Faults(dir.trace)) && r == None && dir.now.names.temp == None)
    {
      var dropped := dir.UnlinkTemp(directory);
      if dropped.Raise? && !dropped.exc.NotFound? { return Some(dropped.exc); }
      misled := misled || (dropped.Raise? && dir.now.names.temp.Some?);
      temporary := false;
      return None;
    }

    /** Close what was opened; how many closes failed. */
    method CloseAll() returns (failures: nat)
      requires dir.Valid()
      modifies dir
      ensures dir.Valid() && dir.now == old(dir.now) && Observes(dir.candidate, dir.payload, old(dir.trace), dir.trace)
      ensures Faults(dir.trace) == old(Faults(dir.trace)).(other := old(Faults(dir.trace)).other + failures)
      ensures !directory && !descriptor ==> failures == 0
    {
      failures := 0;
      if directory {
        var closed := dir.Elsewhere();
        if closed.Raise? { failures := failures + 1; }
      }
      if descriptor {
        var closed := dir.Elsewhere();
        if closed.Raise? { failures := failures + 1; }
      }
    }

    /** The last lookup of the final name when nothing was committed: an exception
        to leave with, and whether the candidate turned out to be public. */
    method LookOnceMore(active: Option<Exc>) returns (interrupted: Option<Exc>, unclassified: bool)
      requires Consistent() && OwnNames()
      requires !committed ==> active.Some? && !active.value.Committed? && retainTemporary == active.value.Retained?
      requires !committed && !retainTemporary ==> !destinationLinked
      modifies dir, this`destinationLinked, this`linkedIdentity, this`retainTemporary
      ensures Continues(dir.candidate, dir.payload, old(dir.trace), dir.trace)
      ensures Consistent() && OwnNames()
      ensures !Disturbed(dir.trace) ==> dir.now == old(dir.now)
      ensures committed || old(retainTemporary) ==> interrupted == None && !unclassified && dir.trace == old(dir.trace)
      ensures interrupted.Some? ==> interrupted == Some(Exc.Interrupt) && LastLook(dir.trace).LookFailed?
      ensures Faults(dir.trace) != old(Faults(dir.trace)) ==>
                interrupted.Some? == (LastFault(dir.trace) == Some(Interrupt))
      ensures unclassified ==> interrupted == None && !committed && retainTemporary && directory
      ensures unclassified && !Disturbed(dir.trace) ==> dir.now.names.dest == Some(dir.candidate)
      ensures !unclassified ==> retainTemporary == old(retainTemporary) && destinationLinked == old(destinationLinked)
                                && linkedIdentity == old(linkedIdentity)
      ensures !committed && !retainTemporary ==> Absent()
      ensures old(retainTemporary ==> Unsettled()) && retainTemporary ==> Unsettled()
      ensures Linked(dir.trace) == old(Linked(dir.trace)) && dir.now.durable == old(dir.now.durable)
      ensures old(Faults(dir.trace)).Within(Faults(dir.trace))
      ensures interrupted.Some? ==> directory && Faults(dir.trace).look > old(Faults(dir.trace)).look
      ensures Calmly(old(Faults(dir.trace))) ==> unclassified == old(StillPublic(active))
    {
      interrupted, unclassified := None, false;
      if !committed && temporaryIdentity.Some? && directory && !(active.Some? && active.value.Retained?) {
        var found := dir.StatDest();
        match found {
          case Raise(exc) =>
            if !exc.IsOsError() { interrupted := Some(exc); }
          case Ok(current) =>
            if Some(current.inode) == temporaryIdentity {
              destinationLinked, linkedIdentity, retainTemporary, unclassified := true, temporaryIdentity, true, true;
            }
        }
      }
    }

    /** The final lookup is due, and would find the candidate. */
    ghost predicate StillPublic(active: Option<Exc>)
      reads this, dir
    {
      && !committed && directory && !(active.Some? && active.value.Retained?)
      && dir.now.names.dest == Some(dir.candidate)
    }

    /** Either the last lookup failed, or it did not find the candidate under the
        final name, or the writer never linked anything. */
    ghost predicate Absent()
      reads this, dir
    {
      if directory then
        match LastLook(dir.trace)
        case LookFailed => true
        case Saw(dest) => dest != Some(dir.candidate) && (!Disturbed(dir.trace) ==> dest == dir.now.names.dest)
        case NoLook => false
      else !Linked(dir.trace)
    }

    /** Settle the private name and close; how many of these steps failed. */
    method CleanUp() returns (failures: nat)
      requires Consistent() && OwnNames()
      requires !committed && !retainTemporary ==> Absent()
      requires !misled
      modifies dir, this`temporary, this`misled, this`finalizationErrors
      ensures finalizationErrors == failures
      ensures dir.now.durable == old(dir.now.durable)
      ensures old(temporary) && !committed && !retainTemporary && failures == 0 && !misled && !Disturbed(dir.trace) ==>
                dir.now.names.temp == None
      ensures misled ==> Faulted(dir.trace)
      ensures Continues(dir.candidate, dir.payload, old(dir.trace), dir.trace)
      ensures Consistent() && OwnNames() && SameMarks(old(dir.trace), dir.trace)
      ensures !Disturbed(dir.trace) ==> dir.now.names.dest == old(dir.now.names.dest)
      ensures !Disturbed(dir.trace) && (committed || retainTemporary) ==> dir.now == old(dir.now)
      ensures committed || retainTemporary ==> temporary == old(temporary)
      ensures committed && old(NamesOnDisk(dir.trace)) ==> NamesOnDisk(dir.trace)
      ensures !committed && !retainTemporary ==> Absent()
      ensures failures > 0 && (committed || retainTemporary) ==> Faulted(dir.trace)
      ensures old(Faults(dir.trace)).Within(Faults(dir.trace))
      ensures old(temporary) && !committed && !retainTemporary && !Disturbed(dir.trace) ==>
                dir.now.names.temp == Some(dir.candidate) ==> Faults(dir.trace).private > 0
      ensures Calmly(old(Faults(dir.trace))) && failures > 0 ==>
                old(temporary) && !committed && directory && old(dir.now.names.temp) != Some(dir.candidate)
      ensures !descriptor && !directory && !old(temporary) ==> failures == 0
    {
      failures := 0;
      if temporary && !committed && !retainTemporary {
        var dropped := DropTemporary();
        if dropped.Some? { failures := 1; }
      }
      var unclosed := CloseAll();
      failures := failures + unclosed;
      finalizationErrors := failures;
    }

    /** The cleanup failed before any commit: what is left of the private name. */
    method ReportCleanup() returns (exit: Exc)
      requires Consistent() && OwnNames() && !committed && !retainTemporary && !destinationLinked && Absent()
      requires !Disturbed(dir.trace) && dir.now.names.temp == Some(dir.candidate) ==> Faults(dir.trace).private > 0
      modifies dir
      ensures Continues(dir.candidate, dir.payload, old(dir.trace), dir.trace)
      ensures Consistent() && OwnNames()
      ensures !exit.Committed? && Absent() && (exit.Retained? || exit == Interrupt)
      ensures exit == Interrupt <==>
                Faults(dir.trace) != old(Faults(dir.trace)) && LastFault(dir.trace) == Some(Interrupt)
      ensures Linked(dir.trace) == old(Linked(dir.trace)) && dir.now.durable == old(dir.now.durable)
      ensures !Disturbed(dir.trace) ==> dir.now.names == old(dir.now.names)
      ensures !Disturbed(dir.trace) ==> Told(exit)
      ensures old(Faults(dir.trace)).Within(Faults(dir.trace))
      ensures Faults(dir.trace) == old(Faults(dir.trace)) ==>
                && exit.Retained?
                && exit.kept == (temporary && dir.now.names.temp.Some? && dir.now.names.temp == temporaryIdentity)
      ensures exit.Retained? ==> exit.identity == if linkedIdentity.Some? then linkedIdentity else temporaryIdentity
      ensures exit.Retained? ==> exit.present == Some(false)
    {
      var kept := false;
      if temporary {
        var current := dir.StatTemp();
        if current.Raise? {
          if !current.exc.IsOsError() { return current.exc; }
        } else {
          kept := Some(current.value.inode) == temporaryIdentity;
        }
      }
      var identity := if linkedIdentity.Some? then linkedIdentity else temporaryIdentity;
      return Exc.Retained(identity, kept, Some(destinationLinked));
    }

    /** What the attempt hands over to the finally block. */
    ghost predicate HandedOver(active: Option<Exc>)
      reads this, dir
    {
      && Consistent() && OwnNames()
      && (active == None ==> committed && Proved() && !temporary && NamesOnDisk(dir.trace))
      && (active.Some? && active.value.Committed? ==> committed && active.value.identity == Some(dir.candidate))
      && retainTemporary == (active.Some? && active.value.Retained?)
      && (retainTemporary ==> !committed && Unsettled())
      && (!committed && !retainTemporary ==> !destinationLinked)
      && (active.Some? && active.value.IsPlain() && !committed ==> GivenUpDurably())
      && descriptor == (temporary || committed) && (directory ==> descriptor)
      && (!Disturbed(dir.trace) ==>
            && (committed ==> AllOurs())
            && (active.Some? ==> Told(active.value))
            && (active == None ==> Finished())
            && (temporary && temporaryIdentity.Some? && !committed ==> dir.now.names.temp == Some(dir.candidate)))
    }

    /** What holds of every exit. */
    ghost predicate Classified(exit: Option<Exc>)
      reads this, dir
    {
      && (committed <==> exit == None || exit.value.Committed?)
      && (exit == None ==> Proved() && finalizationErrors == 0 && NamesOnDisk(dir.trace))
      && (exit.Some? && exit.value.Committed? ==> exit.value.identity == Some(dir.candidate))
      && (exit.Some? && exit.value.IsPlain() ==> Absent())
      && WhenRetained(exit) && WhenPlain(exit)
      && (!Disturbed(dir.trace) ==>
            (committed ==> AllOurs()) && (exit == None ==> Finished()) && (exit.Some? ==> Told(exit.value)))
    }

    /** The finally block: settle the private name, close, and choose the exit. */
    method Finalize(active: Option<Exc>) returns (exit: Option<Exc>)
      requires HandedOver(active) && finalizationErrors == 0 && !misled
      modifies dir, this`temporary, this`destinationLinked, this`linkedIdentity, this`retainTemporary
      modifies this`finalizationErrors, this`misled
      ensures Continues(dir.candidate, dir.payload, old(dir.trace), dir.trace)
      ensures Consistent() && OwnNames() && Classified(exit)
      ensures !Disturbed(dir.trace) ==> dir.now.names.dest == old(dir.now.names.dest)
      ensures Undisturbed() && active == None ==> exit == None
      ensures !descriptor ==> exit == active
      ensures old(Faults(dir.trace)).Within(Faults(dir.trace))
      ensures !Disturbed(dir.trace) ==>
                || exit == old(CalmExit(active, StillPublic(active)))
                || Faults(dir.trace).Total() > old(Faults(dir.trace).Total())
    {
      var interrupted, unclassified := LookOnceMore(active);
      if interrupted.Some? { return interrupted; }
      exit := Conclude(active, unclassified);
    }

    /** What is left after the last lookup: clean up, and say how it ended. */
    method Conclude(active: Option<Exc>, unclassified: bool) returns (exit: Option<Exc>)
      requires if !unclassified then HandedOver(active)
               else active.Some? && !committed && retainTemporary && directory && temporary && Unsettled()
      requires Consistent() && OwnNames() && finalizationErrors == 0 && !misled && (directory ==> descriptor)
      requires !committed && !retainTemporary ==> Absent()
      requires unclassified && !Disturbed(dir.trace) ==>
                 dir.now.names.temp == Some(dir.candidate) && dir.now.names.dest == Some(dir.candidate)
      modifies dir, this`temporary, this`finalizationErrors, this`misled
      ensures Continues(dir.candidate, dir.payload, old(dir.trace), dir.trace)
      ensures Consistent() && OwnNames() && Classified(exit)
      ensures !Disturbed(dir.trace) ==> dir.now.names.dest == old(dir.now.names.dest)
      ensures Undisturbed() && active == None ==> exit == None
      ensures !descriptor ==> exit == active
      ensures old(Faults(dir.trace)).Within(Faults(dir.trace))
      ensures Calmly(old(Faults(dir.trace))) ==>
                exit == old(CalmExit(active, unclassified))
    {
      var failures := CleanUp();
      if committed && failures > 0 { return Some(Exc.Committed(linkedIdentity, temporary)); }
      if committed && active.Some? && !active.value.Committed? {
        return Some(Exc.Committed(linkedIdentity, temporary));
      }
      if unclassified { return Some(Exc.Retained(temporaryIdentity, temporary, Some(true))); }
      if !committed && failures > 0 && !(active.Some? && active.value.Retained?) {
        var report := ReportCleanup();
        return Some(report);
      }
      return active;
    }

    /** The exit when nothing fails while the writer finishes: that of the attempt, unless
        the attempt stopped after the commit, or left the candidate public. */
    ghost function CalmExit(active: Option<Exc>, stillPublic: bool): Option<Exc>
      reads this, dir
    {
      if committed && active.Some? && !active.value.Committed? then Some(Exc.Committed(linkedIdentity, temporary))
      else if stillPublic then Some(Exc.Retained(temporaryIdentity, temporary, Some(true)))
      else active
    }

    /** A retained error is left exactly when the private name is kept on purpose, or a step
        of the cleanup failed before any commit and the last look at it was not interrupted. */
    ghost predicate WhenRetained(exit: Option<Exc>)
      reads this, dir
    {
      && (exit.Some? && exit.value.Retained? ==> !committed && (retainTemporary || finalizationErrors > 0))
      && (retainTemporary ==> exit.Some? && exit.value.Retained? && Unsettled())
      && (!committed && finalizationErrors > 0 ==> exit.Some? && (exit.value.Retained? || exit.value == Interrupt))
    }

    /** A plain error in a run without rivals leaves no link that only the disk remembers
        and, once the private file was handed out, no private name, unless the last lookup
        or the cleanup was interrupted, or the removal was answered wrongly. */
    ghost predicate WhenPlain(exit: Option<Exc>)
      reads this, dir
    {
      !Disturbed(dir.trace) && exit.Some? && exit.value.IsPlain() ==>
        && GivenUpDurably()
        && (|| dir.now.names.temp == None
            || !descriptor
            || (exit.value == Interrupt && (LastLook(dir.trace).LookFailed? || finalizationErrors > 0))
            || (misled && Faulted(dir.trace)))
    }

    /** The try block and its finally block, once the final name was found free. */
    method AttemptAndFinalize() returns (exit: Option<Exc>)
      requires Consistent() && OwnNames() && !committed && !directory && !temporary && !dir.now.file.created
      requires !Linked(dir.trace) && !Withdrawn(dir.trace) && temporaryIdentity == None && !misled
      requires !descriptor && !retainTemporary && !destinationLinked && finalizationErrors == 0
      modifies dir, this
      ensures old(Disturbed(dir.trace)) ==> Disturbed(dir.trace)
      ensures old(Faulted(dir.trace)) ==> Faulted(dir.trace)
      ensures Consistent() && OwnNames() && Classified(exit)
      ensures !Disturbed(dir.trace) && !committed ==> LeftBecause(exit)
      ensures Undisturbed() && PlanFits() && old(dir.now.names.temp) == None ==> exit == None
    {
      var active := Attempt();
      ghost var before := Faults(dir.trace);
      exit := Finalize(active);
      if !Disturbed(dir.trace) && !committed {
        StaysExcused(before, Faults(dir.trace), dir.now.names.dest == Some(dir.candidate),
                     active.Some? && active.value.Retained?, exit.Some? && exit.value.Retained?, PlanFits());
      }
    }

    /**
     * execute_plan, from any free directory, under every placement of faults and
     * every schedule of rivals. `None` is the normal return.
     */
    method Execute() returns (exit: Option<Exc>)
      requires Consistent() && !committed && !temporary && !directory && !retainTemporary && !destinationLinked
      requires dir.trace.Origin? && temporaryIdentity == None && linkedIdentity == None
      requires !descriptor && finalizationErrors == 0 && !misled
      modifies dir, this
      ensures dir.Valid() && Disciplined(dir.candidate, dir.payload, dir.trace)
      // the exit tells whether the link was committed
      ensures exit == None || exit.value.Committed? <==> Sealed(dir.trace)
      ensures Sealed(dir.trace) ==> !Withdrawn(dir.trace)
      ensures exit.Some? && exit.value.Committed? ==> exit.value.identity == Some(dir.candidate)
      ensures exit == None ==> Proved() && finalizationErrors == 0 && NamesOnDisk(dir.trace)
      // a plain error: the last lookup did not find the candidate, or failed
      ensures exit.Some? && exit.value.IsPlain() ==> Absent()
      // when a retained error is due, and what a plain one leaves
      ensures WhenRetained(exit) && WhenPlain(exit)
      // without rivals the exit describes the final directory, whatever failed
      ensures !Disturbed(dir.trace) && exit == None ==> Finished()
      ensures !Disturbed(dir.trace) && exit.Some? && exit.value.Committed? ==>
                AllOurs() && dir.now.file.content == plan.payload && dir.now.file.flushed
      ensures !Disturbed(dir.trace) && exit.Some? && exit.value.Retained? ==> Told(exit.value)
      ensures !Disturbed(dir.trace) && exit.Some? && exit.value.IsPlain() && !LastLook(dir.trace).LookFailed? ==>
                dir.now.names.dest == old(dir.now.names.dest)
      // why, without rivals, a link that was not committed is still public
      ensures !Disturbed(dir.trace) && !Sealed(dir.trace) ==>
                LeftBecause(exit) && dir.now.names.dest in {old(dir.now.names.dest), Some(dir.candidate)}
      // without rivals and faults it succeeds exactly when the name is free
      ensures Undisturbed() && PlanFits() && old(dir.now.names.temp) == None ==>
                if old(dir.now.names.dest) == None then exit == None
                else exit == Some(CheckFailed) && dir.now == old(dir.now)
    {
      exit := Precheck();
      if exit.Some? { return; }
      exit := AttemptAndFinalize();
    }
  }
}
