/**
 * The recovery tool's publication of the final record. It follows the same link
 * protocol, but drops its private name unchecked and takes a published record
 * back when a later step fails: a lookup of the inode, then a digest of whatever
 * file the name leads to, then the removal.
 */
module RecoveryPublisher {
  import opened Wrappers
  import opened DirectoryTraces
  import opened FaultyDirectory

  const RECORD_MODE: nat := 0x124   // 0o444
  const WRITE_CHUNK: nat := 65536

  /** Which call an error exit came from, once the cleanup is over. */
  datatype Stop =
    | NotLinked       // whatever failed, the link never took effect
    | LinkRaised      // the link itself, late
    | CloseRaised     // the cleanup's close of the still open descriptor
    | LookRaised      // a lookup of the final name in the cleanup or the rollback
    | DigestRaised    // the digest in the rollback
    | UnlinkRaised    // the removal, without having taken effect
    | Displaced       // nothing, or not the record, was found under the final name
    | TakenBack       // the final name was removed
  {
    /** The calls whose failure leaves a linked record where it is. */
    predicate LeavesPublic() {
      LinkRaised? || CloseRaised? || LookRaised? || DigestRaised? || UnlinkRaised?
    }
  }

  class Recovery {
    const dir: Directory
    const data: Bytes
    const maximum: nat
    var descriptor: bool
    var published: bool

    constructor (dir: Directory, data: Bytes, maximum: nat)
      requires dir.Valid() && dir.payload == data && dir.trace.Origin? && !dir.now.file.created
      ensures this.dir == dir && this.data == data && this.maximum == maximum
      ensures Consistent() && !descriptor && !published
    {
      this.dir, this.data, this.maximum := dir, data, maximum;
      descriptor, published := false, false;
    }

    ghost predicate Consistent()
      reads this, dir
    {
      && dir.Valid() && dir.payload == data
      && Careful(dir.candidate, dir.payload, dir.trace)
      && (published ==> Linked(dir.trace))
      && (Linked(dir.trace) && !published ==> Faults(dir.trace).link > 0)
      && (Linked(dir.trace) ==> dir.now.file.created && dir.now.file.content == data && dir.now.file.flushed)
    }

    ghost predicate Calm()
      reads dir
    {
      !Disturbed(dir.trace)
    }

    ghost predicate Undisturbed()
      reads dir
    {
      !Disturbed(dir.trace) && !Faulted(dir.trace)
    }

    /** No rival has acted, and no call has failed since there were `before` failures. */
    ghost predicate Calmly(before: Tally)
      reads dir
    {
      Calm() && Faults(dir.trace) == before
    }

    /** The final name is free or names the candidate, and the private name is free
        or names it too. */
    ghost predicate OwnNames()
      reads dir
    {
      Calm() ==>
        && dir.now.names.hidden == 0
        && (dir.now.file.created ==> dir.now.names.temp == None || dir.now.names.temp == Some(dir.candidate))
        && (Linked(dir.trace) ==> dir.now.names.dest == if Withdrawn(dir.trace) then None else Some(dir.candidate))
    }

    /** `stop` is what happened: its cases tell whether the link and the removal took
        effect, and each of the others is borne out by a call that has failed since there
        were `before` failures. */
    ghost predicate Explains(stop: Stop, before: Tally)
      reads this, dir
    {
      var faults := Faults(dir.trace);
      && (stop.NotLinked? <==> !Linked(dir.trace))
      && (stop.LinkRaised? <==> Linked(dir.trace) && !published)
      && (stop.TakenBack? <==> Withdrawn(dir.trace))
      && (stop.CloseRaised? ==> descriptor && faults.other > before.other)
      && (stop.LookRaised? ==> LastLook(dir.trace) == LookFailed && faults.look > before.look)
      && (stop.DigestRaised? || stop.UnlinkRaised? ==> LastLook(dir.trace) == Saw(Some(dir.candidate)))
      && (stop.DigestRaised? && Calm() ==> faults.other > before.other)
      && (stop.UnlinkRaised? && Calm() ==> faults.remove > before.remove)
      && (stop.Displaced? ==> !Calm())
      && (stop.LeavesPublic() && !stop.LinkRaised? ==> before.Within(faults))
    }

    method RequireFree() returns (r: Option<Exc>)
      requires dir.Valid()
      modifies dir
      ensures dir.Valid() && Watches(dir.candidate, dir.payload, old(dir.trace), dir.trace)
      ensures r.Some? ==> r.value.IsPlain()
      ensures Calmly(old(Faults(dir.trace))) ==>
                r == if dir.now.names.dest == None && dir.now.names.temp == None then None else Some(CheckFailed)
      ensures r == None && Faults(dir.trace) == old(Faults(dir.trace)) ==>
                LastLook(dir.trace) == Saw(None) && dir.now.names.temp == None
    {
      var logical := dir.LexistsDest();
      if logical.Raise? { return Some(logical.exc); }
      if logical.value { return Some(CheckFailed); }
      var physical := dir.LexistsDest();
      if physical.Raise? { return Some(physical.exc); }
      if physical.value { return Some(CheckFailed); }
      var private := dir.LexistsTemp();
      if private.Raise? { return Some(private.exc); }
      return if private.value then Some(CheckFailed) else None;
    }

    method Prepare() returns (r: Option<Exc>)
      requires Consistent() && OwnNames() && !Linked(dir.trace) && dir.now.file.created
      requires dir.now.file.content == [] && !published
      modifies dir
      ensures CarefullyContinues(dir.candidate, dir.payload, old(dir.trace), dir.trace)
      ensures Consistent() && OwnNames() && SameMarks(old(dir.trace), dir.trace)
      ensures r.Some? ==> r.value.IsPlain() && Faults(dir.trace).Total() > old(Faults(dir.trace)).Total()
      ensures old(Faults(dir.trace)).Within(Faults(dir.trace))
      ensures Calm() ==> dir.now.names.dest == old(dir.now.names.dest) && dir.now.names.temp == old(dir.now.names.temp)
      ensures r == None ==> dir.now.file.created && dir.now.file.content == data && dir.now.file.flushed
      ensures dir.now.file.mode == old(dir.now.file.mode)
    {
      r := dir.WriteAll(data, WRITE_CHUNK);
      if r.Some? { return; }
      var flushed := dir.FlushFile();
      if flushed.Raise? { return Some(flushed.exc); }
      var measured := dir.StatPinned(dir.candidate);
      if measured.Raise? { return Some(measured.exc); }
    }

    /** The steps from the link to the last check. */
    method LinkAndConfirm() returns (r: Option<Exc>)
      requires Consistent() && OwnNames() && !Linked(dir.trace) && !Withdrawn(dir.trace) && !published && descriptor
      requires dir.now.file.created && dir.now.file.content == data && dir.now.file.flushed
      requires dir.now.file.mode == RECORD_MODE
      requires Calm() ==> dir.now.names.temp == Some(dir.candidate)
      modifies dir, this`published, this`descriptor
      ensures CarefullyContinues(dir.candidate, dir.payload, old(dir.trace), dir.trace)
      ensures Consistent() && OwnNames() && !Withdrawn(dir.trace)
      ensures r.Some? ==> r.value.IsPlain()
      ensures !published ==> r.Some?
      ensures !Linked(dir.trace) && Calm() ==> dir.now == old(dir.now)
      ensures r == None ==> published && Confirmed()
      ensures r == None && Calm() ==> dir.now.names.temp == None && dir.now.durable == dir.now.names.dest
      ensures r.Some? && Calm() && (Linked(dir.trace) || old(dir.now.names.dest) == None) ==>
                Faults(dir.trace).Total() > old(Faults(dir.trace)).Total()
      ensures old(Faults(dir.trace)).Within(Faults(dir.trace))
      ensures r == None ==> !descriptor
    {
      var linked := dir.LinkTemp();
      if linked.Raise? { return Some(linked.exc); }
      published := true;
      r := MakeDurable();
      if r == None { r := Check(); }
    }

    /** The steps from the link to the flush of the directory. */
    method MakeDurable() returns (r: Option<Exc>)
      requires Consistent() && OwnNames() && Linked(dir.trace) && !Withdrawn(dir.trace) && published && descriptor
      modifies dir, this`descriptor
      ensures CarefullyContinues(dir.candidate, dir.payload, old(dir.trace), dir.trace)
      ensures Consistent() && OwnNames() && Linked(dir.trace) && !Withdrawn(dir.trace)
      ensures dir.now.file == old(dir.now.file)
      ensures r.Some? ==> r.value.IsPlain()
      ensures r == None ==> Sealed(dir.trace) && NamesOnDisk(dir.trace) && !descriptor
      ensures r == None && Calm() ==> dir.now.names.temp == None && dir.now.durable == dir.now.names.dest
      ensures r == None ==> Faults(dir.trace) == old(Faults(dir.trace))
      ensures old(Faults(dir.trace)).Within(Faults(dir.trace))
      ensures r.Some? && Calm() && old(dir.now.names.temp) == Some(dir.candidate) ==>
                Faults(dir.trace).Total() > old(Faults(dir.trace)).Total()
    {
      var closed := dir.Elsewhere();
      if closed.Raise? { return Some(closed.exc); }
      descriptor := false;
      var dropped := dir.UnlinkTemp(false);
      if dropped.Raise? { return Some(dropped.exc); }
      r := FsyncDirectory();
    }

    /** Open, flush and close the parent directory. */
    method FsyncDirectory() returns (r: Option<Exc>)
      requires Consistent()
      modifies dir
      ensures CarefullyContinues(dir.candidate, dir.payload, old(dir.trace), dir.trace)
      ensures Consistent() && dir.now.file == old(dir.now.file)
      ensures Linked(dir.trace) == old(Linked(dir.trace)) && Withdrawn(dir.trace) == old(Withdrawn(dir.trace))
      ensures LastLook(dir.trace) == old(LastLook(dir.trace))
      ensures Calm() ==> dir.now.names == old(dir.now.names)
      ensures r.Some? ==> r.value.IsPlain() && Faults(dir.trace).other > old(Faults(dir.trace)).other
      ensures old(Faults(dir.trace)).Within(Faults(dir.trace))
      ensures r == None ==> Faults(dir.trace) == old(Faults(dir.trace)) && NamesOnDisk(dir.trace)
      ensures r == None && Calm() ==> dir.now.durable == dir.now.names.dest
      ensures r == None && old(Linked(dir.trace) && !Withdrawn(dir.trace)) ==> Sealed(dir.trace)
    {
      var reached := dir.Elsewhere();
      if reached.Raise? { return Some(reached.exc); }
      var flushed := dir.FlushDirectory();
      var closed := dir.Elsewhere();
      if closed.Raise? { return Some(closed.exc); }
      if flushed.Raise? { return Some(flushed.exc); }
      return None;
    }

    /** Compare both lookups of the record with the measured inode, then its digest. */
    method Check() returns (r: Option<Exc>)
      requires Consistent() && OwnNames() && Linked(dir.trace) && Sealed(dir.trace) && NamesOnDisk(dir.trace)
      modifies dir
      ensures Consistent() && OwnNames() && Watches(dir.candidate, dir.payload, old(dir.trace), dir.trace)
      ensures r.Some? ==> r.value.IsPlain()
      ensures r == None ==> Confirmed() && LastHash(dir.trace) == Some(dir.digest(data))
      ensures r == None ==> Faults(dir.trace) == old(Faults(dir.trace))
      ensures old(Faults(dir.trace)).Within(Faults(dir.trace))
      ensures r.Some? && Calm() && dir.now.names.dest == Some(dir.candidate) && dir.now.file.mode == RECORD_MODE ==>
                Faults(dir.trace).Total() > old(Faults(dir.trace)).Total()
    {
      var logical := dir.StatDest();
      if logical.Raise? { return Some(logical.exc); }
      var physical := dir.StatDest();
      if physical.Raise? { return Some(physical.exc); }
      if logical.value.inode != physical.value.inode || physical.value.inode != dir.candidate
         || physical.value.mode != RECORD_MODE || physical.value.size != |data| {
        return Some(CheckFailed);
      }
      var digest := DigestNamed();
      if digest.Raise? { return Some(digest.exc); }
      if digest.value != dir.digest(data) { return Some(CheckFailed); }
      return None;
    }

    /** What a successful publication has shown. */
    ghost predicate Confirmed()
      reads this, dir
    {
      && Sealed(dir.trace) && dir.now.file.created && dir.now.file.content == data && dir.now.file.mode == RECORD_MODE
      && LastLook(dir.trace) == Saw(Some(dir.candidate)) && NamesOnDisk(dir.trace)
    }

    /** Digest of the file the final name leads to. */
    method DigestNamed() returns (r: Result<int>)
      requires dir.Valid()
      modifies dir
      ensures dir.Valid() && Observes(dir.candidate, dir.payload, old(dir.trace), dir.trace)
      ensures r.Raise? ==> r.exc.IsPlain()
      ensures old(Faults(dir.trace)).Within(Faults(dir.trace))
      ensures r.Raise? && dir.now.names.dest.Some? ==> Faults(dir.trace).other > old(Faults(dir.trace)).other
      ensures r.Ok? && Calm() && dir.now.names.dest == Some(dir.candidate) ==>
                r.value == dir.digest(dir.now.file.content)
      ensures r.Ok? ==> Faults(dir.trace) == old(Faults(dir.trace)) && LastHash(dir.trace) == Some(r.value)
    {
      var pinned := dir.OpenDest();
      if pinned.Raise? { return Raise(pinned.exc); }
      r := dir.DigestPinned(pinned.value);
      var closed := dir.Elsewhere();
      if closed.Raise? { return Raise(closed.exc); }
    }

    /** _rollback_exact: look the inode up, compare the digest, remove the name. */
    method RollbackExact() returns (r: Option<Exc>, ghost stop: Stop)
      requires Consistent() && OwnNames() && Linked(dir.trace) && !Withdrawn(dir.trace) && published
      modifies dir
      ensures CarefullyContinues(dir.candidate, dir.payload, old(dir.trace), dir.trace)
      ensures Consistent() && OwnNames() && Linked(dir.trace)
      ensures r.Some? ==> r.value.IsPlain()
      ensures r == None ==> Withdrawn(dir.trace) && NamesOnDisk(dir.trace)
      ensures r == None && Calm() ==> dir.now.names.dest == None && dir.now.durable == None
      ensures Calm() ==> dir.now.names.temp == old(dir.now.names.temp)
      ensures Calmly(old(Faults(dir.trace))) ==> r == None
      ensures old(Faults(dir.trace)).Within(Faults(dir.trace))
      ensures Explains(stop, old(Faults(dir.trace))) && !stop.CloseRaised?
      ensures stop.UnlinkRaised? && Calm() && r.Some? ==> r == LastFault(dir.trace)
      ensures stop.UnlinkRaised? && Calm() ==> r.Some?
    {
      r, stop := CheckRollback();
      if r.Some? { return; }
      var removed := dir.UnlinkDest();
      stop := if Withdrawn(dir.trace) then TakenBack else UnlinkRaised;
      if removed.Raise? { return Some(removed.exc), stop; }
      r := FsyncDirectory();
    }

    /** The lookup and the digest of a rollback. */
    method CheckRollback() returns (r: Option<Exc>, ghost stop: Stop)
      requires Consistent() && OwnNames() && Linked(dir.trace) && !Withdrawn(dir.trace) && published
      modifies dir
      ensures Consistent() && OwnNames() && Watches(dir.candidate, dir.payload, old(dir.trace), dir.trace)
      ensures r.Some? ==> r.value.IsPlain()
      ensures r == None ==>
                LastLook(dir.trace) == Saw(Some(dir.candidate)) && LastHash(dir.trace) == Some(dir.digest(data))
      ensures r == None ==> Faults(dir.trace) == old(Faults(dir.trace))
      ensures Calmly(old(Faults(dir.trace))) ==> r == None
      ensures old(Faults(dir.trace)).Within(Faults(dir.trace))
      ensures r.Some? ==> Explains(stop, old(Faults(dir.trace))) && !stop.CloseRaised? && !stop.UnlinkRaised?
    {
      stop := Displaced;
      var observed := dir.StatDest();
      if LastLook(dir.trace) == LookFailed { stop := LookRaised; }
      if observed.Raise? { return Some(observed.exc), stop; }
      if observed.value.inode != dir.candidate { return Some(CheckFailed), stop; }
      var digest := DigestNamed();
      if digest.Raise? { return Some(digest.exc), DigestRaised; }
      if digest.value != dir.digest(data) { return Some(CheckFailed), Displaced; }
      return None, stop;
    }

    /** The private name is dropped if it is still there. */
    method DropPrivate(original: Exc) returns (r: Exc)
      requires Consistent() && OwnNames() && original.IsPlain()
      modifies dir
      ensures CarefullyContinues(dir.candidate, dir.payload, old(dir.trace), dir.trace)
      ensures Consistent() && OwnNames()
      ensures r.IsPlain() && SameMarks(old(dir.trace), dir.trace)
      ensures Calm() ==> dir.now.names.dest == old(dir.now.names.dest)
      ensures Calmly(old(Faults(dir.trace))) ==> r == original && dir.now.names.temp == None
    {
      var private := dir.LexistsTemp();
      if private.Raise? { return private.exc; }
      if !private.value { return original; }
      r := UnlinkPrivate(original);
    }

    method UnlinkPrivate(original: Exc) returns (r: Exc)
      requires Consistent() && OwnNames() && original.IsPlain()
      modifies dir
      ensures CarefullyContinues(dir.candidate, dir.payload, old(dir.trace), dir.trace)
      ensures Consistent() && OwnNames()
      ensures r.IsPlain() && SameMarks(old(dir.trace), dir.trace)
      ensures Calm() ==> dir.now.names.dest == old(dir.now.names.dest)
      ensures Calmly(old(Faults(dir.trace))) && old(dir.now.names.temp).Some? ==>
                r == original && dir.now.names.temp == None
      ensures Faults(dir.trace) in {old(Faults(dir.trace)), old(Faults(dir.trace)).Plus(PrivateCall)}
      ensures Faults(dir.trace) != old(Faults(dir.trace)) ==> Some(r) == LastFault(dir.trace)
    {
      var dropped := dir.UnlinkTemp(false);
      return if dropped.Raise? then dropped.exc else original;
    }

    /** The published name is rolled back if it is still there. */
    method UndoPublished(original: Exc) returns (r: Exc, ghost stop: Stop)
      requires Consistent() && OwnNames() && Linked(dir.trace) && !Withdrawn(dir.trace) && published
      requires original.IsPlain()
      modifies dir
      ensures CarefullyContinues(dir.candidate, dir.payload, old(dir.trace), dir.trace)
      ensures Consistent() && OwnNames() && Linked(dir.trace)
      ensures r.IsPlain()
      ensures Calmly(old(Faults(dir.trace))) ==> r == original && stop == TakenBack && dir.now.durable == None
      ensures old(Faults(dir.trace)).Within(Faults(dir.trace))
      ensures Explains(stop, old(Faults(dir.trace))) && !stop.CloseRaised?
      ensures stop.UnlinkRaised? && Calm() ==> Some(r) == LastFault(dir.trace)
    {
      var final := dir.LexistsDest();
      stop := if LastLook(dir.trace) == LookFailed then LookRaised else Displaced;
      if final.Raise? { return final.exc, stop; }
      if final.value {
        var undone: Option<Exc>;
        undone, stop := RollbackExact();
        if undone.Some? { return undone.value, stop; }
      }
      return original, stop;
    }

    /** The except block: `original` unless a step of the cleanup raises itself. */
    method GiveUp(original: Exc) returns (r: Exc, ghost stop: Stop)
      requires Consistent() && OwnNames() && !Withdrawn(dir.trace) && original.IsPlain()
      modifies dir
      ensures CarefullyContinues(dir.candidate, dir.payload, old(dir.trace), dir.trace)
      ensures Consistent() && OwnNames()
      ensures r.IsPlain()
      ensures Linked(dir.trace) == old(Linked(dir.trace))
      ensures Calm() && !Linked(dir.trace) ==> dir.now.names.dest == old(dir.now.names.dest)
      ensures !published ==> !Withdrawn(dir.trace)
      ensures Calmly(old(Faults(dir.trace))) ==>
                && r == original
                && if published then stop == TakenBack && dir.now.durable == None else dir.now.names.temp == None
      ensures Explains(stop, old(Faults(dir.trace)))
    {
      stop := if !Linked(dir.trace) then NotLinked else if !published then LinkRaised else CloseRaised;
      if descriptor {
        var closed := dir.Elsewhere();
        if closed.Raise? { return closed.exc, stop; }
      }
      r, stop := Undo(original);
    }

    /** The private name goes if nothing was published, else the published one. */
    method Undo(original: Exc) returns (r: Exc, ghost stop: Stop)
      requires Consistent() && OwnNames() && !Withdrawn(dir.trace) && original.IsPlain()
      modifies dir
      ensures CarefullyContinues(dir.candidate, dir.payload, old(dir.trace), dir.trace)
      ensures Consistent() && OwnNames()
      ensures r.IsPlain()
      ensures Linked(dir.trace) == old(Linked(dir.trace))
      ensures Calm() && !Linked(dir.trace) ==> dir.now.names.dest == old(dir.now.names.dest)
      ensures !published ==> !Withdrawn(dir.trace)
      ensures Calmly(old(Faults(dir.trace))) ==>
                && r == original
                && if published then stop == TakenBack && dir.now.durable == None else dir.now.names.temp == None
      ensures Explains(stop, old(Faults(dir.trace))) && !stop.CloseRaised?
    {
      stop := if Linked(dir.trace) then LinkRaised else NotLinked;
      if !published {
        r := DropPrivate(original);
      } else {
        r, stop := UndoPublished(original);
      }
    }

    /** _publish_no_replace of the recovery tool. `None` is the normal return. In a
        run without rivals an error exit leaves the record public exactly when the
        link raised late, or a close, a lookup, the digest or the removal failed in
        the cleanup after a link that had returned. */
    method Publish() returns (exit: Option<Exc>, ghost stop: Stop)
      requires Consistent() && dir.trace.Origin? && !published && !descriptor
      modifies dir, this
      ensures Consistent() && OwnNames()
      ensures exit.Some? ==> exit.value.IsPlain()
      ensures exit == None ==> published && Confirmed() && !Withdrawn(dir.trace)
      ensures !published ==> !Withdrawn(dir.trace)
      ensures exit.Some? ==> Explains(stop, NO_FAULTS)
      ensures exit.Some? && Calm() ==> (dir.now.names.dest == Some(dir.candidate) <==> stop.LeavesPublic())
      ensures exit.Some? && Calm() && stop.LeavesPublic() ==>
                Faults(dir.trace).link > 0 || Faults(dir.trace).Total() >= 2
      ensures exit.Some? && Calm() ==>
                (dir.now.names.dest == Some(dir.candidate) <==> Linked(dir.trace) && !Withdrawn(dir.trace))
      ensures Calm() && exit == None ==>
                dir.now.names.dest == Some(dir.candidate) == dir.now.durable && dir.now.names.temp == None
      ensures Calm() && !Linked(dir.trace) ==> dir.now.names.dest == old(dir.now.names.dest)
      ensures Undisturbed() ==>
                if 1 < |data| <= maximum && old(dir.now.names.dest) == None && old(dir.now.names.temp) == None
                then exit == None
                else exit == Some(CheckFailed) && dir.now == old(dir.now)
    {
      stop := NotLinked;
      if |data| <= 1 || |data| > maximum { return Some(CheckFailed), stop; }
      exit := RequireFree();
      if exit.Some? { return; }
      var made := dir.CreateTemp(RECORD_MODE);
      if made.Raise? { return Some(made.exc), stop; }
      descriptor := true;
      exit, stop := TryOrGiveUp();
    }

    /** From the new private file on: the try block and its except block. */
    method TryOrGiveUp() returns (exit: Option<Exc>, ghost stop: Stop)
      requires Consistent() && OwnNames() && !Linked(dir.trace) && !Withdrawn(dir.trace) && !published && descriptor
      requires dir.now.file.created && dir.now.file.content == [] && dir.now.file.mode == RECORD_MODE
      requires Calm() ==> dir.now.names.temp == Some(dir.candidate) && dir.now.names.dest != Some(dir.candidate)
      modifies dir, this`published, this`descriptor
      ensures CarefullyContinues(dir.candidate, dir.payload, old(dir.trace), dir.trace)
      ensures Consistent() && OwnNames()
      ensures exit.Some? ==> exit.value.IsPlain() && Explains(stop, old(Faults(dir.trace)))
      ensures exit == None ==> published && Confirmed() && !Withdrawn(dir.trace)
      ensures !published ==> !Withdrawn(dir.trace)
      ensures exit.Some? && Calm() ==> (dir.now.names.dest == Some(dir.candidate) <==> stop.LeavesPublic())
      ensures exit.Some? && Calm() && stop.LeavesPublic() ==>
                Faults(dir.trace).link > 0 || Faults(dir.trace).Total() >= 2
      ensures Calm() && exit == None ==>
                dir.now.names.dest == Some(dir.candidate) == dir.now.durable && dir.now.names.temp == None
      ensures Calm() && !Linked(dir.trace) ==> dir.now.names.dest == old(dir.now.names.dest)
      ensures Undisturbed() && old(dir.now.names.dest) == None ==> exit == None
    {
      stop := NotLinked;
      exit := Prepare();
      if exit == None { exit := LinkAndConfirm(); }
      if exit.Some? {
        var failure: Exc;
        failure, stop := GiveUp(exit.value);
        exit := Some(failure);
      }
    }

    /** execute_recovery: publish, then keep the record only if the contract check
        of the whole evidence set, here an arbitrary answer, accepts it. */
    method Execute(accepted: bool) returns (exit: Option<Exc>, ghost stop: Stop)
      requires Consistent() && dir.trace.Origin? && !published && !descriptor
      modifies dir, this
      ensures Consistent()
      ensures exit.Some? ==> exit.value.IsPlain()
      ensures exit == None ==> accepted && Confirmed() && !Withdrawn(dir.trace)
      ensures exit.Some? ==> Explains(stop, NO_FAULTS)
      ensures exit.Some? && Calm() ==> (dir.now.names.dest == Some(dir.candidate) <==> stop.LeavesPublic())
      ensures exit.Some? && Calm() && accepted && stop.LeavesPublic() ==>
                Faults(dir.trace).link > 0 || Faults(dir.trace).Total() >= 2
      ensures Undisturbed() ==>
                if accepted && 1 < |data| <= maximum
                   && old(dir.now.names.dest) == None && old(dir.now.names.temp) == None
                then exit == None && dir.now.names.dest == Some(dir.candidate) == dir.now.durable
                else exit == Some(CheckFailed) && dir.now.names.dest == old(dir.now.names.dest)
                     && dir.now.names.temp == old(dir.now.names.temp)
    {
      exit, stop := Publish();
      if exit == None && !accepted {
        exit, stop := RollbackExact();
        if exit == None { exit := Some(CheckFailed); }
      }
    }
  }
}
