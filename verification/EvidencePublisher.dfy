/**
 * The runner's publication of one immutable JSON record, and its exact-inode
 * removal. It follows the same link protocol as the args writer but never takes
 * a published name back, and keeps whatever private name it could not drop.
 */
module EvidencePublisher {
  import opened Wrappers
  import opened DirectoryTraces
  import opened FaultyDirectory

  const EVIDENCE_MODE: nat := 0x124   // 0o444
  const WRITE_CHUNK: nat := 4096

  predicate Immutable(mode: nat) { mode == EVIDENCE_MODE }

  datatype Evidence = Evidence(inode: Inode, digest: int)

  class Publisher {
    const dir: Directory
    const data: Bytes
    const maximum: nat
    var descriptor: bool
    var published: bool

    constructor (dir: Directory, data: Bytes, maximum: nat)
      requires dir.Valid() && dir.payload == data && dir.trace.Origin? && !dir.now.file.created
      ensures this.dir == dir && this.data == data && this.maximum == maximum
      ensures Consistent() && !descriptor && !published
    {
      this.dir, this.data, this.maximum := dir, data, maximum;
      descriptor, published := false, false;
    }

    ghost predicate Consistent()
      reads this, dir
    {
      && dir.Valid() && dir.payload == data
      && Disciplined(dir.candidate, dir.payload, dir.trace)
      && !Withdrawn(dir.trace)
      && (published ==> Linked(dir.trace) && dir.now.file.created)
      && (Linked(dir.trace) ==> dir.now.file.created && dir.now.file.content == data && dir.now.file.flushed)
    }

    ghost predicate Calm()
      reads dir
    {
      !Disturbed(dir.trace)
    }

    ghost predicate Undisturbed()
      reads dir
    {
      !Disturbed(dir.trace) && !Faulted(dir.trace)
    }

    /** No rival has acted, and no call has failed since there were `before` failures. */
    ghost predicate Calmly(before: Tally)
      reads dir
    {
      Calm() && Faults(dir.trace) == before
    }

    /** Since there were `before` failures, only calls on the private name have failed. */
    ghost predicate OnlyPrivately(before: Tally)
      reads dir
    {
      Calm() && Faults(dir.trace) == before.(private := Faults(dir.trace).private)
    }

    /** The names once the link is made and no rival acted. */
    ghost predicate Public()
      reads dir
    {
      dir.now.names.dest == Some(dir.candidate) && dir.now.names.hidden == 0 &&
      (dir.now.names.temp == None || dir.now.names.temp == Some(dir.candidate))
    }

    /** Both names are free; a lookup that fails counts as free. */
    method RequireFree() returns (r: Option<Exc>)
      requires dir.Valid()
      modifies dir
      ensures dir.Valid() && Watches(dir.candidate, dir.payload, old(dir.trace), dir.trace)
      ensures r.Some? ==> r.value.IsPlain()
      ensures Calmly(old(Faults(dir.trace))) ==>
                r == if dir.now.names.dest == None && dir.now.names.temp == None then None else Some(CheckFailed)
      ensures r == None && Faults(dir.trace) == old(Faults(dir.trace)) ==>
                LastLook(dir.trace) == Saw(None) && dir.now.names.temp == None
      ensures OnlyPrivately(old(Faults(dir.trace))) && dir.now.names.dest == None && dir.now.names.temp == None ==>
                r == None || r == Some(Interrupt)
      ensures old(Faults(dir.trace)).Within(Faults(dir.trace))
    {
      var final := dir.LexistsDest();
      if final.Raise? { return Some(final.exc); }
      if final.value { return Some(CheckFailed); }
      var private := dir.LexistsTemp();
      if private.Raise? { return Some(private.exc); }
      return if private.value then Some(CheckFailed) else None;
    }

    /** Write, flush and measure the private file. */
    method Prepare() returns (r: Option<Exc>)
      requires Consistent() && !Linked(dir.trace) && !dir.now.file.created && !published && !descriptor
      modifies dir, this`descriptor
      ensures Continues(dir.candidate, dir.payload, old(dir.trace), dir.trace)
      ensures Consistent() && SameMarks(old(dir.trace), dir.trace)
      ensures r.Some? ==> r.value.IsPlain()
      ensures r == None ==>
                dir.now.file.created && dir.now.file.content == data && dir.now.file.flushed
                && dir.now.file.mode == EVIDENCE_MODE
      ensures Calm() ==>
                dir.now.names.dest == old(dir.now.names.dest) && dir.now.names.hidden == old(dir.now.names.hidden)
      ensures Calm() && dir.now.file.created ==> dir.now.names.temp == Some(dir.candidate)
      ensures r == None ==> descriptor && Faults(dir.trace) == old(Faults(dir.trace))
      ensures r.Some? && Calm() && old(dir.now.names.temp) == None ==>
                Faults(dir.trace).other > old(Faults(dir.trace)).other
      ensures old(Faults(dir.trace)).Within(Faults(dir.trace))
    {
      var made := dir.CreateTemp(EVIDENCE_MODE);
      if made.Raise? { return Some(made.exc); }
      descriptor := true;
      r := dir.WriteAll(data, WRITE_CHUNK);
      if r.Some? { return; }
      var flushed := dir.FlushFile();
      if flushed.Raise? { return Some(flushed.exc); }
      var measured := dir.StatPinned(dir.candidate);
      if measured.Raise? { return Some(measured.exc); }
    }

    /** What measuring the candidate now would give. A link or an unlink shows in its
        link count, as it does in the change time that the runner compares. */
    ghost function Measured(): Stat
      reads dir
    {
      Stat(dir.candidate, Links(dir.candidate, dir.now), |dir.now.file.content|, dir.now.file.mode)
    }

    /** _unlink_exact on the private name, whose file must measure as `expected`. */
    method UnlinkExactTemp(expected: Stat) returns (r: Option<Exc>)
      requires Consistent() && Linked(dir.trace) && expected.inode == dir.candidate
      modifies dir
      ensures Continues(dir.candidate, dir.payload, old(dir.trace), dir.trace)
      ensures Consistent() && Linked(dir.trace)
      ensures r.Some? ==> r.value.IsPlain()
      ensures Calm() && old(Public()) ==> Public()
      ensures dir.now.file.mode == old(dir.now.file.mode)
      ensures r == None ==> Faults(dir.trace) == old(Faults(dir.trace))
      ensures r == None && Calm() ==> dir.now.names.temp == None
      ensures r == None && Calm() ==> expected == old(Measured())
      ensures Calmly(old(Faults(dir.trace))) && old(dir.now.names.temp) == Some(dir.candidate)
              && expected == old(Measured())
              ==> r == None
      ensures r == None ==> NamesOnDisk(dir.trace)
      ensures old(Faults(dir.trace)).Within(Faults(dir.trace))
      ensures Faults(dir.trace) != old(Faults(dir.trace)) ==> r.Some? && r == LastFault(dir.trace)
      ensures r == Some(Interrupt) ==> Faults(dir.trace) != old(Faults(dir.trace))
    {
      var parent := dir.Elsewhere();
      if parent.Raise? { return Some(parent.exc); }
      r := DropChecked(expected);
      var closed := dir.Elsewhere();
      if closed.Raise? { return Some(closed.exc); }
    }

    /** Drop the private name if it can be dropped: only an interruption is passed on. */
    method TryToDrop(expected: Stat) returns (r: Option<Exc>)
      requires Consistent() && Linked(dir.trace) && expected.inode == dir.candidate
      modifies dir
      ensures Continues(dir.candidate, dir.payload, old(dir.trace), dir.trace)
      ensures Consistent() && Linked(dir.trace)
      ensures Calm() && old(Public()) ==> Public()
      ensures dir.now.file.mode == old(dir.now.file.mode)
      ensures r == None || r == Some(Interrupt)
      ensures r.Some? <==> Faults(dir.trace) != old(Faults(dir.trace)) && LastFault(dir.trace) == Some(Interrupt)
      ensures old(Faults(dir.trace)).Within(Faults(dir.trace))
      ensures Calmly(old(Faults(dir.trace))) && old(dir.now.names.temp) == Some(dir.candidate)
              && expected == old(Measured())
              ==> dir.now.names.temp == None
    {
      r := UnlinkExactTemp(expected);
      if r.Some? && !r.value.Interrupt? { r := None; }
    }

    /** Two equal measurements through the private name, and an open between them that
        leads to the same inode, then the removal. */
    method DropChecked(expected: Stat) returns (r: Option<Exc>)
      requires Consistent() && Linked(dir.trace) && expected.inode == dir.candidate
      modifies dir
      ensures Continues(dir.candidate, dir.payload, old(dir.trace), dir.trace)
      ensures Consistent() && Linked(dir.trace)
      ensures r.Some? ==> r.value.IsPlain()
      ensures Calm() && old(Public()) ==> Public()
      ensures dir.now.file.mode == old(dir.now.file.mode)
      ensures r == None ==> Faults(dir.trace) == old(Faults(dir.trace))
      ensures r == None && Calm() ==> dir.now.names.temp == None
      ensures r == None && Calm() ==> expected == old(Measured())
      ensures Calmly(old(Faults(dir.trace))) && old(dir.now.names.temp) == Some(dir.candidate)
              && expected == old(Measured())
              ==> r == None
      ensures r == None ==> NamesOnDisk(dir.trace)
      ensures old(Faults(dir.trace)).Within(Faults(dir.trace))
      ensures Faults(dir.trace) != old(Faults(dir.trace)) ==> r.Some? && r == LastFault(dir.trace)
      ensures r == Some(Interrupt) ==> Faults(dir.trace) != old(Faults(dir.trace))
    {
      r := CheckPrivate(expected);
      if r.Some? { return; }
      var dropped := dir.UnlinkTemp(true);
      if dropped.Raise? { return Some(dropped.exc); }
      var flushed := dir.FlushDirectory();
      if flushed.Raise? { return Some(flushed.exc); }
      return None;
    }

    /** The two measurements and the open between them. */
    method CheckPrivate(expected: Stat) returns (r: Option<Exc>)
      requires dir.Valid()
      modifies dir
      ensures dir.Valid() && Observes(dir.candidate, dir.payload, old(dir.trace), dir.trace)
      ensures r.Some? ==> r.value.IsPlain()
      ensures r == None ==> dir.now.names.temp == Some(expected.inode)
      ensures r == None && expected.inode == dir.candidate ==> expected == Measured()
      ensures r == None ==> Faults(dir.trace) == old(Faults(dir.trace))
      ensures Calmly(old(Faults(dir.trace))) && dir.now.names.temp == Some(dir.candidate) && expected == Measured() ==>
                r == None
      ensures old(Faults(dir.trace)).Within(Faults(dir.trace))
      ensures Faults(dir.trace) != old(Faults(dir.trace)) ==> r.Some? && r == LastFault(dir.trace)
      ensures r == Some(Interrupt) ==> Faults(dir.trace) != old(Faults(dir.trace))
    {
      var current := dir.StatTemp();
      if current.Raise? { return Some(current.exc); }
      if current.value != expected { return Some(CheckFailed); }
      var pinned := dir.StatTemp();
      if pinned.Raise? { return Some(pinned.exc); }
      if pinned.value.inode != expected.inode { return Some(CheckFailed); }
      var final := dir.StatTemp();
      if final.Raise? { return Some(final.exc); }
      if final.value != expected { return Some(CheckFailed); }
      return None;
    }

    /** Open, flush and close the parent directory. */
    method FsyncDirectory() returns (r: Option<Exc>)
      requires Consistent()
      modifies dir
      ensures Continues(dir.candidate, dir.payload, old(dir.trace), dir.trace)
      ensures Consistent() && Linked(dir.trace) == old(Linked(dir.trace))
      ensures r.Some? ==> r.value.IsPlain()
      ensures dir.now.file == old(dir.now.file)
      ensures Calm() ==> dir.now.names == old(dir.now.names)
      ensures r == None && Calm() ==> dir.now.durable == dir.now.names.dest
      ensures r == None ==> Faults(dir.trace) == old(Faults(dir.trace))
      ensures r == None && old(Linked(dir.trace)) ==> Sealed(dir.trace)
      ensures r == None ==> NamesOnDisk(dir.trace)
      ensures r.Some? ==> Faults(dir.trace).other > old(Faults(dir.trace)).other
      ensures old(Faults(dir.trace)).Within(Faults(dir.trace))
      ensures r == None ==> LastFault(dir.trace) == old(LastFault(dir.trace))
    {
      var reached := dir.Elsewhere();
      if reached.Raise? { return Some(reached.exc); }
      var flushed := dir.FlushDirectory();
      var closed := dir.Elsewhere();
      if closed.Raise? { return Some(closed.exc); }
      if flushed.Raise? { return Some(flushed.exc); }
      return None;
    }

    /** Since there were `before` failures, a call has failed that was not on the private name. */
    ghost predicate Stumbled(before: Tally)
      reads dir
    {
      var faults := Faults(dir.trace);
      faults.link > before.link || faults.look > before.look || faults.other > before.other
    }

    /** Hash the final name through a descriptor and require it to be the record. */
    method SnapshotFinal() returns (r: Result<Evidence>)
      requires Consistent() && Linked(dir.trace)
      modifies dir
      ensures Consistent() && Watches(dir.candidate, dir.payload, old(dir.trace), dir.trace)
      ensures r.Raise? ==> r.exc.IsPlain()
      ensures r.Ok? ==>
                r.value == Evidence(dir.candidate, dir.digest(data)) && LastLook(dir.trace) == Saw(Some(dir.candidate))
      ensures r.Ok? ==> Immutable(dir.now.file.mode)
      ensures r.Ok? ==> Faults(dir.trace) == old(Faults(dir.trace))
      ensures r.Ok? ==> |data| <= maximum
      ensures old(Faults(dir.trace)).Within(Faults(dir.trace))
      ensures r.Raise? && Calm() && dir.now.names.dest == Some(dir.candidate)
              && dir.now.file.mode == EVIDENCE_MODE && |data| <= maximum
              ==> Stumbled(old(Faults(dir.trace)))
      ensures r.Ok? ==> LastFault(dir.trace) == old(LastFault(dir.trace))
    {
      var pinned := dir.OpenDest();
      if pinned.Raise? { return Raise(pinned.exc); }
      var before := dir.StatPinned(pinned.value);
      if before.Raise? { return Raise(before.exc); }
      if before.value.size > maximum { return Raise(CheckFailed); }
      var digest := dir.DigestPinned(pinned.value);
      if digest.Raise? { return Raise(digest.exc); }
      var after := dir.StatPinned(pinned.value);
      if after.Raise? { return Raise(after.exc); }
      var named := dir.StatDest();
      if named.Raise? { return Raise(named.exc); }
      if after.value != before.value || named.value != after.value || after.value.inode != dir.candidate
         || digest.value != dir.digest(data) || !Immutable(after.value.mode) {
        return Raise(CheckFailed);
      }
      return Ok(Evidence(after.value.inode, digest.value));
    }

    /** The steps from the link on. */
    method LinkAndConfirm() returns (r: Result<Evidence>)
      requires Consistent() && !Linked(dir.trace) && !published && descriptor
      requires dir.now.file.created && dir.now.file.content == data && dir.now.file.flushed
      requires dir.now.file.mode == EVIDENCE_MODE
      requires Calm() ==> dir.now.names.temp == Some(dir.candidate) && dir.now.names.hidden == 0
      modifies dir, this`published, this`descriptor
      ensures Continues(dir.candidate, dir.payload, old(dir.trace), dir.trace)
      ensures Consistent()
      ensures r.Raise? ==> r.exc.IsPlain() && (!published ==> !r.exc.Exists?)
      ensures r.Ok? ==> Confirmed(r.value)
      ensures Calm() && Linked(dir.trace) ==> Public()
      ensures Calm() && !Linked(dir.trace) ==> dir.now == old(dir.now)
      ensures r.Ok? && Calm() ==> dir.now.durable == Some(dir.candidate)
      ensures Calmly(old(Faults(dir.trace))) && old(dir.now.names.dest) == None && |data| <= maximum ==>
                r.Ok? && dir.now.names.temp == None
      ensures r.Raise? && Calm() && old(dir.now.names.dest) == None && |data| <= maximum ==>
                r == Raise(Interrupt) || Stumbled(old(Faults(dir.trace)))
      ensures r.Raise? && Calm() && published && |data| <= maximum ==>
                Faults(dir.trace).Total() > old(Faults(dir.trace)).Total()
      ensures old(Faults(dir.trace)).Within(Faults(dir.trace))
      ensures r.Ok? && Faults(dir.trace) != old(Faults(dir.trace)) ==> LastFault(dir.trace) != Some(Interrupt)
    {
      var linked := dir.LinkTemp();
      if linked.Raise? { return Raise(if linked.exc.Exists? then CheckFailed else linked.exc); }
      published := true;
      r := ConfirmLinked();
    }

    /** The steps after a link that returned. */
    method ConfirmLinked() returns (r: Result<Evidence>)
      requires Consistent() && Linked(dir.trace) && published && descriptor && dir.now.file.mode == EVIDENCE_MODE
      requires Calm() ==> Public() && dir.now.names.temp == Some(dir.candidate)
      modifies dir, this`descriptor
      ensures Continues(dir.candidate, dir.payload, old(dir.trace), dir.trace)
      ensures Consistent() && Linked(dir.trace)
      ensures r.Raise? ==> r.exc.IsPlain()
      ensures r.Ok? ==> Confirmed(r.value)
      ensures Calm() ==> Public()
      ensures r.Ok? && Calm() ==> dir.now.durable == Some(dir.candidate)
      ensures Calmly(old(Faults(dir.trace))) && |data| <= maximum ==> r.Ok? && dir.now.names.temp == None
      ensures r.Raise? && Calm() && |data| <= maximum ==>
                (r == Raise(Interrupt) || Stumbled(old(Faults(dir.trace))))
                && Faults(dir.trace).Total() > old(Faults(dir.trace)).Total()
      ensures old(Faults(dir.trace)).Within(Faults(dir.trace))
      ensures r.Ok? && Faults(dir.trace) != old(Faults(dir.trace)) ==> LastFault(dir.trace) != Some(Interrupt)
    {
      var measured := dir.StatPinned(dir.candidate);
      if measured.Raise? { return Raise(measured.exc); }
      var closed := dir.Elsewhere();
      if closed.Raise? { return Raise(closed.exc); }
      descriptor := false;
      var interrupted := TryToDrop(measured.value);
      if interrupted.Some? { return Raise(interrupted.value); }
      var flushed := FsyncDirectory();
      if flushed.Some? { return Raise(flushed.value); }
      r := SnapshotBoth();
    }

    /** The record as its physical and its logical path lead to it. */
    method SnapshotBoth() returns (r: Result<Evidence>)
      requires Consistent() && Linked(dir.trace)
      modifies dir
      ensures Consistent() && Watches(dir.candidate, dir.payload, old(dir.trace), dir.trace)
      ensures r.Raise? ==> r.exc.IsPlain()
      ensures r.Ok? ==>
                r.value == Evidence(dir.candidate, dir.digest(data)) && LastLook(dir.trace) == Saw(Some(dir.candidate))
      ensures r.Ok? ==> Immutable(dir.now.file.mode) && |data| <= maximum
      ensures r.Ok? ==> Faults(dir.trace) == old(Faults(dir.trace))
      ensures old(Faults(dir.trace)).Within(Faults(dir.trace))
      ensures r.Raise? && Calm() && dir.now.names.dest == Some(dir.candidate)
              && dir.now.file.mode == EVIDENCE_MODE && |data| <= maximum
              ==> Stumbled(old(Faults(dir.trace)))
      ensures r.Ok? ==> LastFault(dir.trace) == old(LastFault(dir.trace))
    {
      var physical := SnapshotFinal();
      if physical.Raise? { return physical; }
      r := SnapshotFinal();
    }

    /** What a returned record is worth: sealed, whole, immutable, and found under
        the final name by the last lookup. */
    ghost predicate Confirmed(evidence: Evidence)
      reads this, dir
    {
      && evidence == Evidence(dir.candidate, dir.digest(data))
      && Sealed(dir.trace) && NamesOnDisk(dir.trace) && dir.now.file.content == data && Immutable(dir.now.file.mode)
      && LastLook(dir.trace) == Saw(Some(dir.candidate))
    }

    /** _publish_json_no_replace. */
    method Publish() returns (r: Result<Evidence>)
      requires Consistent() && dir.trace.Origin? && !published && !descriptor
      modifies dir, this
      ensures dir.Valid() && Disciplined(dir.candidate, dir.payload, dir.trace)
      ensures !Withdrawn(dir.trace)
      ensures r.Raise? ==> r.exc.IsPlain()
      ensures r.Ok? ==> Confirmed(r.value)
      // without rivals, whatever fails, the final name is as it was or is the record
      ensures Calm() ==> if Linked(dir.trace) then Public() && dir.now.file.content == data && dir.now.file.flushed
                         else dir.now.names.dest == old(dir.now.names.dest)
      // a private file that was not linked is never dropped
      ensures Calm() && dir.now.file.created && !Linked(dir.trace) ==> dir.now.names.temp == Some(dir.candidate)
      ensures Calm() && r.Ok? ==> dir.now.durable == Some(dir.candidate)
      // a published record is on disk unless two calls fail
      ensures Calm() && published && dir.now.durable != Some(dir.candidate) ==> Faults(dir.trace).Total() >= 2
      // a private name that cannot be dropped does not spoil the record
      ensures OnlyPrivately(NO_FAULTS) && 1 < |data| <= maximum
              && old(dir.now.names.dest) == None && old(dir.now.names.temp) == None
              ==> r.Ok? || r == Raise(Interrupt)
      ensures Undisturbed() ==>
                if 1 < |data| <= maximum && old(dir.now.names.dest) == None && old(dir.now.names.temp) == None
                then r.Ok? && dir.now.names.temp == None
                else r == Raise(CheckFailed) && dir.now == old(dir.now)
    {
      if |data| <= 1 || |data| > maximum { return Raise(CheckFailed); }
      var free := RequireFree();
      if free.Some? { return Raise(free.value); }
      r := TryOrGiveUp();
    }

    /** From the private file on: the steps in order, and the except block. */
    method TryOrGiveUp() returns (r: Result<Evidence>)
      requires Consistent() && !Linked(dir.trace) && !dir.now.file.created && !published && !descriptor
      requires Calm() ==> dir.now.names.dest != Some(dir.candidate) && dir.now.names.hidden == 0
      modifies dir, this`published, this`descriptor
      ensures Continues(dir.candidate, dir.payload, old(dir.trace), dir.trace)
      ensures Consistent()
      ensures r.Raise? ==> r.exc.IsPlain()
      ensures r.Ok? ==> Confirmed(r.value)
      ensures Calm() ==> if Linked(dir.trace) then Public() else dir.now.names.dest == old(dir.now.names.dest)
      ensures Calm() && dir.now.file.created && !Linked(dir.trace) ==> dir.now.names.temp == Some(dir.candidate)
      ensures Calm() && r.Ok? ==> dir.now.durable == Some(dir.candidate)
      ensures Calm() && published && dir.now.durable != Some(dir.candidate) && |data| <= maximum ==>
                Faults(dir.trace).Total() >= 2
      ensures old(Faults(dir.trace)).Within(Faults(dir.trace))
      ensures Calm() && old(dir.now.names.dest) == None && old(dir.now.names.temp) == None && |data| <= maximum ==>
                r.Ok? || r == Raise(Interrupt) || Stumbled(old(Faults(dir.trace)))
      ensures Calmly(old(Faults(dir.trace))) && old(dir.now.names.dest) == None && old(dir.now.names.temp) == None
              && |data| <= maximum
              ==> r.Ok? && dir.now.names.temp == None
    {
      var prepared := Prepare();
      if prepared.Some? {
        r := Raise(prepared.value);
      } else {
        r := LinkAndConfirm();
      }
      if r.Raise? {
        var failure := GiveUp();
        if failure.Some? { return Raise(failure.value); }
      }
    }

    /** The except block: close, make a published name durable, keep everything. */
    method GiveUp() returns (r: Option<Exc>)
      requires Consistent()
      modifies dir
      ensures Continues(dir.candidate, dir.payload, old(dir.trace), dir.trace)
      ensures Consistent() && Linked(dir.trace) == old(Linked(dir.trace))
      ensures r.Some? ==> r.value.IsPlain()
      ensures dir.now.file == old(dir.now.file)
      ensures Calm() ==> dir.now.names == old(dir.now.names)
      ensures Calmly(old(Faults(dir.trace))) ==> r == None
      ensures r.Some? ==> Faults(dir.trace).other > old(Faults(dir.trace)).other
      ensures old(Faults(dir.trace)).Within(Faults(dir.trace))
      ensures r == None && published ==> Sealed(dir.trace) && NamesOnDisk(dir.trace)
      ensures r == None && published && Calm() ==> dir.now.durable == dir.now.names.dest
      ensures !published ==> dir.now == old(dir.now)
    {
      r := None;
      if descriptor {
        var closed := dir.Elsewhere();
        if closed.Raise? { return Some(closed.exc); }
      }
      if published { r := FsyncDirectory(); }
    }
  }
}
