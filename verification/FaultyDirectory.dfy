/**
 * The directory that the publishers work on.
 *
 * Every system call first lets rivals act on the names, may then fail with or
 * without having taken effect, and leaves one or more steps in a ghost trace.
 * Rivals may bind or unbind both names and add or drop hard links to the
 * candidate elsewhere; they never write to the candidate, which only the
 * publisher holds open for writing.
 */
module FaultyDirectory {
  import opened Wrappers
  import opened DirectoryTraces

  lemma AppendSlice(data: Bytes, start: nat, end: nat, count: nat)
    requires start <= end <= |data| && count <= end - start
    ensures data[..start] + data[start..end][..count] == data[..start + count]
  {
  }

  class Directory {
    const candidate: Inode
    const digest: Bytes -> int
    ghost const payload: Bytes     // what the publisher means to publish
    var now: Snapshot
    ghost var trace: Trace

    ghost predicate Valid()
      reads this
    {
      now == Now(trace) && (now.file.created || Uncreated(candidate, now))
    }

    /** A directory in which `candidate` is not yet an inode. */
    constructor (candidate: Inode, digest: Bytes -> int, names: Names, ghost payload: Bytes)
      requires names.dest != Some(candidate) && names.temp != Some(candidate) && names.hidden == 0
      ensures Valid() && trace == Origin(now) && now.names == names && !now.file.created
      ensures this.candidate == candidate && this.digest == digest && this.payload == payload
      ensures Disciplined(candidate, payload, trace)
    {
      this.candidate, this.digest, this.payload := candidate, digest, payload;
      var start := Snapshot(names, File(false, [], 0, false), None);
      now, trace := start, Origin(start);
    }

    /** Performs one step and records it. */
    method Take(ghost action: Action, after: Snapshot)
      requires Valid()
      requires Possible(candidate, now, action, after)
      modifies this
      ensures Valid() && now == after && trace == Then(old(trace), action, after)
    {
      trace := Then(trace, action, after);
      now := after;
    }

    /** Rivals act, or nobody does. */
    method Interfere()
      requires Valid()
      modifies this
      ensures Valid() && trace == Then(old(trace), Action.Interfere, now)
      ensures Observes(candidate, payload, old(trace), trace)
      ensures Faults(trace) == Faults(old(trace))
    {
      var dest: Option<Inode>, temp: Option<Inode>, hidden: nat := *, *, *;
      if !now.file.created && !(dest != Some(candidate) && temp != Some(candidate) && hidden == 0) {
        dest, temp, hidden := now.names.dest, now.names.temp, now.names.hidden;
      }
      Take(Action.Interfere, now.(names := Names(dest, temp, hidden)));
    }

    /** A call fails without having looked at or changed anything. */
    method Fail(ghost call: Call) returns (exc: Exc)
      requires Valid()
      modifies this
      ensures exc.OtherOs? || exc.Interrupt?
      ensures Valid() && now == old(now) && trace == Then(old(trace), Action.Fault(call, exc), now)
      ensures Observes(candidate, payload, old(trace), trace)
      ensures Faults(trace) == old(Faults(trace)).Plus(call)
    {
      var interrupted: bool := *;
      exc := if interrupted then Exc.Interrupt else Exc.OtherOs;
      Take(Action.Fault(call, exc), now);
    }

    /** open, close, lstat of the parent: calls that touch no name of this model. */
    method Elsewhere() returns (r: Result<()>)
      requires Valid()
      modifies this
      ensures Valid() && now == old(now)
      ensures Observes(candidate, payload, old(trace), trace)
      ensures r.Raise? ==> Faults(trace) == old(Faults(trace)).Plus(OtherCall) && (r.exc.OtherOs? || r.exc.Interrupt?)
      ensures r.Ok? ==> Faults(trace) == old(Faults(trace))
      ensures LastHash(trace) == old(LastHash(trace))
      ensures LastFault(trace) == if r.Raise? then Some(r.exc) else old(LastFault(trace))
    {
      if * {
        var exc := Fail(OtherCall);
        r := Raise(exc);
      } else {
        r := Ok(());
      }
    }

    function StatOf(inode: Inode, other: Stat): Stat
      reads this
    {
      if inode == candidate then Stat(inode, Links(candidate, now), |now.file.content|, now.file.mode)
      else other.(inode := inode)
    }

    method StatDest() returns (r: Result<Stat>)
      requires Valid()
      modifies this
      ensures Valid() && Watches(candidate, payload, old(trace), trace)
      ensures LastLook(trace) == if r.Ok? || r.exc.NotFound? then Saw(now.names.dest) else LookFailed
      ensures r.Ok? ==> now.names.dest == Some(r.value.inode)
      ensures r.Ok? && r.value.inode == candidate ==>
                r.value == Stat(candidate, Links(candidate, now), |now.file.content|, now.file.mode)
      ensures r.Raise? && r.exc.NotFound? ==> now.names.dest == None
      ensures r.Raise? && !r.exc.NotFound? ==>
                && Faults(trace) == old(Faults(trace)).Plus(LookCall) && (r.exc.OtherOs? || r.exc.Interrupt?)
                && LastFault(trace) == Some(r.exc)
      ensures r.Ok? || r.exc.NotFound? ==> Faults(trace) == old(Faults(trace))
      ensures r.Ok? ==> LastFault(trace) == old(LastFault(trace))
    {
      Interfere();
      var other: Stat := *;
      if * {
        var exc := Fail(LookCall);
        Take(Action.LookDest(false), now);
        r := Raise(exc);
      } else {
        Take(Action.LookDest(true), now);
        match now.names.dest
        case None => r := Raise(Exc.NotFound);
        case Some(inode) => r := Ok(StatOf(inode, other));
      }
    }

    method StatTemp() returns (r: Result<Stat>)
      requires Valid()
      modifies this
      ensures Valid() && Observes(candidate, payload, old(trace), trace)
      ensures r.Ok? ==> now.names.temp == Some(r.value.inode)
      ensures r.Ok? && r.value.inode == candidate ==>
                r.value == Stat(candidate, Links(candidate, now), |now.file.content|, now.file.mode)
      ensures r.Raise? && r.exc.NotFound? ==> now.names.temp == None
      ensures r.Raise? && !r.exc.NotFound? ==>
                && Faults(trace) == old(Faults(trace)).Plus(PrivateCall) && (r.exc.OtherOs? || r.exc.Interrupt?)
                && LastFault(trace) == Some(r.exc)
      ensures r.Ok? || r.exc.NotFound? ==> Faults(trace) == old(Faults(trace))
    {
      Interfere();
      var other: Stat := *;
      if * {
        var exc := Fail(PrivateCall);
        r := Raise(exc);
      } else {
        match now.names.temp
        case None => r := Raise(Exc.NotFound);
        case Some(inode) => r := Ok(StatOf(inode, other));
      }
    }

    /** os.path.lexists of the final name: an operating system error counts as absent. */
    method LexistsDest() returns (r: Result<bool>)
      requires Valid()
      modifies this
      ensures Valid() && Watches(candidate, payload, old(trace), trace)
      ensures Faults(trace) == old(Faults(trace)) || Faults(trace) == old(Faults(trace)).Plus(LookCall)
      ensures r.Raise? ==> r.exc.Interrupt? && LastLook(trace) == LookFailed
      ensures r.Raise? ==> Faults(trace) == old(Faults(trace)).Plus(LookCall)
      ensures Faults(trace) == old(Faults(trace)) ==>
                r.Ok? && r.value == now.names.dest.Some? && LastLook(trace) == Saw(now.names.dest)
      ensures LastLook(trace).LookFailed? ==> Faults(trace) == old(Faults(trace)).Plus(LookCall)
      ensures r.Ok? && r.value ==> LastLook(trace) == Saw(now.names.dest)
      ensures r.Ok? && !r.value ==>
                LastLook(trace) == LookFailed || (LastLook(trace) == Saw(None) && now.names.dest == None)
    {
      var found := StatDest();
      match found
      case Ok(_) => r := Ok(true);
      case Raise(exc) => r := if exc.IsOsError() then Ok(false) else Raise(exc);
    }

    /** os.path.lexists of the private name. */
    method LexistsTemp() returns (r: Result<bool>)
      requires Valid()
      modifies this
      ensures Valid() && Observes(candidate, payload, old(trace), trace)
      ensures Faults(trace) == old(Faults(trace)) || Faults(trace) == old(Faults(trace)).Plus(PrivateCall)
      ensures r.Raise? ==> r.exc.Interrupt? && Faults(trace) == old(Faults(trace)).Plus(PrivateCall)
      ensures Faults(trace) == old(Faults(trace)) ==> r.Ok? && r.value == now.names.temp.Some?
      ensures r.Ok? && r.value ==> now.names.temp.Some?
    {
      var found := StatTemp();
      match found
      case Ok(_) => r := Ok(true);
      case Raise(exc) => r := if exc.IsOsError() then Ok(false) else Raise(exc);
    }

    /** fstat of a descriptor that pins `inode`. */
    method StatPinned(inode: Inode) returns (r: Result<Stat>)
      requires Valid()
      modifies this
      ensures Valid() && Observes(candidate, payload, old(trace), trace)
      ensures r.Ok? ==> r.value.inode == inode
      ensures r.Ok? && inode == candidate && Sealed(trace) && Links(candidate, now) == 1 && now.file.content == payload
              ==> SoleLinkSeen(candidate, payload, trace)
      ensures r.Ok? && inode == candidate ==>
                r.value == Stat(candidate, Links(candidate, now), |now.file.content|, now.file.mode)
      ensures r.Raise? ==> Faults(trace) == old(Faults(trace)).Plus(OtherCall) && (r.exc.OtherOs? || r.exc.Interrupt?)
      ensures r.Ok? ==> Faults(trace) == old(Faults(trace))
      ensures r.Ok? ==> LastFault(trace) == old(LastFault(trace))
    {
      Interfere();
      var other: Stat := *;
      if * {
        var exc := Fail(OtherCall);
        r := Raise(exc);
      } else {
        Take(Action.Measure, now);
        r := Ok(StatOf(inode, other));
      }
    }

    /** open of the final name: pins the inode it binds. */
    method OpenDest() returns (r: Result<Inode>)
      requires Valid()
      modifies this
      ensures Valid() && Observes(candidate, payload, old(trace), trace)
      ensures r.Ok? ==> now.names.dest == Some(r.value)
      ensures r.Raise? ==>
                && r.exc.FromSystemCall()
                && (|| Faults(trace) == old(Faults(trace)).Plus(OtherCall)
                    || (Faults(trace) == old(Faults(trace)) && now.names.dest == None))
      ensures r.Ok? ==> Faults(trace) == old(Faults(trace))
      ensures r.Ok? ==> LastFault(trace) == old(LastFault(trace))
    {
      Interfere();
      if * {
        var exc := Fail(OtherCall);
        r := Raise(exc);
      } else {
        match now.names.dest
        case None => r := Raise(Exc.NotFound);
        case Some(inode) => r := Ok(inode);
      }
    }

    /** pread until end of file through a descriptor that pins `inode`. */
    method DigestPinned(inode: Inode) returns (r: Result<int>)
      requires Valid()
      modifies this
      ensures Valid() && Observes(candidate, payload, old(trace), trace)
      ensures r.Ok? && inode == candidate ==> r.value == digest(now.file.content)
      ensures r.Ok? ==> LastHash(trace) == Some(r.value)
      ensures r.Raise? ==> Faults(trace) == old(Faults(trace)).Plus(OtherCall) && (r.exc.OtherOs? || r.exc.Interrupt?)
      ensures r.Ok? ==> Faults(trace) == old(Faults(trace))
      ensures r.Ok? ==> LastFault(trace) == old(LastFault(trace))
    {
      Interfere();
      var other: Bytes := *;
      if * {
        var exc := Fail(OtherCall);
        r := Raise(exc);
      } else {
        var value := digest(if inode == candidate then now.file.content else other);
        Take(Action.Hash(value), now);
        r := Ok(value);
      }
    }

    /** A call raises after the point where it may have taken effect; the kind of
        error says nothing about whether it did. */
    method FailLate(ghost call: Call) returns (exc: Exc)
      requires Valid()
      modifies this
      ensures exc.FromSystemCall()
      ensures Valid() && now == old(now) && trace == Then(old(trace), Action.Fault(call, exc), now)
      ensures Observes(candidate, payload, old(trace), trace)
      ensures Faults(trace) == old(Faults(trace)).Plus(call)
    {
      exc :| exc.FromSystemCall();
      Take(Action.Fault(call, exc), now);
    }

    /** mkstemp, or open with O_CREAT and O_EXCL. */
    method CreateTemp(mode: nat) returns (r: Result<()>)
      requires Valid() && !now.file.created
      modifies this
      ensures Valid() && Continues(candidate, payload, old(trace), trace) && SameMarks(old(trace), trace)
      ensures r.Ok? ==> now.names.temp == Some(candidate)
      ensures now.file == old(now.file) || now.file == File(true, [], mode, false)
      ensures r.Ok? ==> now.file == File(true, [], mode, false)
      ensures now.durable == old(now.durable)
      ensures !Disturbed(trace) ==>
                now.names == if now.file.created then old(now.names).(temp := Some(candidate)) else old(now.names)
      ensures !Disturbed(trace) && now.file.created ==> old(now.names.temp) == None
      ensures r.Raise? ==>
                r.exc.FromSystemCall()
                && (|| Faults(trace) == old(Faults(trace)).Plus(OtherCall)
                    || (Faults(trace) == old(Faults(trace)) && r.exc.Exists? && now.names.temp.Some?
                        && !now.file.created))
      ensures r.Ok? ==> Faults(trace) == old(Faults(trace))
    {
      Interfere();
      if * {
        var exc := FailLate(OtherCall);
        r := Raise(exc);
      } else if now.names.temp.Some? {
        r := Raise(Exc.Exists);
      } else {
        Take(Action.Create, now.(names := now.names.(temp := Some(candidate)), file := File(true, [], mode, false)));
        if * {
          var exc := FailLate(OtherCall);
          r := Raise(exc);
        } else {
          r := Ok(());
        }
      }
    }

    method Chmod(mode: nat) returns (r: Result<()>)
      requires Valid() && now.file.created
      modifies this
      ensures Valid() && Continues(candidate, payload, old(trace), trace) && SameMarks(old(trace), trace)
      ensures !Disturbed(trace) ==> now.names == old(now.names)
      ensures now.durable == old(now.durable)
      ensures now.file == old(now.file).(mode := now.file.mode)
      ensures r.Ok? ==> now.file.mode == mode
      ensures r.Raise? ==> Faults(trace) == old(Faults(trace)).Plus(OtherCall) && r.exc.FromSystemCall()
      ensures r.Ok? ==> Faults(trace) == old(Faults(trace))
    {
      Interfere();
      var effective: bool, fails: bool := *, *;
      if effective { Take(Action.Chmod, now.(file := now.file.(mode := mode))); }
      if !effective || fails {
        var exc := FailLate(OtherCall);
        r := Raise(exc);
      } else {
        r := Ok(());
      }
    }

    /** write: appends some prefix of `data`, possibly none of it. */
    method WriteSome(data: Bytes) returns (r: Result<nat>)
      requires Valid() && now.file.created && data != [] && !Linked(trace)
      modifies this
      ensures Valid() && Continues(candidate, payload, old(trace), trace) && SameMarks(old(trace), trace)
      ensures !Disturbed(trace) ==> now.names == old(now.names)
      ensures now.durable == old(now.durable)
      ensures now.file.created && now.file.mode == old(now.file.mode)
      ensures r.Ok? ==> r.value <= |data| && now.file.content == old(now.file.content) + data[..r.value]
      ensures r.Ok? && r.value == 0 ==> Faults(trace) == old(Faults(trace)).Plus(OtherCall)
      ensures r.Raise? ==> Faults(trace) == old(Faults(trace)).Plus(OtherCall) && r.exc.FromSystemCall()
      ensures r.Ok? && r.value > 0 ==> Faults(trace) == old(Faults(trace))
    {
      Interfere();
      var count: nat :| count <= |data|;
      Take(Action.Write, now.(file := now.file.(content := now.file.content + data[..count], flushed := false)));
      if * {
        var exc := FailLate(OtherCall);
        r := Raise(exc);
      } else {
        if count == 0 { var _ := Fail(OtherCall); }
        r := Ok(count);
      }
    }

    /** Writes all of `data`, at most `chunk` bytes a call. */
    method WriteAll(data: Bytes, chunk: nat) returns (r: Option<Exc>)
      requires Valid() && now.file.created && now.file.content == [] && !Linked(trace) && chunk > 0
      modifies this
      ensures Valid() && Continues(candidate, payload, old(trace), trace) && SameMarks(old(trace), trace)
      ensures !Disturbed(trace) ==> now.names == old(now.names)
      ensures now.durable == old(now.durable)
      ensures now.file.created && now.file.mode == old(now.file.mode)
      ensures r == None ==> now.file.content == data
      ensures r == None ==> Faults(trace) == old(Faults(trace))
      ensures r.Some? ==> r.value.IsPlain() && Faults(trace) == old(Faults(trace)).Plus(OtherCall)
    {
      var offset := 0;
      while offset < |data|
        invariant offset <= |data|
        invariant Valid() && Continues(candidate, payload, old(trace), trace) && SameMarks(old(trace), trace)
        invariant !Disturbed(trace) ==> now.names == old(now.names)
        invariant now.durable == old(now.durable)
        invariant now.file.created && now.file.mode == old(now.file.mode)
        invariant now.file.content == data[..offset]
        invariant Faults(trace) == old(Faults(trace))
      {
        var end := if offset + chunk < |data| then offset + chunk else |data|;
        var written := WriteSome(data[offset..end]);
        if written.Raise? { return Some(written.exc); }
        if written.value == 0 { return Some(CheckFailed); }
        AppendSlice(data, offset, end, written.value);
        offset := offset + written.value;
      }
      return None;
    }

    method FlushFile() returns (r: Result<()>)
      requires Valid() && now.file.created
      modifies this
      ensures Valid() && Continues(candidate, payload, old(trace), trace) && SameMarks(old(trace), trace)
      ensures !Disturbed(trace) ==> now.names == old(now.names)
      ensures now.durable == old(now.durable)
      ensures now.file == old(now.file).(flushed := now.file.flushed)
      ensures r.Ok? ==> now.file.flushed
      ensures r.Raise? ==> Faults(trace) == old(Faults(trace)).Plus(OtherCall) && r.exc.FromSystemCall()
      ensures r.Ok? ==> Faults(trace) == old(Faults(trace))
    {
      Interfere();
      var effective: bool, fails: bool := *, *;
      if effective { Take(Action.FlushFile, now.(file := now.file.(flushed := true))); }
      if !effective || fails {
        var exc := FailLate(OtherCall);
        r := Raise(exc);
      } else {
        r := Ok(());
      }
    }

    /** link(temp, dest): fails if the final name is bound, and links whatever
        inode the temporary name binds at that instant. */
    method LinkTemp() returns (r: Result<()>)
      requires Valid()
      modifies this
      ensures Valid()
      ensures old(now.file.content) == payload && old(now.file.flushed) ==>
                Continues(candidate, payload, old(trace), trace)
      ensures Withdrawn(trace) == old(Withdrawn(trace)) && Sealed(trace) == old(Sealed(trace))
      ensures LastLook(trace) == old(LastLook(trace))
      ensures now.file == old(now.file) && now.durable == old(now.durable)
      ensures old(Disturbed(trace)) ==> Disturbed(trace)
      ensures !Disturbed(trace) ==> now.names == old(now.names).(dest := now.names.dest)
      ensures !Disturbed(trace) ==> now.names.dest == old(now.names.dest) || now.names.dest == old(now.names.temp)
      ensures !Disturbed(trace) && !Linked(trace) ==> now.names == old(now.names)
      ensures !Disturbed(trace) && Linked(trace) && !old(Linked(trace)) ==>
                old(now.names.dest) == None && old(now.names.temp).Some? && now.names.dest == old(now.names.temp)
      ensures r.Ok? ==> Linked(trace)
      ensures r.Ok? && !Disturbed(trace) ==>
                old(now.names.dest) == None && old(now.names.temp).Some? && now.names.dest == old(now.names.temp)
      ensures r.Raise? ==>
                && r.exc.FromSystemCall()
                && (|| Faults(trace) == old(Faults(trace)).Plus(LinkCall)
                    || (Faults(trace) == old(Faults(trace)) && (r.exc.NotFound? || r.exc.Exists?)))
      ensures r.Raise? && Faults(trace) == old(Faults(trace)) && !Disturbed(trace) ==>
                old(now.names.dest).Some? || old(now.names.temp) == None
      ensures r.Raise? && Linked(trace) && !old(Linked(trace)) ==> Faults(trace) == old(Faults(trace)).Plus(LinkCall)
      ensures r.Ok? ==> Faults(trace) == old(Faults(trace))
    {
      Interfere();
      if * {
        var exc := FailLate(LinkCall);
        r := Raise(exc);
      } else if now.names.temp == None {
        r := Raise(Exc.NotFound);
      } else if now.names.dest.Some? {
        r := Raise(Exc.Exists);
      } else {
        Take(Action.Link, now.(names := now.names.(dest := now.names.temp)));
        if * {
          var exc := FailLate(LinkCall);
          r := Raise(exc);
        } else {
          r := Ok(());
        }
      }
    }

    /** unlink of the final name. It directly follows the caller's identity check,
        so no rival acts before it. */
    method UnlinkDest() returns (r: Result<()>)
      requires Valid()
      modifies this
      ensures Valid()
      ensures old(now.names.dest) == Some(candidate) && old(LastLook(trace)) == Saw(Some(candidate)) ==>
                Continues(candidate, payload, old(trace), trace)
      ensures old(LastLook(trace)) == Saw(Some(candidate)) ==> CarefullyContinues(candidate, payload, old(trace), trace)
      ensures Linked(trace) == old(Linked(trace)) && Sealed(trace) == old(Sealed(trace))
      ensures LastLook(trace) == old(LastLook(trace))
      ensures Disturbed(trace) == old(Disturbed(trace))
      ensures now.file == old(now.file) && now.durable == old(now.durable)
      ensures now.names == old(now.names) || now.names == old(now.names).(dest := None)
      ensures now.names.dest != old(now.names.dest) ==> Withdrawn(trace)
      ensures Withdrawn(trace) ==> old(Withdrawn(trace)) || now.names.dest == None
      ensures r.Ok? ==> now.names.dest == None && Withdrawn(trace)
      ensures r.Raise? ==>
                && r.exc.FromSystemCall()
                && (|| Faults(trace) == old(Faults(trace)).Plus(RemoveCall)
                    || (Faults(trace) == old(Faults(trace)) && old(now.names.dest) == None))
      ensures r.Ok? ==> Faults(trace) == old(Faults(trace))
      ensures r.Raise? && Faults(trace) != old(Faults(trace)) ==> LastFault(trace) == Some(r.exc)
    {
      if * {
        var exc := FailLate(RemoveCall);
        r := Raise(exc);
      } else if now.names.dest == None {
        r := Raise(Exc.NotFound);
      } else {
        Take(Action.UnlinkDest, now.(names := now.names.(dest := None)));
        if * {
          var exc := FailLate(RemoveCall);
          r := Raise(exc);
        } else {
          r := Ok(());
        }
      }
    }

    /** unlink of the temporary name; `checked` says that it directly follows an
        identity check. */
    method UnlinkTemp(checked: bool) returns (r: Result<()>)
      requires Valid() && (checked ==> now.names.temp == Some(candidate))
      modifies this
      ensures Valid() && Continues(candidate, payload, old(trace), trace) && SameMarks(old(trace), trace)
      ensures now.file == old(now.file) && now.durable == old(now.durable)
      ensures checked || !Disturbed(trace) ==> now.names == old(now.names) || now.names == old(now.names).(temp := None)
      ensures r.Ok? ==> now.names.temp == None
      ensures r.Raise? ==>
                && r.exc.FromSystemCall()
                && (|| Faults(trace) == old(Faults(trace)).Plus(PrivateCall)
                    || (Faults(trace) == old(Faults(trace)) && r.exc.NotFound? && now.names.temp == None))
      ensures r.Raise? && Faults(trace) == old(Faults(trace)) && !Disturbed(trace) ==> old(now.names.temp) == None
      ensures r.Ok? ==> Faults(trace) == old(Faults(trace))
      ensures r.Raise? && Faults(trace) != old(Faults(trace)) ==> LastFault(trace) == Some(r.exc)
    {
      if !checked { Interfere(); }
      if * {
        var exc := FailLate(PrivateCall);
        r := Raise(exc);
      } else if now.names.temp == None {
        r := Raise(Exc.NotFound);
      } else {
        Take(Action.UnlinkTemp(checked), now.(names := now.names.(temp := None)));
        if * {
          var exc := FailLate(PrivateCall);
          r := Raise(exc);
        } else {
          r := Ok(());
        }
      }
    }

    method FlushDirectory() returns (r: Result<()>)
      requires Valid()
      modifies this
      ensures Valid() && Continues(candidate, payload, old(trace), trace)
      ensures Linked(trace) == old(Linked(trace)) && Withdrawn(trace) == old(Withdrawn(trace))
      ensures LastLook(trace) == old(LastLook(trace))
      ensures now.file == old(now.file)
      ensures !Disturbed(trace) ==> now.names == old(now.names)
      ensures now.durable == old(now.durable) || now.durable == now.names.dest
      ensures r.Ok? ==> now.durable == now.names.dest && NamesOnDisk(trace)
      ensures Sealed(trace) == (old(Sealed(trace)) || (r.Ok? && old(Linked(trace) && !Withdrawn(trace))))
      ensures r.Raise? ==> Faults(trace) == old(Faults(trace)).Plus(OtherCall) && r.exc.FromSystemCall()
      ensures r.Raise? ==> LastFault(trace) == Some(r.exc)
      ensures r.Ok? ==> Faults(trace) == old(Faults(trace))
      ensures r.Ok? ==> LastFault(trace) == old(LastFault(trace))
    {
      Interfere();
      var effective: bool, fails: bool := *, *;
      if effective { Take(Action.FlushDirectory(!fails), now.(durable := now.names.dest)); }
      if !effective || fails {
        var exc := FailLate(OtherCall);
        r := Raise(exc);
      } else {
        r := Ok(());
      }
    }
  }
}
