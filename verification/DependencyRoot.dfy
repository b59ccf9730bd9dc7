/**
 * Installing a prepared directory with one exclusive rename. Rivals may bind or unbind
 * either name before every call, and every call may fail; the rename may fail with or
 * without having taken effect.
 */
module DependencyRoot {
  import opened Wrappers

  type Inode = nat

  datatype Exit = Normal | Committed | Uncertain | Refused

  /** What may happen around the calls: anything, or exactly that the rename takes effect
      and then raises. */
  datatype Weather = Anything | RenameRaisesLate

  /** The parent directory: what its two names mean, which inodes are real directories,
      and which inode its own path leads to. */
  class Parent {
    var staging: Option<Inode>
    var final: Option<Inode>
    var pathInode: Inode
    const inode: Inode
    const directories: set<Inode>
    const weather: Weather

    /** What has happened: whether a rival changed anything, how many calls failed, what
        was renamed, whether that rename raised nevertheless, whether the directory was
        flushed, what the final name was last seen to bind after that, and whether the
        staging name was removed. */
    ghost var disturbed: bool
    ghost var faults: nat
    ghost var renamed: Option<Inode>
    ghost var raisedLate: bool
    ghost var flushed: bool
    ghost var seen: Option<Option<Inode>>
    ghost var swept: bool

    constructor (staging: Option<Inode>, final: Option<Inode>, inode: Inode, pathInode: Inode, directories: set<Inode>,
                 weather: Weather)
      ensures this.staging == staging && this.final == final && this.inode == inode && this.pathInode == pathInode
      ensures this.directories == directories && this.weather == weather
      ensures !disturbed && faults == 0 && Fresh()
    {
      this.staging, this.final, this.inode, this.pathInode := staging, final, inode, pathInode;
      this.directories := directories;
      this.weather := weather;
      disturbed, faults, renamed, raisedLate, flushed, seen, swept := false, 0, None, false, false, None, false;
    }

    /** Nothing of ours has happened yet. */
    ghost predicate Fresh()
      reads this
    {
      renamed == None && !raisedLate && !flushed && seen == None && !swept
    }

    /** Rivals do what they like to the names. */
    method Interfere()
      modifies `staging, `final, `pathInode, `disturbed
      ensures old(disturbed) ==> disturbed
      ensures !disturbed ==> staging == old(staging) && final == old(final) && pathInode == old(pathInode)
      ensures weather.RenameRaisesLate? ==>
                disturbed == old(disturbed) && Unmoved(old(staging), old(final), old(pathInode))
    {
      if weather.RenameRaisesLate? { return; }
      var a: Option<Inode> := *;
      var b: Option<Inode> := *;
      var c: Inode := *;
      disturbed := disturbed || a != staging || b != final || c != pathInode;
      staging, final, pathInode := a, b, c;
    }

    /** A call fails, or does not. */
    method Fault() returns (failed: bool)
      modifies `faults
      ensures faults == old(faults) + if failed then 1 else 0
      ensures weather.RenameRaisesLate? ==> !failed
    {
      var chance: bool := *;
      failed := chance && weather.Anything?;
      if failed { faults := faults + 1; }
    }

    /** lstat of the parent's path, compared with the pinned descriptor. */
    method SameParent() returns (same: bool)
      modifies `staging, `final, `pathInode, `disturbed, `faults
      ensures Later()
      ensures same ==> pathInode == inode && faults == old(faults)
      ensures (!disturbed && faults == old(faults)) || weather.RenameRaisesLate? ==> same == (pathInode == inode)
    {
      Interfere();
      var failed := Fault();
      same := !failed && pathInode == inode;
    }

    /** Only time has passed: rivals and faults, but nothing of ours. */
    ghost predicate Unmoved(staging0: Option<Inode>, final0: Option<Inode>, path0: Inode)
      reads this
    {
      staging == staging0 && final == final0 && pathInode == path0
    }

    twostate predicate Later()
      reads this
    {
      && (old(disturbed) ==> disturbed) && old(faults) <= faults
      && (!disturbed ==> Unmoved(old(staging), old(final), old(pathInode)))
      && (weather.RenameRaisesLate? ==>
            disturbed == old(disturbed) && faults == old(faults) && Unmoved(old(staging), old(final), old(pathInode)))
    }

    method StatStaging() returns (found: Option<Inode>)
      modifies `staging, `final, `pathInode, `disturbed, `faults
      ensures Later()
      ensures found.Some? ==> found == staging && faults == old(faults)
      ensures (!disturbed && faults == old(faults)) || weather.RenameRaisesLate? ==> found == staging
    {
      Interfere();
      var failed := Fault();
      found := if failed then None else staging;
    }

    /** Whether the name is free; None when the lookup itself fails. */
    method StatFinal() returns (found: Option<Option<Inode>>)
      modifies `staging, `final, `pathInode, `disturbed, `faults, `seen
      ensures Later()
      ensures found.Some? ==> found.value == final && faults == old(faults)
      ensures seen == if found.Some? && flushed then found else old(seen)
      ensures found == None ==> faults > old(faults) && weather.Anything?
    {
      Interfere();
      var failed := Fault();
      found := if failed then None else Some(final);
      if found.Some? && flushed { seen := found; }
    }

    /** renameatx_np with RENAME_EXCL: all or nothing, and never over an existing name. It
        may raise although it has taken effect. */
    method RenameExclusive() returns (ok: bool)
      requires renamed == None && !raisedLate
      modifies `staging, `final, `pathInode, `disturbed, `faults, `renamed, `raisedLate
      ensures old(disturbed) ==> disturbed
      ensures old(faults) <= faults
      ensures ok == (renamed.Some? && !raisedLate) && (ok ==> faults == old(faults))
      ensures raisedLate ==> renamed.Some? && faults > old(faults)
      ensures renamed == None ==> Later()
      ensures renamed.Some? ==> final == renamed && staging == None
      ensures renamed.Some? && !disturbed ==>
                old(final) == None && renamed == old(staging) && pathInode == old(pathInode)
      ensures !disturbed && faults == old(faults) ==> ok == (old(staging).Some? && old(final) == None)
      ensures weather.RenameRaisesLate? && old(staging).Some? && old(final) == None ==>
                raisedLate && renamed == old(staging) && disturbed == old(disturbed) && pathInode == old(pathInode)
    {
      Interfere();
      var failed := Fault();
      if failed || staging == None || final.Some? { return false; }
      renamed := staging;
      staging, final := None, staging;
      var late: bool := *;
      if late || weather.RenameRaisesLate? {
        raisedLate, faults := true, faults + 1;
        return false;
      }
      return true;
    }

    /** fsync of the pinned directory. */
    method Flush() returns (ok: bool)
      modifies `staging, `final, `pathInode, `disturbed, `faults, `flushed
      ensures Later()
      ensures flushed == (old(flushed) || ok) && (if ok then faults == old(faults) else faults > old(faults))
    {
      Interfere();
      var failed := Fault();
      ok := !failed;
      flushed := flushed || ok;
    }

    method CloseDescriptor() returns (ok: bool)
      modifies `staging, `final, `pathInode, `disturbed, `faults
      ensures Later() && (if ok then faults == old(faults) else faults > old(faults))
    {
      Interfere();
      var failed := Fault();
      ok := !failed;
    }

    /** The exit says what became of the rename and of the flush. */
    ghost predicate Truthful(exit: Exit)
      reads this
    {
      && (exit == Refused <==> renamed == None)
      && (exit == Uncertain <==> renamed.Some? && !flushed)
      && (exit == Normal || exit == Committed <==> renamed.Some? && flushed)
    }

    /** What each exit stands for: a rename that raised late passes for none. */
    ghost predicate Reported(exit: Exit)
      reads this
    {
      && (exit == Refused <==> renamed == None || raisedLate)
      && (exit == Uncertain <==> renamed.Some? && !raisedLate && !flushed)
      && (exit == Normal || exit == Committed <==> renamed.Some? && !raisedLate && flushed)
      && (raisedLate ==> renamed.Some? && faults > 0)
    }

    /** The checks before the rename. */
    method Preflight() returns (staged: Option<Inode>)
      requires !flushed
      modifies `staging, `final, `pathInode, `disturbed, `faults, `seen
      ensures Later() && seen == old(seen)
      ensures staged.Some? ==> staged.value in directories && faults == old(faults)
      ensures staged.Some? && !disturbed ==> staged == staging && final == None && pathInode == inode
      ensures !disturbed && faults == old(faults) ==>
                (staged.Some? <==> pathInode == inode && final == None && staging.Some? && staging.value in directories)
      ensures weather.RenameRaisesLate? && pathInode == inode && final == None
              && staging.Some? && staging.value in directories
              ==> staged == staging
    {
      var same := SameParent();
      if !same { return None; }
      staged := StatStaging();
      if staged == None || staged.value !in directories { return None; }
      var found := StatFinal();
      if found != Some(None) { return None; }
    }

    /** The lookups after the flush. */
    method Confirm(staged: Inode) returns (ok: bool)
      requires flushed
      modifies `staging, `final, `pathInode, `disturbed, `faults, `seen
      ensures Later()
      ensures ok ==> seen == Some(Some(staged)) && faults == old(faults)
      ensures ok && !disturbed ==> final == Some(staged) && pathInode == inode
      ensures !disturbed && faults == old(faults) ==> ok == (final == Some(staged) && pathInode == inode)
    {
      var published := StatFinal();
      if published != Some(Some(staged)) { return false; }
      ok := SameParent();
    }

    /** The names when the rename was, or was not, made and no rival acted. */
    twostate predicate Placed()
      reads this
    {
      !disturbed ==>
        if renamed == None then staging == old(staging) && final == old(final)
        else old(final) == None && final == renamed == old(staging) && staging == None
    }

    /** A prepared directory, a free place and the pinned parent. */
    ghost predicate Ready()
      reads this
    {
      pathInode == inode && final == None && staging.Some? && staging.value in directories
    }

    /** The body of _publish_dependency_root_exclusive, before the descriptor is closed. */
    method Install() returns (exit: Exit, staged: Option<Inode>)
      requires Fresh()
      modifies this
      ensures Reported(exit) && Placed() && swept == old(swept)
      ensures old(disturbed) ==> disturbed
      ensures old(faults) <= faults
      ensures exit == Normal ==>
                staged.Some? && staged.value in directories && seen == Some(staged) && faults == old(faults)
      ensures exit == Normal && !disturbed ==> final == staged == renamed && pathInode == inode
      ensures !disturbed && faults == old(faults) ==>
                exit != Committed && exit != Uncertain && (exit == Normal <==> old(Ready()))
      ensures weather.RenameRaisesLate? && old(Ready()) ==> raisedLate && disturbed == old(disturbed)
    {
      staged := Preflight();
      if staged == None { return Refused, None; }
      var ok := RenameExclusive();
      if !ok { return Refused, staged; }
      ok := Flush();
      if !ok { return Uncertain, staged; }
      ok := Confirm(staged.value);
      return if ok then Normal else Committed, staged;
    }

    /** _publish_dependency_root_exclusive. Closing the descriptor can turn a normal end
        into an error, but not into one that denies the rename. The exit is truthful
        exactly if the rename did not raise after taking effect. */
    method Publish() returns (exit: Exit)
      requires Fresh()
      modifies this
      ensures Reported(exit) && Placed() && swept == old(swept)
      ensures old(faults) <= faults
      ensures Truthful(exit) <==> !raisedLate
      ensures exit == Normal ==>
                seen.Some? && seen.value.Some? && seen.value.value in directories && faults == old(faults)
      ensures exit == Normal && !disturbed ==> pathInode == inode && seen == Some(old(staging))
      ensures !disturbed && faults == old(faults) ==> exit == (if old(Ready()) then Normal else Refused)
      ensures weather.RenameRaisesLate? && old(Ready()) ==> raisedLate && disturbed == old(disturbed)
    {
      var staged;
      exit, staged := Install();
      var closed := CloseDescriptor();
      if !closed && exit == Normal { exit := Committed; }
    }

    /** The last part of acquire: whatever is at the staging name is removed unless the
        exit tells of a rename, so also after a rename that raised late. */
    method PublishAndCleanUp() returns (exit: Exit)
      requires Fresh()
      modifies this
      ensures Reported(exit)
      ensures Truthful(exit) <==> !raisedLate
      ensures old(faults) <= faults
      // without rivals it takes a refusal and a failed removal to leave the staged directory
      ensures !disturbed && staging.Some? ==>
                exit == Refused && faults >= old(faults) + if old(Ready()) then 2 else 1
      // the staging name is removed exactly after a refusal, unless that call fails
      ensures swept ==> exit == Refused && staging == None
      ensures exit == Refused ==> swept || faults > old(faults)
      ensures !disturbed ==> final == if renamed == None then old(final) else old(staging)
      ensures !disturbed && renamed.Some? ==> staging == None && renamed == old(staging)
      ensures weather.RenameRaisesLate? && old(Ready()) ==> raisedLate && disturbed == old(disturbed)
    {
      exit := Publish();
      if exit == Refused { RemoveStaging(); }
    }

    /** Whatever is at the staging name goes, unless the call fails. */
    method RemoveStaging()
      modifies `staging, `final, `pathInode, `disturbed, `faults, `swept
      ensures old(disturbed) ==> disturbed
      ensures !disturbed ==> final == old(final) && pathInode == old(pathInode)
      ensures if faults == old(faults) then swept && staging == None else faults > old(faults) && swept == old(swept)
      ensures weather.RenameRaisesLate? ==> disturbed == old(disturbed) && final == old(final) && faults == old(faults)
      ensures !disturbed && faults != old(faults) ==> staging == old(staging)
    {
      Interfere();
      var failed := Fault();
      if !failed { staging, swept := None, true; }
    }
  }

  /** The run in which the rename raises late: the directory is installed, and the caller
      is told that it was refused. */
  method InstalledThoughRefused(staged: Inode, inode: Inode) returns (parent: Parent, exit: Exit)
    ensures exit == Refused && parent.final == parent.renamed == Some(staged) && parent.staging == None
    ensures !parent.disturbed && parent.raisedLate && !parent.Truthful(exit)
  {
    parent := new Parent(Some(staged), None, inode, inode, {staged}, RenameRaisesLate);
    exit := parent.PublishAndCleanUp();
  }
}
