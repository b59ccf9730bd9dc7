/** The file tree that extracting checked archive members leaves. */
module ArchiveTree {
  import opened Wrappers
  import opened Sequences
  import opened ArchiveExtraction

  datatype Node = Dir | File(content: Bytes) | Link(target: string)

  type Tree = map<Path, Node>

  predicate IsDir(t: Tree, p: Path) { p in t && t[p] == Dir }

  predicate Housed(t: Tree, p: Path) { p != [] ==> IsDir(t, Parent(p)) }

  /** A root, and everything else in a real directory. */
  ghost predicate Sound(t: Tree) { IsDir(t, []) && forall p {:trigger Housed(t, p)} :: p in t ==> Housed(t, p) }

  /** A new node in a real directory keeps a tree sound. */
  lemma SoundWith(t: Tree, p: Path, n: Node)
    requires Sound(t) && p !in t && Housed(t, p)
    ensures Sound(t[p := n])
  {
    var more := t[p := n];
    forall q | q in more ensures Housed(more, q) {
      assert q in t ==> Housed(t, q);
    }
  }

  /** Every directory on the way to `p` is a real one, so no link is followed. */
  ghost predicate WayIsReal(t: Tree, p: Path) { forall k :: 0 <= k < |p| ==> IsDir(t, p[..k]) }

  lemma {:induction false} RealWay(t: Tree, p: Path)
    requires Sound(t) && Housed(t, p)
    ensures WayIsReal(t, p)
    decreases |p|
  {
    if p != [] {
      assert Housed(t, Parent(p));
      RealWay(t, Parent(p));
      assert forall k :: 0 <= k < |p| - 1 ==> p[..k] == Parent(p)[..k];
    }
  }

  // ---------- directories ----------

  /** The proper prefixes of the members' paths, without the root. */
  ghost predicate InDirs(entries: seq<Entry>, d: Path) {
    d != [] && exists i :: 0 <= i < |entries| && |d| < |entries[i].path| && entries[i].path[..|d|] == d
  }

  ghost function DirSet(entries: seq<Entry>): set<Path> {
    set i, k | 0 <= i < |entries| && 1 <= k < |entries[i].path| :: entries[i].path[..k]
  }

  lemma DirSetMeans(entries: seq<Entry>, d: Path)
    ensures d in DirSet(entries) <==> InDirs(entries, d)
  {
    if InDirs(entries, d) {
      var i :| 0 <= i < |entries| && |d| < |entries[i].path| && entries[i].path[..|d|] == d;
      assert entries[i].path[..|d|] in DirSet(entries);
    }
  }

  /** The set of directories collected by extract_archive. */
  method CollectDirs(entries: seq<Entry>) returns (dirs: set<Path>)
    ensures dirs == DirSet(entries)
  {
    dirs := {};
    var i := 0;
    while i < |entries|
      invariant i <= |entries|
      invariant forall d :: d in dirs <==> InDirs(entries[..i], d)
    {
      var more := ProperPrefixes(entries[i].path);
      forall d ensures InDirs(entries[..i + 1], d) <==> InDirs(entries[..i], d) || d in more {
        InDirsNext(entries, i, d);
      }
      dirs := dirs + more;
      i := i + 1;
    }
    assert entries[..i] == entries;
    forall d ensures d in dirs <==> d in DirSet(entries) { DirSetMeans(entries, d); }
  }

  method ProperPrefixes(path: Path) returns (prefixes: set<Path>)
    ensures forall d :: d in prefixes <==> d != [] && |d| < |path| && path[..|d|] == d
  {
    prefixes := {};
    var depth := 1;
    while depth < |path|
      invariant 1 <= depth
      invariant forall d :: d in prefixes <==> d != [] && |d| < depth && |d| < |path| && path[..|d|] == d
    {
      prefixes := prefixes + {path[..depth]};
      depth := depth + 1;
    }
  }

  lemma InDirsNext(entries: seq<Entry>, i: nat, d: Path)
    requires i < |entries|
    ensures InDirs(entries[..i + 1], d) <==>
      InDirs(entries[..i], d) || (d != [] && |d| < |entries[i].path| && entries[i].path[..|d|] == d)
  {
    var shorter, longer := entries[..i], entries[..i + 1];
    assert longer[i] == entries[i] && forall j :: 0 <= j < i ==> shorter[j] == longer[j];
    if InDirs(longer, d) {
      var j :| 0 <= j < |longer| && |d| < |longer[j].path| && longer[j].path[..|d|] == d;
      if j < i { assert shorter[j] == longer[j]; }
    }
    if InDirs(shorter, d) {
      var j :| 0 <= j < |shorter| && |d| < |shorter[j].path| && shorter[j].path[..|d|] == d;
      assert longer[j] == shorter[j];
    }
  }

  /** A collected directory lies in the root or in a collected directory, and so does
      every member. */
  ghost predicate Nested(dirs: set<Path>, p: Path) { p != [] && (Parent(p) == [] || Parent(p) in dirs) }

  ghost predicate AllNested(dirs: set<Path>) { forall d :: d in dirs ==> Nested(dirs, d) }

  lemma DirsNested(entries: seq<Entry>)
    requires forall i :: 0 <= i < |entries| ==> entries[i].path != []
    ensures AllNested(DirSet(entries))
    ensures forall i :: 0 <= i < |entries| ==> Nested(DirSet(entries), entries[i].path)
  {
    var dirs := DirSet(entries);
    forall d | d in dirs ensures Nested(dirs, d) {
      DirSetMeans(entries, d);
      if Parent(d) != [] {
        var i :| 0 <= i < |entries| && |d| < |entries[i].path| && entries[i].path[..|d|] == d;
        assert entries[i].path[..|d| - 1] == Parent(d);
        assert InDirs(entries, Parent(d));
        DirSetMeans(entries, Parent(d));
      }
    }
    forall i | 0 <= i < |entries| ensures Nested(dirs, entries[i].path) {
      var d := Parent(entries[i].path);
      if d != [] {
        assert InDirs(entries, d);
        DirSetMeans(entries, d);
      }
    }
  }

  function WithDirs(t: Tree, dirs: set<Path>): Tree { t + map d | d in dirs :: Dir }

  // ---------- files and links ----------

  function NodeOf(e: Entry): Node { if e.member.kind == Symlink then Link(e.member.link) else File(e.member.content) }

  function OfKind(entries: seq<Entry>, kind: Kind): seq<Entry> {
    if entries == [] then []
    else
      OfKind(entries[..|entries| - 1], kind) +
      (if entries[|entries| - 1].member.kind == kind then [entries[|entries| - 1]] else [])
  }

  /** The tree with the members put in place. */
  function Placed(t: Tree, entries: seq<Entry>): Tree {
    if entries == [] then t
    else
      var e := entries[|entries| - 1];
      Placed(t, entries[..|entries| - 1])[e.path := NodeOf(e)]
  }

  lemma PlacedNext(t: Tree, entries: seq<Entry>, e: Entry)
    ensures Placed(t, entries + [e]) == Placed(t, entries)[e.path := NodeOf(e)]
  {
    assert (entries + [e])[..|entries|] == entries;
  }

  lemma {:induction false} PlacedKeys(t: Tree, entries: seq<Entry>, p: Path)
    ensures p in Placed(t, entries) <==> p in t || p in PathsOf(entries)
    ensures p !in PathsOf(entries) && p in t ==> Placed(t, entries)[p] == t[p]
  {
    if entries != [] {
      var front, e := entries[..|entries| - 1], entries[|entries| - 1];
      PlacedKeys(t, front, p);
      assert entries == front + [e];
      SetsGrow(front, e);
    }
  }

  /** Members with different paths are all in place. */
  lemma {:induction false} PlacedAt(t: Tree, entries: seq<Entry>, i: nat)
    requires i < |entries| && DistinctPaths(entries)
    ensures entries[i].path in Placed(t, entries) && Placed(t, entries)[entries[i].path] == NodeOf(entries[i])
  {
    if i < |entries| - 1 { PlacedAt(t, entries[..|entries| - 1], i); }
  }

  lemma {:induction false} PlacedAppend(t: Tree, a: seq<Entry>, b: seq<Entry>)
    ensures Placed(Placed(t, a), b) == Placed(t, a + b)
    decreases |b|
  {
    if b == [] {
      assert a + b == a;
    } else {
      PlacedAppend(t, a, b[..|b| - 1]);
      assert (a + b)[..|a + b| - 1] == a + b[..|b| - 1];
    }
  }

  lemma OfKindNext(entries: seq<Entry>, kind: Kind, i: nat)
    requires i < |entries|
    ensures OfKind(entries[..i + 1], kind) ==
      if entries[i].member.kind == kind then OfKind(entries[..i], kind) + [entries[i]] else OfKind(entries[..i], kind)
  {
    assert entries[..i + 1][..i] == entries[..i];
  }

  lemma {:induction false} OfKindExactly(entries: seq<Entry>, kind: Kind, e: Entry)
    ensures e in OfKind(entries, kind) <==> e in entries && e.member.kind == kind
  {
    if entries != [] {
      var front, last := entries[..|entries| - 1], entries[|entries| - 1];
      OfKindExactly(front, kind, e);
      assert e in entries <==> e in front || e == last;
    }
  }

  /** Where a directory is, putting members in new places leaves it. */
  lemma StillDir(t: Tree, entries: seq<Entry>, p: Path)
    requires IsDir(t, p) && NewIn(t, entries)
    ensures IsDir(Placed(t, entries), p)
  {
    PlacedKeys(t, entries, p);
  }

  // ---------- extraction ----------

  /** No link is there that was not there before. */
  ghost predicate NoNewLink(before: Tree, t: Tree) {
    forall p :: p in t && t[p].Link? ==> p in before && before[p] == t[p]
  }

  /** A place of its own for a member, and the announced size if it is a file. */
  predicate RoomFor(t: Tree, e: Entry) {
    e.path !in t && (e.member.kind == Regular ==> |e.member.content| == e.member.size)
  }

  ghost predicate Room(t: Tree, entries: seq<Entry>, kind: Kind) {
    forall i :: 0 <= i < |entries| && entries[i].member.kind == kind ==> RoomFor(t, entries[i])
  }

  ghost predicate DirsFree(t: Tree, dirs: set<Path>) { forall d :: d in dirs && d in t ==> t[d] == Dir }

  /** The members lie in directories of the tree. */
  ghost predicate AllHoused(t: Tree, entries: seq<Entry>) {
    forall i :: 0 <= i < |entries| ==> entries[i].path != [] && Housed(t, entries[i].path)
  }

  datatype ExtractExit = Extracted | Rejected | Obstructed

  class Destination {
    var tree: Tree
    ghost const before: Tree

    constructor (tree: Tree)
      ensures this.tree == tree && before == tree
    {
      this.tree, before := tree, tree;
    }

    /** mkdir, on a way that follows no link and while no link has been made. */
    method MakeDirectory(p: Path)
      requires Sound(tree) && p != [] && p !in tree && WayIsReal(tree, p) && NoNewLink(before, tree)
      modifies this
      ensures tree == old(tree)[p := Dir] && Sound(tree) && NoNewLink(before, tree)
    {
      assert IsDir(tree, p[..|p| - 1]);
      SoundWith(tree, p, Dir);
      tree := tree[p := Dir];
    }

    /** open with O_EXCL and O_NOFOLLOW, and write. */
    method WriteFile(e: Entry)
      requires Sound(tree) && e.path != [] && e.path !in tree && e.member.kind == Regular
      requires WayIsReal(tree, e.path) && NoNewLink(before, tree)
      modifies this
      ensures tree == old(tree)[e.path := NodeOf(e)] && Sound(tree) && NoNewLink(before, tree)
    {
      assert IsDir(tree, e.path[..|e.path| - 1]);
      SoundWith(tree, e.path, NodeOf(e));
      tree := tree[e.path := File(e.member.content)];
    }

    method MakeLink(e: Entry)
      requires Sound(tree) && e.path != [] && e.path !in tree && e.member.kind == Symlink && WayIsReal(tree, e.path)
      modifies this
      ensures tree == old(tree)[e.path := NodeOf(e)] && Sound(tree)
    {
      assert IsDir(tree, e.path[..|e.path| - 1]);
      SoundWith(tree, e.path, NodeOf(e));
      tree := tree[e.path := Link(e.member.link)];
    }

    /** One directory whose parent is done. */
    method LayDirectory(d: Path, ghost done: set<Path>) returns (ok: bool)
      requires Sound(tree) && tree == WithDirs(before, done)
      requires d !in done && Nested(done, d)
      modifies this
      ensures ok <==> (d in before ==> before[d] == Dir)
      ensures ok ==> Sound(tree) && tree == WithDirs(before, done + {d})
    {
      DirsNext(before, done, d);
      if d in tree { return tree[d] == Dir; }
      NestedHoused(before, done, d);
      RealWay(tree, d);
      DirsAreNoLinks(before, done);
      MakeDirectory(d);
      return true;
    }

    /** The directories, shortest first. */
    method LayDirectories(dirs: set<Path>) returns (ok: bool)
      requires Sound(tree) && tree == before && AllNested(dirs)
      modifies this
      ensures ok <==> DirsFree(before, dirs)
      ensures ok ==> tree == WithDirs(before, dirs) && Sound(tree)
    {
      var rest := dirs;
      ghost var done := {};
      assert WithDirs(before, {}) == before;
      while rest != {}
        invariant dirs == done + rest && done !! rest && DirsFree(before, done)
        invariant Sound(tree) && tree == WithDirs(before, done)
        decreases |rest|
      {
        var d := PickShortest(rest);
        ShortestNested(done, rest, d);
        ok := LayDirectory(d, done);
        if !ok { return; }
        done, rest := done + {d}, rest - {d};
      }
      assert dirs == done;
      return true;
    }

    /** One file: created exclusively, written, and its length checked. */
    method ExtractFile(e: Entry, ghost base: Tree, ghost done: seq<Entry>) returns (ok: bool)
      requires Sound(tree) && tree == Placed(base, done) && NoNewLink(before, tree)
      requires e.path != [] && e.path !in PathsOf(done) && e.member.kind == Regular
      requires Housed(base, e.path) && NewIn(base, done)
      modifies this
      ensures ok <==> RoomFor(base, e)
      ensures ok ==> Sound(tree) && tree == Placed(base, done + [e]) && NoNewLink(before, tree)
    {
      PlacedKeys(base, done, e.path);
      if e.path in tree { return false; }
      StillDir(base, done, Parent(e.path));
      RealWay(tree, e.path);
      PlacedNext(base, done, e);
      WriteFile(e);
      return |e.member.content| == e.member.size;
    }

    /** The loop over the files. */
    method ExtractFiles(entries: seq<Entry>) returns (ok: bool)
      requires Sound(tree) && NoNewLink(before, tree) && DistinctPaths(entries) && AllHoused(tree, entries)
      modifies this
      ensures ok <==> Room(old(tree), entries, Regular)
      ensures ok ==> Sound(tree) && tree == Placed(old(tree), OfKind(entries, Regular))
    {
      ghost var base := tree;
      ghost var done: seq<Entry> := [];
      var i := 0;
      while i < |entries|
        invariant i <= |entries| && Sound(tree) && NoNewLink(before, tree)
        invariant done == OfKind(entries[..i], Regular) && tree == Placed(base, done)
        invariant Room(base, entries[..i], Regular)
      {
        OfKindNext(entries, Regular, i);
        RoomNext(base, entries, Regular, i);
        if entries[i].member.kind == Regular {
          DonePaths(base, entries, Regular, i);
          ok := ExtractFile(entries[i], base, done);
          if !ok {
            RoomPrefix(base, entries, Regular, i + 1);
            return;
          }
          done := done + [entries[i]];
        }
        i := i + 1;
      }
      assert entries[..i] == entries;
      return true;
    }

    method ExtractLink(e: Entry, ghost base: Tree, ghost done: seq<Entry>) returns (ok: bool)
      requires Sound(tree) && tree == Placed(base, done)
      requires e.path != [] && e.path !in PathsOf(done) && e.member.kind == Symlink
      requires Housed(base, e.path) && NewIn(base, done)
      modifies this
      ensures ok <==> RoomFor(base, e)
      ensures ok ==> Sound(tree) && tree == Placed(base, done + [e])
    {
      PlacedKeys(base, done, e.path);
      if e.path in tree { return false; }
      StillDir(base, done, Parent(e.path));
      RealWay(tree, e.path);
      PlacedNext(base, done, e);
      MakeLink(e);
      return true;
    }

    /** The loop over the symbolic links. */
    method ExtractLinks(entries: seq<Entry>) returns (ok: bool)
      requires Sound(tree) && DistinctPaths(entries) && AllHoused(tree, entries)
      modifies this
      ensures ok <==> Room(old(tree), entries, Symlink)
      ensures ok ==> Sound(tree) && tree == Placed(old(tree), OfKind(entries, Symlink))
    {
      ghost var base := tree;
      ghost var done: seq<Entry> := [];
      var i := 0;
      while i < |entries|
        invariant i <= |entries| && Sound(tree)
        invariant done == OfKind(entries[..i], Symlink) && tree == Placed(base, done)
        invariant Room(base, entries[..i], Symlink)
      {
        OfKindNext(entries, Symlink, i);
        RoomNext(base, entries, Symlink, i);
        if entries[i].member.kind == Symlink {
          DonePaths(base, entries, Symlink, i);
          ok := ExtractLink(entries[i], base, done);
          if !ok {
            RoomPrefix(base, entries, Symlink, i + 1);
            return;
          }
          done := done + [entries[i]];
        }
        i := i + 1;
      }
      assert entries[..i] == entries;
      return true;
    }

    /** The three phases of extract_archive. */
    method ExtractSelected(entries: seq<Entry>) returns (ok: bool)
      requires Sound(tree) && tree == before && Usable(entries)
      modifies this
      ensures ok <==> Clear(before, entries)
      ensures ok ==> Sound(tree) && tree == Result(before, entries)
    {
      ghost var base := WithDirs(before, DirSet(entries));
      FilesThenLinks(base, entries);
      DirsNested(entries);
      var dirs := CollectDirs(entries);
      ok := LayDirectories(dirs);
      if !ok { return; }
      DirsAreNoLinks(before, dirs);
      MembersHoused(before, entries);
      ok := ExtractFiles(entries);
      if !ok { return; }
      StillHoused(base, entries);
      ok := ExtractLinks(entries);
    }

    /** extract_archive. */
    method Extract(members: seq<Member>, required: set<Path>) returns (exit: ExtractExit)
      requires Sound(tree) && tree == before
      modifies this
      ensures exit == Rejected <==> !ArchiveOk(members, required)
      ensures exit == Rejected ==> tree == before
      ensures exit == Extracted <==> ArchiveOk(members, required) && Clear(before, SelectedOf(Normalized(members)))
      ensures exit == Extracted ==> Sound(tree) && tree == Result(before, SelectedOf(Normalized(members)))
    {
      var selected := ValidateMembers(members, required);
      if selected == None { return Rejected; }
      SelectedUsable(members);
      var ok := ExtractSelected(selected.value);
      return if ok then Extracted else Obstructed;
    }
  }

  ghost predicate NewIn(t: Tree, entries: seq<Entry>) { forall e :: e in entries ==> e.path !in t }

  lemma RoomNext(t: Tree, entries: seq<Entry>, kind: Kind, i: nat)
    requires i < |entries|
    ensures Room(t, entries[..i + 1], kind) <==>
      Room(t, entries[..i], kind) && (entries[i].member.kind == kind ==> RoomFor(t, entries[i]))
  {
    var shorter, longer := entries[..i], entries[..i + 1];
    assert longer[i] == entries[i] && forall j :: 0 <= j < i ==> longer[j] == shorter[j];
  }

  lemma RoomPrefix(t: Tree, entries: seq<Entry>, kind: Kind, i: nat)
    requires i <= |entries| && !Room(t, entries[..i], kind)
    ensures !Room(t, entries, kind)
  {
    var j :| 0 <= j < i && entries[..i][j].member.kind == kind && !RoomFor(t, entries[..i][j]);
    assert entries[j] == entries[..i][j];
  }

  /** The members done so far are in new places, and not in the next member's. */
  lemma DonePaths(t: Tree, entries: seq<Entry>, kind: Kind, i: nat)
    requires i < |entries| && DistinctPaths(entries) && Room(t, entries[..i], kind)
    ensures NewIn(t, OfKind(entries[..i], kind)) && entries[i].path !in PathsOf(OfKind(entries[..i], kind))
  {
    var done := OfKind(entries[..i], kind);
    forall e | e in done ensures e.path !in t && e.path != entries[i].path {
      OfKindExactly(entries[..i], kind, e);
      var j :| 0 <= j < i && entries[..i][j] == e;
      assert entries[j] == e && RoomFor(t, entries[..i][j]);
    }
  }

  lemma DirsNext(t: Tree, done: set<Path>, d: Path)
    ensures WithDirs(t, done + {d}) == WithDirs(t, done)[d := Dir]
    ensures d in t && t[d] == Dir && d !in done ==> WithDirs(t, done + {d}) == WithDirs(t, done)
  {
  }

  lemma DirsAreNoLinks(t: Tree, done: set<Path>)
    ensures NoNewLink(t, WithDirs(t, done))
  {
  }

  lemma NestedHoused(t: Tree, done: set<Path>, d: Path)
    requires Sound(WithDirs(t, done)) && Nested(done, d)
    ensures Housed(WithDirs(t, done), d)
  {
  }

  /** The parent of a shortest directory left is done. */
  lemma ShortestNested(done: set<Path>, rest: set<Path>, d: Path)
    requires AllNested(done + rest) && d in rest && forall q :: q in rest ==> |d| <= |q|
    ensures Nested(done, d)
  {
    assert Nested(done + rest, d);
  }

  method PickShortest(paths: set<Path>) returns (d: Path)
    requires paths != {}
    ensures d in paths && forall q :: q in paths ==> |d| <= |q|
  {
    ShortestExists(paths);
    d :| IsShortest(paths, d);
  }

  predicate IsShortest(paths: set<Path>, d: Path) { d in paths && forall q :: q in paths ==> |d| <= |q| }

  lemma {:induction false} ShortestExists(paths: set<Path>)
    requires paths != {}
    ensures exists d :: IsShortest(paths, d)
    decreases |paths|
  {
    var x :| x in paths;
    var others := paths - {x};
    assert paths == others + {x};
    if others == {} {
      assert IsShortest(paths, x);
    } else {
      ShortestExists(others);
      var d :| IsShortest(others, d);
      assert IsShortest(paths, if |x| < |d| then x else d);
    }
  }

  // ---------- what is extracted ----------

  /** Nothing stands where the members go. */
  ghost predicate Clear(t: Tree, entries: seq<Entry>) {
    var base := WithDirs(t, DirSet(entries));
    DirsFree(t, DirSet(entries)) && Room(base, entries, Regular) && Room(base, entries, Symlink)
  }

  ghost function Result(t: Tree, entries: seq<Entry>): Tree {
    Placed(WithDirs(t, DirSet(entries)), OfKind(entries, Regular) + OfKind(entries, Symlink))
  }

  /** An entry with a nonempty path that is the normal name of a listed member which
      passed its own checks. */
  ghost predicate Genuine(members: seq<Member>, e: Entry) {
    e.path != [] && e.member in members && MemberOk(e.member) && NormalName(e.member.name) == Some(e.path)
  }

  lemma AllOkAt(members: seq<Member>, m: Member)
    requires AllOk(members) && m in members
    ensures MemberOk(m)
  {
    var i :| 0 <= i < |members| && members[i] == m;
    assert MemberOk(members[i]);
  }

  lemma SelectedNotRoot(path: Path)
    requires Selected(path)
    ensures path != []
  {
  }

  lemma SelectedGenuine(members: seq<Member>, e: Entry)
    requires AllOk(members) && e in SelectedOf(Normalized(members))
    ensures Genuine(members, e)
  {
    SelectedFrom(Normalized(members), e);
    SelectedNotRoot(e.path);
    NormalizedFrom(members, e);
    AllOkAt(members, e.member);
  }

  /** Selected members of an accepted archive have different paths, and each is genuine. */
  lemma SelectedFacts(members: seq<Member>)
    requires FirstPass(members)
    ensures DistinctPaths(SelectedOf(Normalized(members)))
    ensures forall e :: e in SelectedOf(Normalized(members)) ==> Genuine(members, e)
  {
    FirstPassExactly(members);
    SelectedDistinct(Normalized(members));
    forall e | e in SelectedOf(Normalized(members)) ensures Genuine(members, e) { SelectedGenuine(members, e); }
  }

  /** Members that can be extracted: different paths, none of them the root. */
  ghost predicate Usable(entries: seq<Entry>) {
    DistinctPaths(entries) && forall i :: 0 <= i < |entries| ==> entries[i].path != []
  }

  lemma SelectedUsable(members: seq<Member>)
    requires FirstPass(members)
    ensures Usable(SelectedOf(Normalized(members)))
  {
    SelectedFacts(members);
    var entries := SelectedOf(Normalized(members));
    forall i | 0 <= i < |entries| ensures entries[i].path != [] {
      assert Genuine(members, entries[i]);
    }
  }

  lemma {:induction false} SelectedFrom(entries: seq<Entry>, e: Entry)
    ensures e in SelectedOf(entries) <==> e in entries && Selected(e.path)
  {
    if entries != [] {
      var front, last := entries[..|entries| - 1], entries[|entries| - 1];
      SelectedFrom(front, e);
      assert e in entries <==> e in front || e == last;
    }
  }

  lemma {:induction false} SelectedDistinct(entries: seq<Entry>)
    requires DistinctPaths(entries)
    ensures DistinctPaths(SelectedOf(entries))
  {
    if entries != [] {
      var front, last := entries[..|entries| - 1], entries[|entries| - 1];
      assert forall i :: 0 <= i < |front| ==> front[i] == entries[i];
      SelectedDistinct(front);
      forall e | e in SelectedOf(front) ensures e.path != last.path {
        SelectedFrom(front, e);
      }
      DistinctNext(SelectedOf(front), last);
    }
  }

  lemma {:induction false} NormalizedFrom(members: seq<Member>, e: Entry)
    requires e in Normalized(members)
    ensures e.member in members && NormalName(e.member.name) == Some(e.path)
  {
    var front, m := members[..|members| - 1], members[|members| - 1];
    if e in Normalized(front) { NormalizedFrom(front, e); }
  }

  lemma MembersHoused(t: Tree, entries: seq<Entry>)
    requires Sound(WithDirs(t, DirSet(entries))) && forall i :: 0 <= i < |entries| ==> entries[i].path != []
    ensures AllHoused(WithDirs(t, DirSet(entries)), entries)
  {
    DirsNested(entries);
    forall i | 0 <= i < |entries| ensures Housed(WithDirs(t, DirSet(entries)), entries[i].path) {
      NestedHoused(t, DirSet(entries), entries[i].path);
    }
  }

  lemma StillHoused(t: Tree, entries: seq<Entry>)
    requires AllHoused(t, entries) && Room(t, entries, Regular)
    ensures AllHoused(Placed(t, OfKind(entries, Regular)), entries)
  {
    KindNew(t, entries, Regular);
    forall i | 0 <= i < |entries| ensures Housed(Placed(t, OfKind(entries, Regular)), entries[i].path) {
      StillDir(t, OfKind(entries, Regular), Parent(entries[i].path));
    }
  }

  lemma KindNew(t: Tree, entries: seq<Entry>, kind: Kind)
    requires Room(t, entries, kind)
    ensures NewIn(t, OfKind(entries, kind))
  {
    forall e | e in OfKind(entries, kind) ensures e.path !in t {
      OfKindExactly(entries, kind, e);
      var j :| 0 <= j < |entries| && entries[j] == e;
      assert RoomFor(t, entries[j]);
    }
  }

  /** The files take no link's place, so the links find room after them as before. */
  lemma FilesThenLinks(t: Tree, entries: seq<Entry>)
    requires DistinctPaths(entries)
    ensures Room(Placed(t, OfKind(entries, Regular)), entries, Symlink) <==> Room(t, entries, Symlink)
    ensures Placed(Placed(t, OfKind(entries, Regular)), OfKind(entries, Symlink))
         == Placed(t, OfKind(entries, Regular) + OfKind(entries, Symlink))
  {
    var files := OfKind(entries, Regular);
    PlacedAppend(t, files, OfKind(entries, Symlink));
    forall i | 0 <= i < |entries| && entries[i].member.kind == Symlink
      ensures RoomFor(Placed(t, files), entries[i]) <==> RoomFor(t, entries[i])
    {
      PlacedKeys(t, files, entries[i].path);
      forall e | e in files ensures e.path != entries[i].path {
        OfKindExactly(entries, Regular, e);
      }
    }
  }

  /** A file or link member that belongs at `p`. */
  ghost predicate PutAt(entries: seq<Entry>, i: int, p: Path) {
    0 <= i < |entries| && entries[i].path == p
    && (entries[i].member.kind == Regular || entries[i].member.kind == Symlink)
  }

  lemma PathListed(entries: seq<Entry>, p: Path)
    ensures p in PathsOf(OfKind(entries, Regular) + OfKind(entries, Symlink)) <==>
      exists i :: PutAt(entries, i, p)
  {
    var all := OfKind(entries, Regular) + OfKind(entries, Symlink);
    forall e ensures e in all <==> e in entries && (e.member.kind == Regular || e.member.kind == Symlink) {
      OfKindExactly(entries, Regular, e);
      OfKindExactly(entries, Symlink, e);
    }
    if i :| PutAt(entries, i, p) { assert entries[i] in all; }
    if p in PathsOf(all) {
      var e :| e in all && e.path == p;
      var i :| 0 <= i < |entries| && entries[i] == e;
      assert PutAt(entries, i, p);
    }
  }

  /** A finished extraction: what was there is still there, the directories are exactly
      the proper prefixes of the selected members, every file holds its member's bytes
      and every link its member's target, and there is nothing else. */
  lemma TreeExactly(t: Tree, entries: seq<Entry>, p: Path)
    requires Clear(t, entries) && DistinctPaths(entries)
    ensures p in t ==> p in Result(t, entries) && Result(t, entries)[p] == t[p]
    ensures InDirs(entries, p) ==> IsDir(Result(t, entries), p)
    ensures forall i :: PutAt(entries, i, p) ==>
              p !in t && p in Result(t, entries) && Result(t, entries)[p] == NodeOf(entries[i])
    ensures p in Result(t, entries) ==> p in t || InDirs(entries, p) || exists i :: PutAt(entries, i, p)
  {
    var base := WithDirs(t, DirSet(entries));
    var all := OfKind(entries, Regular) + OfKind(entries, Symlink);
    PlacedKeys(base, all, p);
    PathListed(entries, p);
    DirSetMeans(entries, p);
    if i :| PutAt(entries, i, p) {
      assert RoomFor(base, entries[i]);
      OnlyAt(base, entries, i);
      assert forall j :: 0 <= j < |entries| && entries[j].path == p ==> j == i;
    }
  }

  lemma OnlyAt(t: Tree, entries: seq<Entry>, i: nat)
    requires i < |entries| && DistinctPaths(entries)
    requires (entries[i].member.kind == Regular || entries[i].member.kind == Symlink)
    ensures var all := OfKind(entries, Regular) + OfKind(entries, Symlink);
      entries[i].path in Placed(t, all) && Placed(t, all)[entries[i].path] == NodeOf(entries[i])
  {
    var files, links, e := OfKind(entries, Regular), OfKind(entries, Symlink), entries[i];
    PlacedAppend(t, files, links);
    if e.member.kind == Symlink {
      KindDistinct(entries, Symlink);
      OfKindExactly(entries, Symlink, e);
      var j :| 0 <= j < |links| && links[j] == e;
      PlacedAt(Placed(t, files), links, j);
    } else {
      KindDistinct(entries, Regular);
      OfKindExactly(entries, Regular, e);
      var j :| 0 <= j < |files| && files[j] == e;
      PlacedAt(t, files, j);
      forall l | l in links ensures l.path != e.path {
        OfKindExactly(entries, Symlink, l);
      }
      PlacedKeys(Placed(t, files), links, e.path);
    }
  }

  lemma {:induction false} KindDistinct(entries: seq<Entry>, kind: Kind)
    requires DistinctPaths(entries)
    ensures DistinctPaths(OfKind(entries, kind))
  {
    if entries != [] {
      var front, last := entries[..|entries| - 1], entries[|entries| - 1];
      assert forall i :: 0 <= i < |front| ==> front[i] == entries[i];
      KindDistinct(front, kind);
      forall e | e in OfKind(front, kind) ensures e.path != last.path {
        OfKindExactly(front, kind, e);
      }
      DistinctNext(OfKind(front, kind), last);
    }
  }

  /** Read lexically, component by component from the link's own directory, the target of
      an extracted link stays below the root throughout. `LinkResolution` says when that
      is also what following it through other links comes to. */
  lemma LinksStayInside(members: seq<Member>, required: set<Path>, e: Entry)
    requires ArchiveOk(members, required)
    requires e in SelectedOf(Normalized(members)) && e.member.kind == Symlink
    ensures e.path != []
    ensures forall k :: 0 <= k <= |Parts(e.member.link)| ==> |Parent(e.path)| + Balance(Parts(e.member.link)[..k]) >= 0
    ensures |Parent(e.path)| + Balance(Parts(e.member.link)) > 0
  {
    SelectedFacts(members);
    InsideExactly(|e.path| - 1, Parts(e.member.link));
  }
}
