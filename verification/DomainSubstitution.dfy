/**
 * Domain substitution of a source tree and its reversal from the cache: files are
 * rewritten in place, timestamps shifted, and the originals kept in the cache next
 * to an index of checksums that must match before anything is restored.
 */
module DomainSubstitution {
  import opened Wrappers
  import opened Sequences
  import opened DomainIndex
  import opened TextLines

  type Bytes = seq<nat>

  const TIMESTAMP_DELTA: int := 1_000_000_000

  datatype Node = Regular(content: Bytes, mtime: int) | Symlink(target: string)
  type Tree = map<Path, Node>

  /** The regular expressions, as the substituted text and how many matches it had, and
      the checksum. */
  datatype Engine = Engine(substitute: Bytes -> (Bytes, nat), crc: Bytes -> Crc)

  /** What is saved of one substituted file. */
  datatype Saved = Saved(entry: Entry, original: Bytes)

  /** The cache archive: its index file and the original files. */
  datatype Cache = Cache(index: string, originals: map<Path, Bytes>)

  predicate Matches(e: Engine, content: Bytes) { content != [] && e.substitute(content).1 > 0 }

  // ---------- applying ----------

  /** A listed path that substitution touches: an existing regular file. */
  predicate Touched(tree: Tree, path: Path) { path in tree && tree[path].Regular? }

  function SubstitutedNode(e: Engine, node: Node): Node
    requires node.Regular?
  {
    Regular(if Matches(e, node.content) then e.substitute(node.content).0 else node.content,
            node.mtime + TIMESTAMP_DELTA)
  }

  /** A file that has any bytes and any match is rewritten, every other keeps its content;
      the time moves either way. */
  lemma NodeExactly(e: Engine, node: Node)
    requires node.Regular?
    ensures SubstitutedNode(e, node).mtime == node.mtime + 1_000_000_000
    ensures node.content != [] && e.substitute(node.content).1 >= 1 ==>
              Matches(e, node.content) && SubstitutedNode(e, node).content == e.substitute(node.content).0
    ensures node.content == [] || e.substitute(node.content).1 == 0 ==>
              !Matches(e, node.content) && SubstitutedNode(e, node).content == node.content
  {
  }

  datatype Application = Application(tree: Tree, saved: seq<Saved>, refused: bool)

  /** The listed paths in order, up to the first that holds the delimiter. */
  function ApplyPaths(e: Engine, tree: Tree, paths: seq<Path>): Application
    decreases |paths|
  {
    if paths == [] then Application(tree, [], false)
    else if DELIMITER in paths[0] then Application(tree, [], true)
    else if !Touched(tree, paths[0]) then ApplyPaths(e, tree, paths[1..])
    else
      var node := tree[paths[0]];
      var rest := ApplyPaths(e, tree[paths[0] := SubstitutedNode(e, node)], paths[1..]);
      if Matches(e, node.content)
      then rest.(saved := [Saved(Entry(paths[0], e.crc(e.substitute(node.content).0)), node.content)] + rest.saved)
      else rest
  }

  function Entries(saved: seq<Saved>): (r: seq<Entry>)
    ensures |r| == |saved| && forall i :: 0 <= i < |r| ==> r[i] == saved[i].entry
  {
    if saved == [] then [] else [saved[0].entry] + Entries(saved[1..])
  }

  function Originals(saved: seq<Saved>): map<Path, Bytes>
    decreases |saved|
  {
    if saved == [] then map[]
    else Originals(saved[..|saved| - 1])[saved[|saved| - 1].entry.path := saved[|saved| - 1].original]
  }

  function CacheOf(saved: seq<Saved>): Cache { Cache(IndexText(Entries(saved)), Originals(saved)) }

  /** For distinct paths the tree after applying is, file by file, the original with
      every listed regular file substituted where it matches and shifted in time. */
  lemma {:induction false} ApplyPathsTree(e: Engine, tree: Tree, paths: seq<Path>)
    requires Distinct(paths) && !ApplyPaths(e, tree, paths).refused
    ensures ApplyPaths(e, tree, paths).tree ==
              map p | p in tree :: if p in paths && tree[p].Regular? then SubstitutedNode(e, tree[p]) else tree[p]
    decreases |paths|
  {
    if paths != [] {
      var p, rest := paths[0], paths[1..];
      assert forall q :: q in paths <==> q == p || q in rest;
      assert p !in rest;
      var next := if Touched(tree, p) then tree[p := SubstitutedNode(e, tree[p])] else tree;
      ApplyPathsTree(e, next, rest);
    }
  }

  /** A saved file as applying must save it: listed, matching, with its original
      content and the checksum of what replaced it. */
  predicate Faithful(e: Engine, tree: Tree, paths: seq<Path>, s: Saved) {
    var p := s.entry.path;
    && p in paths && Touched(tree, p) && Matches(e, tree[p].content) && DELIMITER !in p
    && s == Saved(Entry(p, e.crc(e.substitute(tree[p].content).0)), tree[p].content)
  }

  predicate DistinctSaved(saved: seq<Saved>) {
    forall i, j :: 0 <= i < j < |saved| ==> saved[i].entry.path != saved[j].entry.path
  }

  lemma {:induction false} SavedFaithful(e: Engine, tree: Tree, paths: seq<Path>)
    requires Distinct(paths) && !ApplyPaths(e, tree, paths).refused
    ensures forall s :: s in ApplyPaths(e, tree, paths).saved ==> Faithful(e, tree, paths, s)
    ensures DistinctSaved(ApplyPaths(e, tree, paths).saved)
    decreases |paths|
  {
    if paths != [] {
      var p, rest := paths[0], paths[1..];
      assert forall q :: q in rest ==> q in paths && q != p;
      var next := if Touched(tree, p) then tree[p := SubstitutedNode(e, tree[p])] else tree;
      var less := ApplyPaths(e, next, rest).saved;
      SavedFaithful(e, next, rest);
      forall s | s in less
        ensures Faithful(e, tree, paths, s) && s.entry.path != p
      {
        assert Faithful(e, next, rest, s);
      }
    }
  }

  /** Every listed file that matches is among the saved ones. */
  lemma {:induction false} SavedComplete(e: Engine, tree: Tree, paths: seq<Path>, path: Path)
    requires Distinct(paths) && !ApplyPaths(e, tree, paths).refused
    requires path in paths && Touched(tree, path) && Matches(e, tree[path].content)
    ensures exists s :: s in ApplyPaths(e, tree, paths).saved && s.entry.path == path
    decreases |paths|
  {
    var p, rest := paths[0], paths[1..];
    assert path == p || path in rest;
    var next := if Touched(tree, p) then tree[p := SubstitutedNode(e, tree[p])] else tree;
    if path == p {
      assert ApplyPaths(e, tree, paths).saved[0].entry.path == path;
    } else {
      SavedComplete(e, next, rest, path);
      var s :| s in ApplyPaths(e, next, rest).saved && s.entry.path == path;
      assert s in ApplyPaths(e, tree, paths).saved;
    }
  }

  // ---------- reading the index back ----------

  datatype Validation = Valid(paths: set<Path>) | Invalid | Failed

  /** Whether the index lines from here on leave the index valid, and the paths they
      add to those seen; `Failed` is an exception: a hash that is no number, or a file
      that cannot be read. */
  function ValidateLines(e: Engine, tree: Tree, lines: seq<string>, seen: set<Path>, valid: bool): Validation
    decreases |lines|
  {
    if lines == [] then (if valid then Valid(seen) else Invalid)
    else
      match ReadEntry(lines[0])
      case Skipped => ValidateLines(e, tree, lines[1..], seen, valid)
      case Rejected => ValidateLines(e, tree, lines[1..], seen, false)
      case NotANumber => Failed
      case Read(path, crc) =>
        if !Touched(tree, path) then Failed
        else if e.crc(tree[path].content) as nat != crc then ValidateLines(e, tree, lines[1..], seen, false)
        else if path in seen then ValidateLines(e, tree, lines[1..], seen, false)
        else ValidateLines(e, tree, lines[1..], seen + {path}, valid)
  }

  /** The file behind an entry is there with the recorded checksum. */
  predicate Current(e: Engine, tree: Tree, entry: Entry) {
    Touched(tree, entry.path) && e.crc(tree[entry.path].content) == entry.crc
  }

  function PathsOf(entries: seq<Entry>): set<Path> {
    if entries == [] then {} else {entries[0].path} + PathsOf(entries[1..])
  }

  predicate AllCurrent(e: Engine, tree: Tree, entries: seq<Entry>) {
    entries == [] || (Current(e, tree, entries[0]) && AllCurrent(e, tree, entries[1..]))
  }

  /** The lines are the printed entries of distinct listable paths not seen before. */
  predicate Printed(lines: seq<string>, entries: seq<Entry>, seen: set<Path>)
    decreases |entries|
  {
    && |lines| == |entries|
    && (entries != [] ==>
          && lines[0] == IndexLine(entries[0]) && Listable(entries[0].path) && entries[0].path !in seen
          && Printed(lines[1..], entries[1..], seen + {entries[0].path}))
  }

  /** A line that fails its check leaves the rest unable to make the index valid. */
  lemma {:induction false} InvalidStays(e: Engine, tree: Tree, lines: seq<string>, seen: set<Path>)
    ensures !ValidateLines(e, tree, lines, seen, false).Valid?
    decreases |lines|
  {
    if lines != [] {
      InvalidStays(e, tree, lines[1..], seen);
      match ReadEntry(lines[0])
      case Read(path, _) => InvalidStays(e, tree, lines[1..], seen + {path});
      case _ =>
    }
  }

  /** An index printed from entries of distinct paths is valid exactly when every file
      behind it is current, and then it lists exactly the entries' paths. */
  lemma {:induction false} PrintedIndexValid(e: Engine, tree: Tree, lines: seq<string>, entries: seq<Entry>,
                                             seen: set<Path>)
    requires Printed(lines, entries, seen)
    ensures ValidateLines(e, tree, lines, seen, true) ==
              if AllCurrent(e, tree, entries) then Valid(seen + PathsOf(entries))
              else ValidateLines(e, tree, lines, seen, true)
    ensures ValidateLines(e, tree, lines, seen, true).Valid? <==> AllCurrent(e, tree, entries)
    decreases |lines|
  {
    if lines != [] {
      var x := entries[0];
      EntryRoundTrip(x);
      if Current(e, tree, x) {
        PrintedIndexValid(e, tree, lines[1..], entries[1..], seen + {x.path});
        assert seen + {x.path} + PathsOf(entries[1..]) == seen + PathsOf(entries);
      } else {
        InvalidStays(e, tree, lines[1..], seen);
      }
    }
  }

  // ---------- restoring ----------

  /** The tree with the originals of some paths put back over the current files, and
      their timestamps shifted back. */
  function Restored(tree: Tree, originals: map<Path, Bytes>, paths: set<Path>): Tree {
    map p | p in tree ::
      if p in paths && p in originals && tree[p].Regular?
      then Regular(originals[p], tree[p].mtime - TIMESTAMP_DELTA) else tree[p]
  }

  lemma {:induction false} OriginalsFaithful(saved: seq<Saved>)
    requires DistinctSaved(saved)
    ensures Originals(saved).Keys == set s | s in saved :: s.entry.path
    ensures forall s :: s in saved ==> Originals(saved)[s.entry.path] == s.original
    decreases |saved|
  {
    if saved != [] {
      var front, last := saved[..|saved| - 1], saved[|saved| - 1];
      assert saved == front + [last];
      OriginalsFaithful(front);
      forall s | s in front ensures s.entry.path != last.entry.path {
        var i :| 0 <= i < |front| && front[i] == s;
        assert saved[i] == s && saved[|saved| - 1] == last;
      }
    }
  }

  /** What the tree looks like after applying and reverting: only the listed regular
      files without a match differ, and only in their timestamp. */
  function Residue(e: Engine, tree: Tree, paths: seq<Path>): Tree {
    map p | p in tree ::
      if p in paths && tree[p].Regular? && !Matches(e, tree[p].content)
      then Regular(tree[p].content, tree[p].mtime + TIMESTAMP_DELTA) else tree[p]
  }

  predicate AllListable(paths: seq<Path>) { forall i :: 0 <= i < |paths| ==> Listable(paths[i]) }

  lemma {:induction false} ListableNotRefused(e: Engine, tree: Tree, paths: seq<Path>)
    requires AllListable(paths)
    ensures !ApplyPaths(e, tree, paths).refused
    decreases |paths|
  {
    if paths != [] {
      var p := paths[0];
      ListableNotRefused(e, if Touched(tree, p) then tree[p := SubstitutedNode(e, tree[p])] else tree, paths[1..]);
    }
  }

  /** The index of a cache read against any tree: valid exactly when every saved file
      still has the checksum it was given. */
  lemma CacheValidExactly(e: Engine, tree: Tree, paths: seq<Path>, now: Tree)
    requires Distinct(paths) && AllListable(paths)
    ensures var saved := ApplyPaths(e, tree, paths).saved;
      var v := ValidateLines(e, now, SplitLines(CacheOf(saved).index), {}, true);
      && (v.Valid? <==> forall s :: s in saved ==> Current(e, now, s.entry))
      && (v.Valid? ==> v.paths == Originals(saved).Keys)
  {
    SavedListable(e, tree, paths);
    SavedValidExactly(e, ApplyPaths(e, tree, paths).saved, now);
    OriginalsFaithful(ApplyPaths(e, tree, paths).saved);
  }

  lemma SavedListable(e: Engine, tree: Tree, paths: seq<Path>)
    requires Distinct(paths) && AllListable(paths)
    ensures var saved := ApplyPaths(e, tree, paths).saved;
      DistinctSaved(saved) && forall i :: 0 <= i < |saved| ==> Listable(saved[i].entry.path)
  {
    ListableNotRefused(e, tree, paths);
    SavedFaithful(e, tree, paths);
    var saved := ApplyPaths(e, tree, paths).saved;
    forall i | 0 <= i < |saved| ensures Listable(saved[i].entry.path) {
      assert Faithful(e, tree, paths, saved[i]);
    }
  }

  lemma SavedValidExactly(e: Engine, saved: seq<Saved>, now: Tree)
    requires DistinctSaved(saved) && forall i :: 0 <= i < |saved| ==> Listable(saved[i].entry.path)
    ensures var v := ValidateLines(e, now, SplitLines(CacheOf(saved).index), {}, true);
      && (v.Valid? <==> forall s :: s in saved ==> Current(e, now, s.entry))
      && (v.Valid? ==> v.paths == set s | s in saved :: s.entry.path)
  {
    var entries := Entries(saved);
    IndexSplits(entries);
    EntriesPrinted(SplitLines(IndexText(entries)), saved, {});
    PrintedIndexValid(e, now, SplitLines(IndexText(entries)), entries, {});
    PathsAgree(saved);
    CurrentAgree(e, now, saved);
  }

  lemma {:induction false} EntriesPrinted(lines: seq<string>, saved: seq<Saved>, seen: set<Path>)
    requires DistinctSaved(saved) && |lines| == |saved|
    requires forall i :: 0 <= i < |saved| ==>
               lines[i] == IndexLine(saved[i].entry) && Listable(saved[i].entry.path) && saved[i].entry.path !in seen
    ensures Printed(lines, Entries(saved), seen)
    decreases |saved|
  {
    if saved != [] {
      EntriesPrinted(lines[1..], saved[1..], seen + {saved[0].entry.path});
      assert Entries(saved)[1..] == Entries(saved[1..]);
    }
  }

  lemma {:induction false} PathsAgree(saved: seq<Saved>)
    ensures PathsOf(Entries(saved)) == set s | s in saved :: s.entry.path
  {
    if saved != [] {
      PathsAgree(saved[1..]);
      assert Entries(saved)[1..] == Entries(saved[1..]);
      assert forall s :: s in saved <==> s == saved[0] || s in saved[1..];
    }
  }

  lemma {:induction false} CurrentAgree(e: Engine, now: Tree, saved: seq<Saved>)
    ensures AllCurrent(e, now, Entries(saved)) <==> forall s :: s in saved ==> Current(e, now, s.entry)
  {
    if saved != [] {
      CurrentAgree(e, now, saved[1..]);
      assert Entries(saved)[1..] == Entries(saved[1..]);
      assert forall s :: s in saved <==> s == saved[0] || s in saved[1..];
    }
  }

  /** Reverting right after applying finds a valid index and gives every file its
      content back; the timestamps that stay shifted are those of the residue. */
  lemma RevertUndoesApply(e: Engine, tree: Tree, paths: seq<Path>)
    requires Distinct(paths) && AllListable(paths)
    ensures var a := ApplyPaths(e, tree, paths);
      var v := ValidateLines(e, a.tree, SplitLines(CacheOf(a.saved).index), {}, true);
      && !a.refused && v == Valid(Originals(a.saved).Keys)
      && Restored(a.tree, Originals(a.saved), v.paths) == Residue(e, tree, paths)
  {
    ListableNotRefused(e, tree, paths);
    SavedFaithful(e, tree, paths);
    ApplyPathsTree(e, tree, paths);
    var a := ApplyPaths(e, tree, paths);
    OriginalsFaithful(a.saved);
    forall s | s in a.saved ensures Current(e, a.tree, s.entry) {
      assert Faithful(e, tree, paths, s);
    }
    CacheValidExactly(e, tree, paths, a.tree);
    forall p | p in tree
      ensures Restored(a.tree, Originals(a.saved), Originals(a.saved).Keys)[p] == Residue(e, tree, paths)[p]
    {
      SavedAt(e, tree, paths, p);
    }
  }

  /** Membership in the cache, path by path. */
  lemma SavedAt(e: Engine, tree: Tree, paths: seq<Path>, path: Path)
    requires Distinct(paths) && AllListable(paths) && path in tree
    ensures var originals := Originals(ApplyPaths(e, tree, paths).saved);
      && (path in originals <==> path in paths && tree[path].Regular? && Matches(e, tree[path].content))
      && (path in originals ==> originals[path] == tree[path].content)
  {
    ListableNotRefused(e, tree, paths);
    SavedFaithful(e, tree, paths);
    var saved := ApplyPaths(e, tree, paths).saved;
    OriginalsFaithful(saved);
    if path in Originals(saved) {
      var s :| s in saved && s.entry.path == path;
      assert Faithful(e, tree, paths, s);
    }
    if path in paths && tree[path].Regular? && Matches(e, tree[path].content) {
      SavedComplete(e, tree, paths, path);
    }
  }

  // ---------- the tree on disk ----------

  datatype ApplyExit = Applied | CacheExists | DelimiterInPath
  datatype RevertExit = Reverted | NoCache | IndexRefused | ReadFailed | OriginalMissing

  class SourceTree {
    const engine: Engine
    var tree: Tree
    var cache: Option<Cache>

    constructor (engine: Engine, tree: Tree)
      ensures this.engine == engine && this.tree == tree && cache == None
    {
      this.engine, this.tree, cache := engine, tree, None;
    }

    /** _substitute_path under the timestamp shift: rewrites one regular file and gives
        back its original content if it was changed. */
    method SubstitutePath(path: Path) returns (original: Option<Bytes>, crc: Crc)
      requires Touched(tree, path)
      modifies this`tree
      ensures tree == old(tree)[path := SubstitutedNode(engine, old(tree[path]))]
      ensures original == if old(Matches(engine, tree[path].content)) then Some(old(tree[path].content)) else None
      ensures original.Some? ==> crc == engine.crc(tree[path].content)
    {
      var content, stamp := tree[path].content, tree[path].mtime + TIMESTAMP_DELTA;
      original, crc := None, 0;
      if content != [] {
        var (substituted, count) := engine.substitute(content);
        if count > 0 {
          tree := tree[path := Regular(substituted, tree[path].mtime)];
          original, crc := Some(content), engine.crc(substituted);
        }
      }
      tree := tree[path := Regular(tree[path].content, stamp)];
    }

    /** The loop of apply_substitution over the listed paths: the index, the originals,
        and whether a path was refused. */
    method SubstituteAll(paths: seq<Path>) returns (cached: Cache, refused: bool)
      modifies this`tree
      ensures var a := ApplyPaths(engine, old(tree), paths);
        tree == a.tree && refused == a.refused && (!refused ==> cached == CacheOf(a.saved))
    {
      cached := Cache("", map[]);
      ghost var saved: seq<Saved> := [];
      var i := 0;
      while i < |paths|
        invariant i <= |paths| && cached == CacheOf(saved)
        invariant Ahead(saved, ApplyPaths(engine, tree, paths[i..])) == ApplyPaths(engine, old(tree), paths)
      {
        var path := paths[i];
        assert paths[i..][0] == path && paths[i..][1..] == paths[i + 1..];
        if DELIMITER in path { return cached, true; }
        if path in tree && tree[path].Regular? {
          var original, crc := SubstitutePath(path);
          if original.Some? {
            ghost var s := Saved(Entry(path, crc), original.value);
            SavedGrows(saved, s);
            AheadGrows(saved, s, ApplyPaths(engine, tree, paths[i + 1..]));
            cached := Cache(cached.index + (path + [DELIMITER] + Hex(crc as nat, 8)) + [NEWLINE],
                            cached.originals[path := original.value]);
            saved := saved + [s];
          }
        }
        i := i + 1;
      }
      assert paths[i..] == [] && saved + [] == saved;
      return cached, false;
    }

    /** apply_substitution, with a cache path or without. */
    method Apply(paths: seq<Path>, keep: bool) returns (exit: ApplyExit)
      modifies this
      ensures exit == CacheExists <==> keep && old(cache).Some?
      ensures exit == CacheExists ==> tree == old(tree) && cache == old(cache)
      ensures exit != CacheExists ==>
                var a := ApplyPaths(engine, old(tree), paths);
                && tree == a.tree && (exit == DelimiterInPath <==> a.refused)
                && cache == if !keep then old(cache) else if a.refused then None else Some(CacheOf(a.saved))
    {
      if keep && cache.Some? { return CacheExists; }
      var cached, refused := SubstituteAll(paths);
      if refused {
        if keep { cache := None; }
        return DelimiterInPath;
      }
      if keep { cache := Some(cached); }
      return Applied;
    }

    /** _validate_file_index. */
    method ValidateIndex(index: string) returns (v: Validation)
      ensures v == ValidateLines(engine, tree, SplitLines(index), {}, true)
    {
      var lines := SplitLines(index);
      var seen: set<Path>, valid := {}, true;
      var i := 0;
      while i < |lines|
        invariant i <= |lines|
        invariant ValidateLines(engine, tree, lines[i..], seen, valid) == ValidateLines(engine, tree, lines, {}, true)
      {
        assert lines[i..][0] == lines[i] && lines[i..][1..] == lines[i + 1..];
        match ReadEntry(lines[i]) {
          case Skipped =>
          case Rejected => valid := false;
          case NotANumber => return Failed;
          case Read(path, crc) =>
            if path !in tree || !tree[path].Regular? { return Failed; }
            if engine.crc(tree[path].content) as nat != crc {
              valid := false;
            } else if path in seen {
              valid := false;
            } else {
              seen := seen + {path};
            }
        }
        i := i + 1;
      }
      assert lines[i..] == [];
      return if valid then Valid(seen) else Invalid;
    }

    /** revert_substitution. Nothing in the tree changes unless the whole index is
        valid, and the cache goes only if every original was used. */
    method Revert() returns (exit: RevertExit)
      modifies this
      ensures exit == NoCache <==> old(cache) == None
      ensures exit in {NoCache, IndexRefused, ReadFailed} ==> tree == old(tree) && cache == old(cache)
      ensures old(cache).Some? ==>
                var c := old(cache).value;
                var v := ValidateLines(engine, old(tree), SplitLines(c.index), {}, true);
                && (exit == IndexRefused <==> v.Invalid?) && (exit == ReadFailed <==> v.Failed?)
                && (v.Valid? && v.paths <= c.originals.Keys ==>
                      && exit == Reverted && tree == Restored(old(tree), c.originals, v.paths)
                      && cache == if v.paths == c.originals.Keys then None else old(cache))
    {
      if cache == None { return NoCache; }
      var c := cache.value;
      var v := ValidateIndex(c.index);
      if v.Invalid? { return IndexRefused; }
      if v.Failed? { return ReadFailed; }
      ValidTouched(engine, tree, SplitLines(c.index), {}, true);
      var complete, unused := RestoreOriginals(v.paths, c.originals);
      if !complete { return OriginalMissing; }
      NothingUnused(c.originals, v.paths);
      if unused == map[] { cache := None; }
      return Reverted;
    }

    /** Move the originals over the substituted files, in any order. */
    method RestoreOriginals(paths: set<Path>, originals: map<Path, Bytes>)
      returns (complete: bool, unused: map<Path, Bytes>)
      requires forall p :: p in paths ==> Touched(tree, p)
      modifies this`tree
      ensures complete <==> paths <= originals.Keys
      ensures complete ==> tree == Restored(old(tree), originals, paths) && unused == originals - paths
    {
      var left := paths;
      unused := originals;
      assert tree == Restored(tree, originals, {}) && originals - {} == originals;
      while left != {}
        invariant left <= paths && paths - left <= originals.Keys
        invariant forall p :: p in paths ==> Touched(tree, p)
        invariant tree == Restored(old(tree), originals, paths - left)
        invariant unused == originals - (paths - left)
        decreases left
      {
        var path :| path in left;
        if path !in unused {
          assert path !in originals;
          return false, unused;
        }
        tree := tree[path := Regular(unused[path], tree[path].mtime - TIMESTAMP_DELTA)];
        unused := unused - {path};
        assert paths - (left - {path}) == (paths - left) + {path};
        left := left - {path};
      }
      assert paths - left == paths;
      return true, unused;
    }
  }

  lemma NothingUnused(originals: map<Path, Bytes>, paths: set<Path>)
    requires paths <= originals.Keys
    ensures originals - paths == map[] <==> paths == originals.Keys
  {
    var unused := originals - paths;
    assert unused.Keys == originals.Keys - paths;
    if paths == originals.Keys { assert unused.Keys == {}; }
    if unused == map[] {
      forall p | p in originals ensures p in paths { assert p !in unused.Keys; }
    }
  }

  /** `more` continues an application that has already saved some files. */
  function Ahead(saved: seq<Saved>, more: Application): Application { more.(saved := saved + more.saved) }

  lemma AheadGrows(saved: seq<Saved>, s: Saved, more: Application)
    ensures Ahead(saved + [s], more) == Ahead(saved, more.(saved := [s] + more.saved))
  {
    assert (saved + [s]) + more.saved == saved + ([s] + more.saved);
  }

  lemma SavedGrows(saved: seq<Saved>, s: Saved)
    ensures IndexText(Entries(saved + [s])) == IndexText(Entries(saved)) + IndexLine(s.entry) + [NEWLINE]
    ensures Originals(saved + [s]) == Originals(saved)[s.entry.path := s.original]
  {
    assert (saved + [s])[..|saved|] == saved;
    assert Entries(saved + [s]) == Entries(saved) + [s.entry];
    IndexGrows(Entries(saved), s.entry);
  }

  lemma {:induction false} IndexGrows(entries: seq<Entry>, x: Entry)
    ensures IndexText(entries + [x]) == IndexText(entries) + IndexLine(x) + [NEWLINE]
  {
    if entries == [] {
      assert [] + [x] == [x] && [x][1..] == [];
    } else {
      var head, rest := IndexLine(entries[0]) + [NEWLINE], entries[1..];
      IndexGrows(rest, x);
      assert (entries + [x])[1..] == rest + [x];
      assert head + (IndexText(rest) + IndexLine(x) + [NEWLINE]) == (head + IndexText(rest)) + IndexLine(x) + [NEWLINE];
    }
  }

  lemma {:induction false} ValidTouched(e: Engine, tree: Tree, lines: seq<string>, seen: set<Path>, valid: bool)
    requires forall p :: p in seen ==> Touched(tree, p)
    ensures var v := ValidateLines(e, tree, lines, seen, valid);
      v.Valid? ==> forall p :: p in v.paths ==> Touched(tree, p)
    decreases |lines|
  {
    if lines != [] {
      match ReadEntry(lines[0])
      case Skipped => ValidTouched(e, tree, lines[1..], seen, valid);
      case Rejected => ValidTouched(e, tree, lines[1..], seen, false);
      case NotANumber =>
      case Read(path, crc) =>
        ValidTouched(e, tree, lines[1..], seen, false);
        if Touched(tree, path) { ValidTouched(e, tree, lines[1..], seen + {path}, valid); }
    }
  }

  /** Apply and revert on disk: every content is back, every substituted file has its
      old timestamp, the cache is gone, and the listed files without a match are left
      one delta late. */
  method ApplyThenRevert(s: SourceTree, paths: seq<Path>)
    requires s.cache == None && Distinct(paths) && AllListable(paths)
    modifies s
    ensures s.tree == Residue(s.engine, old(s.tree), paths) && s.cache == None
  {
    RevertUndoesApply(s.engine, s.tree, paths);
    var applied := s.Apply(paths, true);
    var reverted := s.Revert();
  }
}
