/**
 * What the extracted links mean to whoever follows them: targets read against the tree,
 * a link that is met replaced by its own target.
 */
module LinkResolution {
  import opened Wrappers
  import opened Sequences
  import opened ArchiveExtraction
  import opened ArchiveTree

  /** Where following a target ends: at a path, above the root, or nowhere because more
      links were met than may be followed. */
  datatype Where = At(path: Path) | Outside | TooManyLinks

  predicate IsLink(t: Tree, p: Path) { p in t && t[p].Link? }

  function Resolve(t: Tree, at: Path, components: Path, links: nat): Where
    decreases links, |components|
  {
    if components == [] then At(at)
    else if components[0] == ".." then
      if at == [] then Outside else Resolve(t, Parent(at), components[1..], links)
    else
      var next := at + [components[0]];
      if !IsLink(t, next) then Resolve(t, next, components[1..], links)
      else if links == 0 then TooManyLinks
      else Resolve(t, at, Parts(t[next].target) + components[1..], links - 1)
  }

  /** No component of the walk, read lexically, stands on a link. */
  predicate MeetsNoLink(t: Tree, at: Path, components: Path)
    decreases |components|
  {
    components == [] ||
    if components[0] == ".." then at == [] || MeetsNoLink(t, Parent(at), components[1..])
    else !IsLink(t, at + [components[0]]) && MeetsNoLink(t, at + [components[0]], components[1..])
  }

  /** The height, told from the first component instead of the last. */
  lemma {:induction false} HeightAhead(depth: nat, components: Path)
    requires components != []
    ensures Height(depth, components) ==
      if components[0] != ".." then Height(depth + 1, components[1..])
      else if depth == 0 then None
      else Height(depth - 1, components[1..])
    decreases |components|
  {
    var front := components[..|components| - 1];
    if front == [] {
      assert components[1..] == [];
    } else {
      HeightAhead(depth, front);
      assert front[1..] == components[1..][..|components| - 2];
    }
  }

  /** A target that meets no link means to the system what it means to the validator:
      it leaves the root in both readings or in none, and ends equally deep. */
  lemma {:induction false} LexicalIsPhysical(t: Tree, at: Path, components: Path, links: nat)
    requires MeetsNoLink(t, at, components)
    ensures Resolve(t, at, components, links) == Outside <==> Height(|at|, components) == None
    ensures Height(|at|, components).Some? ==>
              && Resolve(t, at, components, links).At?
              && |Resolve(t, at, components, links).path| == Height(|at|, components).value
    decreases |components|
  {
    if components != [] {
      HeightAhead(|at|, components);
      if components[0] != ".." {
        LexicalIsPhysical(t, at + [components[0]], components[1..], links);
      } else if at != [] {
        LexicalIsPhysical(t, Parent(at), components[1..], links);
      }
    }
  }

  // ---------- targets that go up only before they go down ----------

  predicate UpsFirst(components: Path) {
    forall i, j :: 0 <= i < j < |components| && components[j] == ".." ==> components[i] == ".."
  }

  predicate NoUps(components: Path) { forall i :: 0 <= i < |components| ==> components[i] != ".." }

  /** First at most `depth` steps up, then only down. */
  predicate Confined(depth: nat, components: Path)
    decreases |components|
  {
    components == [] ||
    if components[0] == ".." then depth > 0 && Confined(depth - 1, components[1..]) else NoUps(components)
  }

  lemma {:induction false} DownStaysInside(depth: nat, components: Path)
    requires NoUps(components)
    ensures Height(depth, components).Some?
  {
    if components != [] { DownStaysInside(depth, components[..|components| - 1]); }
  }

  /** Such targets are exactly those that the validator lets pass and that have no step
      up behind a step down. */
  lemma {:induction false} ConfinedExactly(depth: nat, components: Path)
    ensures Confined(depth, components) <==> UpsFirst(components) && Height(depth, components).Some?
    decreases |components|
  {
    if components != [] {
      HeightAhead(depth, components);
      if components[0] == ".." {
        if depth > 0 { ConfinedExactly(depth - 1, components[1..]); }
      } else if NoUps(components) {
        DownStaysInside(depth, components);
      } else {
        var j :| 0 <= j < |components| && components[j] == "..";
        assert !UpsFirst(components) by { assert components[0] != ".." && 0 < j; }
      }
    }
  }

  lemma {:induction false} ConfinedWithNames(depth: nat, components: Path, names: Path)
    requires Confined(depth, components) && NoUps(names)
    ensures Confined(depth, components + names)
    decreases |components|
  {
    if components == [] {
      assert components + names == names;
    } else if components[0] == ".." {
      ConfinedWithNames(depth - 1, components[1..], names);
      assert (components + names)[1..] == components[1..] + names;
    }
  }

  /** Every link of the tree is confined to the root. */
  ghost predicate LinksConfined(t: Tree) {
    forall p :: p in t && p != [] && t[p].Link? ==> Confined(|Parent(p)|, Parts(t[p].target))
  }

  /** Whatever links are met on the way, however often: a confined target never leads
      above the root. */
  lemma {:induction false} ConfinedStaysInside(t: Tree, at: Path, components: Path, links: nat)
    requires LinksConfined(t) && Confined(|at|, components)
    ensures Resolve(t, at, components, links) != Outside
    decreases links, |components|
  {
    if components != [] {
      if components[0] == ".." {
        ConfinedStaysInside(t, Parent(at), components[1..], links);
      } else {
        var next, names := at + [components[0]], components[1..];
        assert Parent(next) == at && NoUps(names);
        if !IsLink(t, next) {
          assert Confined(|next|, names);
          ConfinedStaysInside(t, next, names, links);
        } else if links > 0 {
          ConfinedWithNames(|at|, Parts(t[next].target), names);
          ConfinedStaysInside(t, at, Parts(t[next].target) + names, links - 1);
        }
      }
    }
  }

  /** Extraction of an accepted archive, whose link targets go up only before they go
      down, into a tree whose links are confined leaves every link confined: followed
      through whatever other links, none leads above the root. */
  lemma ExtractedResolveInside(before: Tree, members: seq<Member>, required: set<Path>, p: Path, links: nat)
    requires ArchiveOk(members, required) && LinksConfined(before)
    requires Clear(before, SelectedOf(Normalized(members)))
    requires forall e :: e in SelectedOf(Normalized(members)) && e.member.kind == Symlink ==>
               UpsFirst(Parts(e.member.link))
    ensures var t := Result(before, SelectedOf(Normalized(members)));
      && LinksConfined(t)
      && (p != [] && IsLink(t, p) ==> Resolve(t, Parent(p), Parts(t[p].target), links) != Outside)
  {
    var entries := SelectedOf(Normalized(members));
    var t := Result(before, entries);
    SelectedFacts(members);
    forall q | q in t && q != [] && t[q].Link?
      ensures Confined(|Parent(q)|, Parts(t[q].target))
    {
      TreeExactly(before, entries, q);
      if q !in before {
        var i :| PutAt(entries, i, q);
        assert Genuine(members, entries[i]) && entries[i] in entries;
        ConfinedExactly(|Parent(q)|, Parts(t[q].target));
      }
    }
    if p != [] && IsLink(t, p) { ConfinedStaysInside(t, Parent(p), Parts(t[p].target), links); }
  }
}
