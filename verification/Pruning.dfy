/**
 * Pruning a directory in one pass over its nodes, longest path first: files go, and a
 * directory goes if it is empty when its turn comes.
 */
module Pruning {
  import opened Sequences

  type Path = seq<string>

  /** A regular file or a symbolic link; a directory; or anything else, such as a socket. */
  datatype Node = FileOrLink | Folder | Special

  type Tree = map<Path, Node>

  predicate InFolder(t: Tree, p: Path) { |p| > 1 ==> Parent(p) in t && t[Parent(p)] == Folder }

  /** Every node below the pruned directory lies in a directory that is listed too. */
  ghost predicate Sound(t: Tree) { [] !in t && forall p {:trigger InFolder(t, p)} :: p in t ==> InFolder(t, p) }

  /** The length of a path as a string. */
  function Length(p: Path): nat { if p == [] then 0 else Length(Parent(p)) + 1 + |p[|p| - 1]| }

  /** The sorted listing of all nodes. */
  ghost predicate Listing(t: Tree, order: seq<Path>) {
    && (forall p :: p in t <==> p in order)
    && (forall i, j :: 0 <= i < j < |order| ==> Length(order[i]) >= Length(order[j]) && order[i] != order[j])
  }

  predicate Stays(t: Tree, kept: set<Path>, p: Path) { p in t && (p in kept || t[p] == Special) }

  /** The node, or something below it, may not be deleted. */
  ghost predicate Survives(t: Tree, kept: set<Path>, p: Path) { exists q :: p <= q && Stays(t, kept, q) }

  /** Between a node and one below it there are only directories. */
  lemma {:induction false} StepDown(t: Tree, p: Path, q: Path)
    requires Sound(t) && q in t && p != [] && p < q
    ensures var c := q[..|p| + 1]; c in t && Parent(c) == p && p in t && t[p] == Folder
    decreases |q|
  {
    assert InFolder(t, q);
    if |q| == |p| + 1 {
      assert q[..|p| + 1] == q && Parent(q) == p;
    } else {
      assert p < Parent(q) && Parent(q)[..|p| + 1] == q[..|p| + 1];
      StepDown(t, p, Parent(q));
    }
  }

  /** A directory that may be deleted survives exactly when one of its children does. */
  lemma FolderSurvives(t: Tree, kept: set<Path>, p: Path)
    requires Sound(t) && p in t && t[p] == Folder && p !in kept
    ensures Survives(t, kept, p) <==> exists c :: c in t && c != [] && Parent(c) == p && Survives(t, kept, c)
  {
    if Survives(t, kept, p) {
      var q :| p <= q && Stays(t, kept, q);
      assert |p| == |q| ==> p == q;
      StepDown(t, p, q);
      var c := q[..|p| + 1];
      assert c <= q && Survives(t, kept, c);
    }
    if c :| c in t && c != [] && Parent(c) == p && Survives(t, kept, c) {
      var q :| c <= q && Stays(t, kept, q);
      assert p <= q;
    }
  }

  lemma StaysSurvives(t: Tree, kept: set<Path>, p: Path)
    requires Stays(t, kept, p)
    ensures Survives(t, kept, p)
  {
    assert p <= p;
  }

  /** A node on the list stays, and so does anything that is neither file, link nor
      directory, with all the directories above either. */
  lemma KeptSurvives(t: Tree, kept: set<Path>, p: Path, q: Path)
    requires p <= q && q in t && (q in kept || t[q] == Special)
    ensures Survives(t, kept, p)
  {
    assert Stays(t, kept, q);
  }

  lemma FileSurvives(t: Tree, kept: set<Path>, p: Path)
    requires Sound(t) && p in t && t[p] == FileOrLink
    ensures Survives(t, kept, p) <==> p in kept
  {
    if Survives(t, kept, p) {
      var q :| p <= q && Stays(t, kept, q);
      if |p| < |q| { StepDown(t, p, q); } else { assert p == q; }
    }
    if p in kept { StaysSurvives(t, kept, p); }
  }

  /** Some node is directly inside. */
  predicate HasChild(t: Tree, p: Path) { exists c :: c in t && c != [] && Parent(c) == p }

  class Tidied {
    var tree: Tree

    constructor (tree: Tree)
      ensures this.tree == tree
    {
      this.tree := tree;
    }

    /** One node's turn. What is left of the nodes before it is what survives. */
    method PruneNode(ghost before: Tree, order: seq<Path>, i: nat, kept: set<Path>)
      requires Sound(before) && Listing(before, order) && i < |order|
      requires PrunedTo(before, kept, order[i..], tree)
      modifies this
      ensures PrunedTo(before, kept, order[i + 1..], tree)
    {
      var node := order[i];
      TurnOver(before, kept, order, i, tree);
      if Stays(before, kept, node) { StaysSurvives(before, kept, node); }
      if node in kept {
      } else if tree[node] == FileOrLink {
        FileSurvives(before, kept, node);
        tree := tree - {node};
      } else if tree[node] == Folder {
        FolderSurvives(before, kept, node);
        ChildrenDone(before, order, i, kept, tree);
        if !HasChild(tree, node) { tree := tree - {node}; }
      }
    }

    /** _prune_path. */
    method PrunePath(order: seq<Path>, kept: set<Path>)
      requires Sound(tree) && Listing(tree, order)
      modifies this
      ensures forall p :: p in tree <==> p in old(tree) && Survives(old(tree), kept, p)
      ensures forall p :: p in tree ==> tree[p] == old(tree)[p]
    {
      ghost var before := tree;
      var i := 0;
      assert order[0..] == order;
      while i < |order|
        invariant i <= |order| && PrunedTo(before, kept, order[i..], tree)
      {
        PruneNode(before, order, i, kept);
        i := i + 1;
      }
    }
  }

  /** Of the original nodes those to come and those that survive are left. */
  ghost predicate PrunedTo(before: Tree, kept: set<Path>, toCome: seq<Path>, t: Tree) {
    && (forall p :: p in t <==> p in before && (p in toCome || Survives(before, kept, p)))
    && (forall p :: p in t ==> t[p] == before[p])
  }

  lemma TurnOf(order: seq<Path>, i: nat, p: Path)
    requires i < |order|
    ensures p in order[i..] <==> p == order[i] || p in order[i + 1..]
  {
    assert order[i..] == [order[i]] + order[i + 1..];
  }

  lemma TurnIsOnce(before: Tree, order: seq<Path>, i: nat)
    requires Listing(before, order) && i < |order|
    ensures order[i] in before && order[i] !in order[i + 1..]
  {
    assert order[i] in order && forall j :: i < j < |order| ==> order[i] != order[j];
  }

  /** When a node's turn is over it is there exactly if it survives. */
  lemma TurnOver(before: Tree, kept: set<Path>, order: seq<Path>, i: nat, t: Tree)
    requires Listing(before, order) && i < |order| && PrunedTo(before, kept, order[i..], t)
    ensures order[i] in t && t[order[i]] == before[order[i]]
    ensures Survives(before, kept, order[i]) ==> PrunedTo(before, kept, order[i + 1..], t)
    ensures !Survives(before, kept, order[i]) ==> PrunedTo(before, kept, order[i + 1..], t - {order[i]})
  {
    TurnIsOnce(before, order, i);
    var rest := order[i + 1..];
    forall p ensures p in order[i..] <==> p == order[i] || p in rest { TurnOf(order, i, p); }
  }

  /** The children of a node have longer paths, so their turn is over. */
  lemma ChildrenDone(before: Tree, order: seq<Path>, i: nat, kept: set<Path>, t: Tree)
    requires Listing(before, order) && i < |order| && PrunedTo(before, kept, order[i..], t)
    ensures HasChild(t, order[i]) <==>
              exists c :: c in before && c != [] && Parent(c) == order[i] && Survives(before, kept, c)
  {
    forall c | c in before && c != [] && Parent(c) == order[i] ensures c !in order[i..] {
      assert Length(c) > Length(order[i]);
      assert forall j :: 0 <= j < |order[i..]| ==> order[i..][j] == order[i + j];
    }
    if HasChild(t, order[i]) {
      var c :| c in t && c != [] && Parent(c) == order[i];
      assert c in before;
    }
    if c :| c in before && c != [] && Parent(c) == order[i] && Survives(before, kept, c) {
      assert c in t;
    }
  }
}
