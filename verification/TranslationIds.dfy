/**
 * Translation ids of an .xtb file after name substitution: ids that collide are moved on
 * by linear probing.
 */
module TranslationIds {
  import opened Wrappers
  import opened Sequences

  // ---------- decimal ids ----------

  predicate IsDigit(c: char) { '0' <= c <= '9' }

  predicate IsDigits(id: string) { id != "" && forall i :: 0 <= i < |id| ==> IsDigit(id[i]) }

  function Value(id: string): nat {
    if id == "" then 0
    else Value(id[..|id| - 1]) * 10 + (if IsDigit(id[|id| - 1]) then id[|id| - 1] as int - '0' as int else 0)
  }

  function Decimal(n: nat): (s: string)
    ensures IsDigits(s)
  {
    var last := ['0' + (n % 10) as char];
    if n < 10 then last else Decimal(n / 10) + last
  }

  lemma {:induction false} ValuePrinted(n: nat)
    ensures Value(Decimal(n)) == n
  {
    var s := Decimal(n);
    if n < 10 {
      assert s[..0] == "";
    } else {
      ValuePrinted(n / 10);
      assert s[..|s| - 1] == Decimal(n / 10);
    }
  }

  // ---------- probing ----------

  predicate AtLeast(id: string, n: nat) { IsDigits(id) && Value(id) >= n }

  /** The used numbers that a probe starting at `n` can still meet. */
  function Ahead(n: nat, seen: set<string>): set<string> {
    set id | id in seen && AtLeast(id, n)
  }

  lemma AtLeastWeakens(id: string, n: nat)
    ensures AtLeast(id, n + 1) ==> AtLeast(id, n)
  {
  }

  /** Stepping over a used number leaves fewer of them ahead. */
  lemma StepShrinks(id: string, n: nat, seen: set<string>)
    requires id in Ahead(n, seen) && id !in Ahead(n + 1, seen)
    ensures |Ahead(n + 1, seen)| < |Ahead(n, seen)|
  {
    AheadNested(n, seen);
    Smaller(Ahead(n + 1, seen), Ahead(n, seen), id);
  }

  lemma AheadEdge(id: string, n: nat, seen: set<string>)
    requires id in seen && IsDigits(id) && Value(id) == n
    ensures id in Ahead(n, seen) && id !in Ahead(n + 1, seen)
  {
    assert AtLeast(id, n) && !AtLeast(id, n + 1);
  }

  lemma AheadNested(n: nat, seen: set<string>)
    ensures Ahead(n + 1, seen) <= Ahead(n, seen)
  {
    forall x | x in Ahead(n + 1, seen) ensures x in Ahead(n, seen) {
      AtLeastWeakens(x, n);
    }
  }

  lemma Smaller(a: set<string>, b: set<string>, x: string)
    requires a <= b && x in b && x !in a
    ensures |a| < |b|
  {
    assert b == a + (b - a) && x in b - a;
  }

  /** The least unused number not below `n`. */
  function Free(n: nat, seen: set<string>): (k: nat)
    ensures n <= k && Decimal(k) !in seen
    ensures forall i :: n <= i < k ==> Decimal(i) in seen
    decreases |Ahead(n, seen)|
  {
    if Decimal(n) in seen then
      ValuePrinted(n);
      AheadEdge(Decimal(n), n, seen);
      StepShrinks(Decimal(n), n, seen);
      Free(n + 1, seen)
    else n
  }

  lemma FreeIsLeast(n: nat, seen: set<string>, k: nat)
    requires n <= k && Decimal(k) !in seen && forall i :: n <= i < k ==> Decimal(i) in seen
    ensures Free(n, seen) == k
  {
    var f := Free(n, seen);
    assert !(f < k) && !(k < f);
  }

  /** The id a translation ends up with. */
  function Resolved(id: string, seen: set<string>): string {
    if id in seen && IsDigits(id) then Decimal(Free(Value(id) + 1, seen)) else id
  }

  function Add(id: string, seen: set<string>): set<string> { seen + {Resolved(id, seen)} }

  /** The ids of a file, resolved one after the other. */
  function ResolvedAll(ids: seq<string>, seen: set<string>): (r: seq<string>)
    ensures |r| == |ids|
  {
    if ids == [] then [] else [Resolved(ids[0], seen)] + ResolvedAll(ids[1..], Add(ids[0], seen))
  }

  function AddAll(ids: seq<string>, seen: set<string>): set<string> {
    if ids == [] then seen else AddAll(ids[1..], Add(ids[0], seen))
  }

  /** A canonical number gets the least unused number not below its own. */
  lemma NumberGetsLeast(n: nat, seen: set<string>)
    ensures Resolved(Decimal(n), seen) == Decimal(Free(n, seen))
  {
    ValuePrinted(n);
    if Decimal(n) in seen { FreeIsLeast(n, seen, Free(n + 1, seen)); }
  }

  // ---------- distinctness ----------

  lemma {:induction false} LaterAreNew(ids: seq<string>, seen: set<string>, x: string)
    requires x in seen
    ensures x in ResolvedAll(ids, seen) <==> !IsDigits(x) && x in ids
  {
    if ids != [] {
      LaterAreNew(ids[1..], Add(ids[0], seen), x);
      var r := ResolvedAll(ids[1..], Add(ids[0], seen));
      assert x in ResolvedAll(ids, seen) <==> x == Resolved(ids[0], seen) || x in r;
      assert x in ids <==> x == ids[0] || x in ids[1..];
    }
  }

  /** No id that is not a number occurs twice. */
  predicate WordsDistinct(ids: seq<string>) {
    ids == [] || ((!IsDigits(ids[0]) ==> ids[0] !in ids[1..]) && WordsDistinct(ids[1..]))
  }

  /** The ids come out pairwise distinct exactly when those that are no numbers, which
      are never moved, went in so. */
  lemma {:induction false} DistinctExactly(ids: seq<string>, seen: set<string>)
    ensures Distinct(ResolvedAll(ids, seen)) <==> WordsDistinct(ids)
  {
    if ids != [] {
      var x := Resolved(ids[0], seen);
      DistinctExactly(ids[1..], Add(ids[0], seen));
      LaterAreNew(ids[1..], Add(ids[0], seen), x);
      var r := ResolvedAll(ids, seen);
      assert r[0] == x && r[1..] == ResolvedAll(ids[1..], Add(ids[0], seen));
      DistinctFirst(r);
    }
  }

  // ---------- order does not matter ----------

  /** Taking the number a probe leads to makes it go on from there. */
  lemma OwnPlaceTaken(n: nat, seen: set<string>)
    ensures var k := Free(n, seen); var more := seen + {Decimal(k)}; Free(n, more) == Free(k + 1, more)
  {
    var k := Free(n, seen);
    var more := seen + {Decimal(k)};
    FreeIsLeast(n, more, Free(k + 1, more));
  }

  /** Taking any other id does not change where a probe leads. */
  lemma OtherPlaceTaken(n: nat, id: string, seen: set<string>)
    requires id != Decimal(Free(n, seen))
    ensures Free(n, seen + {id}) == Free(n, seen)
  {
    FreeIsLeast(n, seen + {id}, Free(n, seen));
  }

  /** Two probes fill the same two numbers whichever goes first. */
  lemma ProbesCommute(m: nat, n: nat, seen: set<string>)
    ensures var k, l := Decimal(Free(m, seen)), Decimal(Free(n, seen));
      seen + {k} + {Decimal(Free(n, seen + {k}))} == seen + {l} + {Decimal(Free(m, seen + {l}))}
  {
    var k, l := Free(m, seen), Free(n, seen);
    if k == l {
      OwnPlaceTaken(m, seen);
      OwnPlaceTaken(n, seen);
    } else {
      ValuePrinted(k);
      ValuePrinted(l);
      OtherPlaceTaken(n, Decimal(k), seen);
      OtherPlaceTaken(m, Decimal(l), seen);
    }
  }

  /** An unused id that takes its own place commutes with a number that has to move. */
  lemma PlacesCommute(a: string, b: string, seen: set<string>)
    requires a !in seen && b in seen && IsDigits(b)
    ensures Add(b, Add(a, seen)) == Add(a, Add(b, seen))
  {
    var n := Value(b) + 1;
    var k := Free(n, seen);
    assert Add(a, seen) == seen + {a} && Add(b, seen) == seen + {Decimal(k)};
    if Decimal(k) == a {
      ValuePrinted(k);
      OwnPlaceTaken(n, seen);
    } else {
      OtherPlaceTaken(n, a, seen);
      assert Add(b, seen + {a}) == seen + {a} + {Decimal(k)} == seen + {Decimal(k)} + {a};
    }
  }

  lemma SeenWord(id: string, seen: set<string>)
    requires id in seen && !IsDigits(id)
    ensures Add(id, seen) == seen
  {
  }

  lemma AddsCommute(a: string, b: string, seen: set<string>)
    ensures Add(b, Add(a, seen)) == Add(a, Add(b, seen))
  {
    if a == b {
    } else if a in seen && b in seen {
      if !IsDigits(a) {
        SeenWord(a, seen);
        SeenWord(a, Add(b, seen));
      } else if !IsDigits(b) {
        SeenWord(b, seen);
        SeenWord(b, Add(a, seen));
      } else {
        ProbesCommute(Value(a) + 1, Value(b) + 1, seen);
      }
    } else if a in seen {
      if IsDigits(a) { PlacesCommute(b, a, seen); } else { assert Add(a, seen) == seen; }
    } else if b in seen {
      if IsDigits(b) { PlacesCommute(a, b, seen); } else { assert Add(b, seen) == seen; }
    } else {
      assert seen + {a} + {b} == seen + {b} + {a};
    }
  }

  lemma {:induction false} AddFirst(ids: seq<string>, i: nat, seen: set<string>)
    requires i < |ids|
    ensures AddAll(ids, seen) == AddAll(ids[..i] + ids[i + 1..], Add(ids[i], seen))
    decreases i
  {
    var rest := ids[..i] + ids[i + 1..];
    if i == 0 {
      assert rest == ids[1..];
    } else {
      AddFirst(ids[1..], i - 1, Add(ids[0], seen));
      AddsCommute(ids[0], ids[i], seen);
      assert rest[1..] == ids[1..][..i - 1] + ids[1..][i..] && rest[0] == ids[0];
    }
  }

  lemma Without(a: seq<string>, b: seq<string>, i: nat)
    requires a != [] && i < |b| && a[0] == b[i] && multiset(a) == multiset(b)
    ensures multiset(a[1..]) == multiset(b[..i] + b[i + 1..])
  {
    var x, front, back := b[i], b[..i], b[i + 1..];
    assert a == [x] + a[1..] && b == front + [x] + back;
    assert multiset([x] + a[1..]) == multiset{x} + multiset(a[1..]);
    assert multiset(front + [x] + back)
        == multiset(front + [x]) + multiset(back)
        == multiset(front) + multiset{x} + multiset(back);
    assert multiset(front + back) == multiset(front) + multiset(back) == multiset(b) - multiset{x};
    assert multiset(a[1..]) == multiset(a) - multiset{x};
  }

  /** The ids in use at the end do not depend on the order of the translations. */
  lemma {:induction false} AnyOrder(a: seq<string>, b: seq<string>, seen: set<string>)
    requires multiset(a) == multiset(b)
    ensures AddAll(a, seen) == AddAll(b, seen)
  {
    if a == [] {
      assert multiset(b) == multiset{} && |b| == |multiset(b)|;
    } else {
      assert a[0] in multiset(a) && a[0] in b;
      var i :| 0 <= i < |b| && b[i] == a[0];
      AddFirst(b, i, seen);
      Without(a, b, i);
      AnyOrder(a[1..], b[..i] + b[i + 1..], Add(a[0], seen));
    }
  }

  // ---------- the file ----------

  /** A translation element: its id, and whether its text holds a product name. */
  class Translation {
    var id: string
    const branded: bool

    constructor (id: string, branded: bool)
      ensures this.id == id && this.branded == branded
    {
      this.id, this.branded := id, branded;
    }

    /** replace_xtb_translation, as far as the id goes. */
    method Replace(fingerprints: map<string, string>) returns (changed: bool)
      modifies this
      ensures changed == branded && id == Mapped(old(id), branded, fingerprints)
    {
      if !branded { return false; }
      if id in fingerprints { id := fingerprints[id]; }
      return true;
    }

    /** dedup_translations_in_place. */
    method Deduplicate(seen: set<string>) returns (grown: set<string>)
      modifies this
      ensures id == Resolved(old(id), seen) && grown == Add(old(id), seen)
    {
      var candidate := Probe(id, seen);
      id := candidate;
      grown := seen + {id};
    }
  }

  function Left(id: string, seen: set<string>): nat { if IsDigits(id) then |Ahead(Value(id), seen)| else 0 }

  /** One step of the probe keeps where it leads and has less ahead of it. */
  lemma Step(id: string, seen: set<string>)
    requires id in seen && IsDigits(id)
    ensures Resolved(Decimal(Value(id) + 1), seen) == Resolved(id, seen)
    ensures Left(Decimal(Value(id) + 1), seen) < Left(id, seen)
  {
    NumberGetsLeast(Value(id) + 1, seen);
    ValuePrinted(Value(id) + 1);
    AheadEdge(id, Value(id), seen);
    StepShrinks(id, Value(id), seen);
  }

  /** The probing loop of dedup_translations_in_place. */
  method Probe(id: string, seen: set<string>) returns (candidate: string)
    ensures candidate == Resolved(id, seen)
  {
    candidate := id;
    while candidate in seen && IsDigits(candidate)
      invariant Resolved(candidate, seen) == Resolved(id, seen)
      decreases Left(candidate, seen)
    {
      Step(candidate, seen);
      candidate := Decimal(Value(candidate) + 1);
    }
  }

  /** The id name substitution gives: the new fingerprint of a text that changed. */
  function Mapped(id: string, branded: bool, fingerprints: map<string, string>): string {
    if branded && id in fingerprints then fingerprints[id] else id
  }

  /** A translation as it was read. */
  datatype Element = Element(id: string, branded: bool)

  function MappedAll(es: seq<Element>, fingerprints: map<string, string>): seq<string> {
    if es == [] then [] else [Mapped(es[0].id, es[0].branded, fingerprints)] + MappedAll(es[1..], fingerprints)
  }

  /** A branded element gets the fingerprint recorded for its id, if there is one; every
      other keeps its id. */
  lemma {:induction false} MappedAt(es: seq<Element>, fingerprints: map<string, string>, i: nat)
    requires i < |es|
    ensures |MappedAll(es, fingerprints)| == |es|
    ensures es[i].branded && es[i].id in fingerprints ==>
              MappedAll(es, fingerprints)[i] == fingerprints[es[i].id]
    ensures !es[i].branded || es[i].id !in fingerprints ==> MappedAll(es, fingerprints)[i] == es[i].id
  {
    if |es| > 1 { MappedAt(es[1..], fingerprints, if i == 0 then 0 else i - 1); }
  }

  /** Ids that are all different stay as they are. */
  lemma {:induction false} DistinctStay(ids: seq<string>, seen: set<string>)
    requires Distinct(ids) && forall x :: x in ids ==> x !in seen
    ensures ResolvedAll(ids, seen) == ids
  {
    if ids != [] {
      var first, rest := ids[0], ids[1..];
      DistinctFirst(ids);
      Unseen(first, seen);
      assert first in ids && forall x :: x in rest ==> x in ids;
      DistinctStay(rest, seen + {first});
    }
  }

  lemma Unseen(id: string, seen: set<string>)
    requires id !in seen
    ensures Resolved(id, seen) == id && Add(id, seen) == seen + {id}
  {
  }

  /** So the ids written are the mapped ones, unless two of them are equal; the first is
      its mapped one in any case. */
  lemma WrittenAsMapped(es: seq<Element>, fingerprints: map<string, string>)
    requires es != []
    ensures ResolvedAll(MappedAll(es, fingerprints), {})[0] == MappedAll(es, fingerprints)[0]
    ensures Distinct(MappedAll(es, fingerprints)) ==>
              ResolvedAll(MappedAll(es, fingerprints), {}) == MappedAll(es, fingerprints)
  {
    if Distinct(MappedAll(es, fingerprints)) { DistinctStay(MappedAll(es, fingerprints), {}); }
  }

  predicate AnyBranded(es: seq<Element>) { es != [] && (es[0].branded || AnyBranded(es[1..])) }

  predicate AllNamed(es: seq<Element>) { es == [] || (es[0].id != "" && AllNamed(es[1..])) }

  /** The elements hold what was read. */
  ghost predicate Holds(ts: seq<Translation>, es: seq<Element>)
    reads ts
  {
    |ts| == |es| && forall i :: 0 <= i < |ts| ==> ts[i].id == es[i].id && ts[i].branded == es[i].branded
  }

  /** The ids written back; or the file left as it is; or an element without an id. */
  datatype Outcome = Rewritten(ids: seq<string>) | Unchanged | NoId

  function Ids(es: seq<Element>): seq<string> { if es == [] then [] else [es[0].id] + Ids(es[1..]) }

  /** The ids of the file on disk afterwards. */
  function OnDisk(outcome: Outcome, es: seq<Element>): seq<string> {
    if outcome.Rewritten? then outcome.ids else Ids(es)
  }

  /** Whether they are distinct: of a file that names a product, if no mapped id but a
      number occurs twice; of any other, if they were. */
  predicate EndsDistinct(es: seq<Element>, fingerprints: map<string, string>) {
    if AnyBranded(es) then WordsDistinct(MappedAll(es, fingerprints)) else Distinct(Ids(es))
  }

  const TWICE := [Element("1", false), Element("1", false)]

  /** Two equal ids that deduplication tells apart stay equal on disk. */
  lemma DroppedMove()
    ensures AllNamed(TWICE) && ResolvedAll(MappedAll(TWICE, map[]), {}) == ["1", "2"]
    ensures OnDisk(Unchanged, TWICE) == ["1", "1"] && !EndsDistinct(TWICE, map[])
  {
    assert TWICE[1..] == [Element("1", false)] && [Element("1", false)][1..] == [];
    assert MappedAll(TWICE, map[]) == ["1", "1"] && ["1", "1"][1..] == ["1"] && ["1"][1..] == [];
    ValuePrinted(1);
    FreeIsLeast(2, {"1"}, 2);
    assert Ids([Element("1", false)]) == ["1"] && Ids(TWICE)[0] == Ids(TWICE)[1];
  }

  /** The loop of replace_xtb_tree over elements read as `es`. A file
      is written only when a text changed: ids that deduplication alone moved are
      dropped with the tree. */
  method ReplaceTree(ts: seq<Translation>, fingerprints: map<string, string>, ghost es: seq<Element>)
    returns (outcome: Outcome)
    requires Holds(ts, es) && forall i, j :: 0 <= i < j < |ts| ==> ts[i] != ts[j]
    modifies ts
    ensures outcome == NoId <==> !AllNamed(es)
    ensures outcome == Unchanged <==> AllNamed(es) && !AnyBranded(es)
    ensures outcome.Rewritten? ==> outcome.ids == ResolvedAll(MappedAll(es, fingerprints), {})
    ensures outcome != NoId ==> (Distinct(OnDisk(outcome, es)) <==> EndsDistinct(es, fingerprints))
  {
    var changed := false;
    var seen: set<string> := {};
    var written: seq<string> := [];
    ghost var rest := es;
    ghost var result := ResolvedAll(MappedAll(es, fingerprints), {});
    var i := 0;
    assert [] + result == result && ts[0..] == ts;
    while i < |ts|
      invariant i <= |ts| && Holds(ts[i..], rest)
      invariant changed || AnyBranded(rest) <==> AnyBranded(es)
      invariant AllNamed(rest) <==> AllNamed(es)
      invariant written + ResolvedAll(MappedAll(rest, fingerprints), seen) == result
    {
      ghost var e := rest[0];
      assert ts[i] == ts[i..][0];
      if ts[i].id == "" { return NoId; }
      ghost var id := Mapped(e.id, e.branded, fingerprints);
      Shift(written, Resolved(id, seen), ResolvedAll(MappedAll(rest[1..], fingerprints), Add(id, seen)));
      var replaced := ts[i].Replace(fingerprints);
      changed := changed || replaced;
      seen := ts[i].Deduplicate(seen);
      written := written + [ts[i].id];
      i := i + 1;
      rest := rest[1..];
      assert Holds(ts[i..], rest);
    }
    assert rest == [] && written + [] == written;
    DistinctExactly(MappedAll(es, fingerprints), {});
    return if changed then Rewritten(written) else Unchanged;
  }

  lemma Shift(written: seq<string>, id: string, later: seq<string>)
    ensures written + ([id] + later) == (written + [id]) + later
  {
  }
}
