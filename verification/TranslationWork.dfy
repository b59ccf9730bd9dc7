/**
 * The work list of string translation: which strings are missing, how equal ones are
 * grouped into one request each, and what saving the response leaves missing.
 */
module TranslationWork {
  import opened Wrappers

  type Key = (string, string)

  datatype Entry = Entry(name: string, message: string, context: string)

  datatype Translation = Translation(name: string, source: string, message: string)

  datatype Answer = Answer(name: string, message: string)

  type Table = map<Key, Translation>

  /** One element of the request: a string to translate, or a translated neighbour. */
  datatype Item = Ask(name: string, message: string, context: string) | Neighbour(entry: Entry, translation: string)

  function KeyOf(e: Entry): Key { (e.name, e.message) }

  // ---------- what is missing ----------

  /** The indices below `n` of the strings without a translation. */
  function Missing(source: seq<Entry>, existing: Table, n: nat): (r: seq<nat>)
    requires n <= |source|
    ensures forall i: nat :: i in r <==> i < n && KeyOf(source[i]) !in existing
  {
    if n == 0 then []
    else
      var before := Missing(source, existing, n - 1);
      if KeyOf(source[n - 1]) !in existing then before + [n - 1] else before
  }

  /** The indices below `n` of the strings with a key. */
  function Occurrences(source: seq<Entry>, key: Key, n: nat): (r: seq<nat>)
    requires n <= |source|
    ensures forall i: nat :: i in r <==> i < n && KeyOf(source[i]) == key
  {
    if n == 0 then []
    else
      var before := Occurrences(source, key, n - 1);
      if KeyOf(source[n - 1]) == key then before + [n - 1] else before
  }

  /** A string is the first of its key. */
  predicate First(source: seq<Entry>, i: nat) {
    i < |source| && forall j :: 0 <= j < i ==> KeyOf(source[j]) != KeyOf(source[i])
  }

  /** One group for each missing key that shows up below `n`, in the order they do. */
  function Groups(source: seq<Entry>, existing: Table, n: nat): seq<seq<nat>>
    requires n <= |source|
  {
    if n == 0 then []
    else
      var before := Groups(source, existing, n - 1);
      if KeyOf(source[n - 1]) !in existing && First(source, n - 1)
      then before + [Occurrences(source, KeyOf(source[n - 1]), |source|)] else before
  }

  /** All the occurrences of one missing key. */
  ghost predicate GroupOf(source: seq<Entry>, existing: Table, group: seq<nat>) {
    group != [] && group[0] < |source| && KeyOf(source[group[0]]) !in existing
    && group == Occurrences(source, KeyOf(source[group[0]]), |source|)
  }

  lemma {:induction false} GroupsAre(source: seq<Entry>, existing: Table, n: nat)
    requires n <= |source|
    ensures forall g :: 0 <= g < |Groups(source, existing, n)| ==>
      && GroupOf(source, existing, Groups(source, existing, n)[g])
      && exists i :: 0 <= i < n && i in Groups(source, existing, n)[g]
  {
    if n > 0 {
      GroupsAre(source, existing, n - 1);
      var group := Occurrences(source, KeyOf(source[n - 1]), |source|);
      assert n - 1 in group;
      assert group[0] in group;
    }
  }

  /** Every missing string below `n` is in a group. */
  lemma {:induction false} Grouped(source: seq<Entry>, existing: Table, n: nat, i: nat) returns (g: nat)
    requires i < n <= |source| && KeyOf(source[i]) !in existing
    ensures g < |Groups(source, existing, n)| && i in Groups(source, existing, n)[g]
  {
    if i < n - 1 {
      g := Grouped(source, existing, n - 1, i);
    } else if First(source, i) {
      g := |Groups(source, existing, n)| - 1;
      assert i in Occurrences(source, KeyOf(source[i]), |source|);
    } else {
      var j: nat :| j < i && KeyOf(source[j]) == KeyOf(source[i]);
      g := Grouped(source, existing, n - 1, j);
      GroupsAre(source, existing, n - 1);
      var group := Groups(source, existing, n - 1)[g];
      assert j in group && GroupOf(source, existing, group);
    }
  }

  /** No string of one group has the key of a string of the other. */
  ghost predicate Apart(source: seq<Entry>, a: seq<nat>, b: seq<nat>) {
    forall i, j :: 0 <= i < |source| && 0 <= j < |source| && i in a && j in b ==> KeyOf(source[i]) != KeyOf(source[j])
  }

  /** Different groups are of different keys. */
  lemma {:induction false} GroupsApart(source: seq<Entry>, existing: Table, n: nat, g: nat, h: nat)
    requires n <= |source| && g < h < |Groups(source, existing, n)|
    ensures Apart(source, Groups(source, existing, n)[g], Groups(source, existing, n)[h])
  {
    var before := Groups(source, existing, n - 1);
    if h < |before| {
      GroupsApart(source, existing, n - 1, g, h);
    } else {
      GroupsAre(source, existing, n - 1);
      var i: nat :| i < n - 1 && i in before[g];
      assert KeyOf(source[i]) != KeyOf(source[n - 1]);
      assert GroupOf(source, existing, before[g]);
    }
  }

  /** The groups partition the missing strings. */
  lemma GroupsPartition(source: seq<Entry>, existing: Table, i: nat)
    requires i < |source|
    ensures var groups := Groups(source, existing, |source|);
      && (KeyOf(source[i]) !in existing <==> exists g :: 0 <= g < |groups| && i in groups[g])
      && forall g, h :: 0 <= g < |groups| && 0 <= h < |groups| && i in groups[g] && i in groups[h] ==> g == h
  {
    var groups := Groups(source, existing, |source|);
    GroupsAre(source, existing, |source|);
    if KeyOf(source[i]) !in existing { var g := Grouped(source, existing, |source|, i); }
    forall g, h | 0 <= g < |groups| && 0 <= h < |groups| && i in groups[g] && i in groups[h] ensures g == h {
      if g < h { GroupsApart(source, existing, |source|, g, h); }
      if h < g { GroupsApart(source, existing, |source|, h, g); }
    }
  }

  // ---------- the request ----------

  /** The strings the request asks for, by key and in order. */
  function Asked(payload: seq<Item>): seq<Key> {
    if payload == [] then []
    else
      var last := payload[|payload| - 1];
      var before := Asked(payload[..|payload| - 1]);
      if last.Ask? then before + [(last.name, last.message)] else before
  }

  function GroupKeys(source: seq<Entry>, groups: seq<seq<nat>>): (r: seq<Key>)
    requires forall g :: 0 <= g < |groups| ==> groups[g] != [] && groups[g][0] < |source|
    ensures |r| == |groups|
    ensures forall g :: 0 <= g < |groups| ==> r[g] == KeyOf(source[groups[g][0]])
  {
    if groups == [] then []
    else GroupKeys(source, groups[..|groups| - 1]) + [KeyOf(source[groups[|groups| - 1][0]])]
  }

  /** The elements of a list of indices whose strings have a key. */
  function OfKey(source: seq<Entry>, list: seq<nat>, key: Key): seq<nat> {
    if list == [] then []
    else
      var last := list[|list| - 1];
      var before := OfKey(source, list[..|list| - 1], key);
      if last < |source| && KeyOf(source[last]) == key then before + [last] else before
  }

  lemma {:induction false} MissingOfKey(source: seq<Entry>, existing: Table, n: nat, key: Key)
    requires n <= |source| && key !in existing
    ensures OfKey(source, Missing(source, existing, n), key) == Occurrences(source, key, n)
  {
    if n > 0 {
      MissingOfKey(source, existing, n - 1, key);
    }
  }

  /** A dictionary from each key in a list to the indices that have it. */
  ghost predicate Indexes(source: seq<Entry>, list: seq<nat>, seen: map<Key, seq<nat>>) {
    forall key {:trigger IndexedAt(source, list, seen, key)} :: IndexedAt(source, list, seen, key)
  }

  predicate IndexedAt(source: seq<Entry>, list: seq<nat>, seen: map<Key, seq<nat>>, key: Key) {
    var indices := OfKey(source, list, key);
    if key in seen then seen[key] == indices && indices != [] else indices == []
  }

  /** Missing strings grouped by key, each group in order. */
  method GroupByKey(source: seq<Entry>, untranslated: seq<nat>) returns (seen: map<Key, seq<nat>>)
    requires forall j :: 0 <= j < |untranslated| ==> untranslated[j] < |source|
    ensures Indexes(source, untranslated, seen)
  {
    seen := map[];
    var j := 0;
    while j < |untranslated|
      invariant j <= |untranslated| && Indexes(source, untranslated[..j], seen)
    {
      var i := untranslated[j];
      assert untranslated[..j + 1] == untranslated[..j] + [i];
      ghost var before, longer := seen, untranslated[..j + 1];
      assert IndexedAt(source, untranslated[..j], seen, KeyOf(source[i]));
      var list := if KeyOf(source[i]) in seen then seen[KeyOf(source[i])] else [];
      seen := seen[KeyOf(source[i]) := list + [i]];
      forall key ensures IndexedAt(source, longer, seen, key) {
        assert IndexedAt(source, untranslated[..j], before, key);
      }
      j := j + 1;
    }
    assert untranslated[..j] == untranslated;
  }

  predicate Close(a: nat, b: nat, window: nat) { b - window <= a <= b + window }

  /** Close means at most `window` apart, on either side. */
  lemma CloseExactly(a: nat, b: nat, window: nat)
    ensures Close(a, b, window) <==> (if a < b then b - a else a - b) <= window
    ensures Close(a, a + window, window) && Close(a + window, a, window) && !Close(a, a + window + 1, window)
  {
  }

  /** The indices within `window` of a missing string. */
  method NearBy(count: nat, untranslated: seq<nat>, window: nat) returns (near: set<nat>)
    ensures forall i: nat :: i in near <==> i < count && NearListed(untranslated, window, i)
  {
    near := {};
    var j := 0;
    while j < |untranslated|
      invariant j <= |untranslated|
      invariant forall i: nat :: i in near <==> i < count && exists k :: 0 <= k < j && Close(i, untranslated[k], window)
    {
      near := Around(near, count, untranslated[j], window);
      j := j + 1;
    }
  }

  method Around(near: set<nat>, count: nat, i: nat, window: nat) returns (grown: set<nat>)
    ensures forall x: nat :: x in grown <==> x in near || (x < count && Close(x, i, window))
  {
    grown := near;
    var offset: int := 0 - window;
    while offset < window + 1
      invariant 0 - window <= offset <= window + 1
      invariant forall x: nat :: x in grown <==> x in near || (x < count && Close(x, i, window) && x < i + offset)
    {
      if 0 <= i + offset < count { grown := grown + {i + offset}; }
      offset := offset + 1;
    }
  }

  ghost predicate Headed(source: seq<Entry>, groups: seq<seq<nat>>) {
    forall g :: 0 <= g < |groups| ==> groups[g] != [] && groups[g][0] < |source|
  }

  lemma GroupKeysNext(source: seq<Entry>, groups: seq<seq<nat>>, group: seq<nat>)
    requires Headed(source, groups) && group != [] && group[0] < |source|
    ensures Headed(source, groups + [group])
    ensures GroupKeys(source, groups + [group]) == GroupKeys(source, groups) + [KeyOf(source[group[0]])]
  {
    assert (groups + [group])[..|groups|] == groups;
  }

  /** The keys of the missing strings below `i`. */
  ghost predicate MissingKeys(source: seq<Entry>, existing: Table, i: nat, keys: set<Key>) {
    i <= |source|
    && forall key {:trigger Counted(source, existing, i, keys, key)} :: Counted(source, existing, i, keys, key)
  }

  ghost predicate Counted(source: seq<Entry>, existing: Table, i: nat, keys: set<Key>, key: Key) {
    i <= |source| && (key in keys <==> key !in existing && exists j :: 0 <= j < i && KeyOf(source[j]) == key)
  }

  /** The group made for the first string of a missing key. */
  lemma NewGroup(source: seq<Entry>, existing: Table, i: nat)
    requires i < |source| && KeyOf(source[i]) !in existing
    ensures var group := OfKey(source, Missing(source, existing, |source|), KeyOf(source[i]));
      && group == Occurrences(source, KeyOf(source[i]), |source|)
      && group != [] && group[0] < |source| && KeyOf(source[group[0]]) == KeyOf(source[i])
  {
    var group := Occurrences(source, KeyOf(source[i]), |source|);
    MissingOfKey(source, existing, |source|, KeyOf(source[i]));
    assert i in group && group[0] in group;
  }

  /** What build_payload keeps while it goes through the indices. */
  datatype Work = Work(payload: seq<Item>, groups: seq<seq<nat>>, added: set<Key>)

  /** What the request says about the string at `i`: its translation if it is known and
      near a missing string, a question if it is the first of a missing key. */
  function ItemFor(source: seq<Entry>, existing: Table, near: set<nat>, i: nat): seq<Item>
    requires i < |source|
  {
    var e := source[i];
    if KeyOf(e) in existing then (if i in near then [Neighbour(e, existing[KeyOf(e)].message)] else [])
    else if First(source, i) then [Ask(e.name, e.message, e.context)]
    else []
  }

  /** The request for the indices below `n`, in their order. */
  function PayloadOf(source: seq<Entry>, existing: Table, near: set<nat>, n: nat): seq<Item>
    requires n <= |source|
  {
    if n == 0 then [] else PayloadOf(source, existing, near, n - 1) + ItemFor(source, existing, near, n - 1)
  }

  /** The neighbours in a request are exactly the known strings near a missing one, each
      with its translation. */
  lemma {:induction false} NeighboursExactly(source: seq<Entry>, existing: Table, near: set<nat>, n: nat, e: Entry,
                                             t: string)
    requires n <= |source|
    ensures Neighbour(e, t) in PayloadOf(source, existing, near, n) <==>
              exists i :: 0 <= i < n && i in near && source[i] == e && KeyOf(e) in existing
                && existing[KeyOf(e)].message == t
  {
    if n > 0 {
      NeighboursExactly(source, existing, near, n - 1, e, t);
      var front, last := PayloadOf(source, existing, near, n - 1), ItemFor(source, existing, near, n - 1);
      assert Neighbour(e, t) in front + last <==> Neighbour(e, t) in front || Neighbour(e, t) in last;
    }
  }

  /** The work done for the indices below `i`. */
  ghost predicate Done(source: seq<Entry>, existing: Table, near: set<nat>, i: nat, w: Work) {
    && i <= |source| && w.payload == PayloadOf(source, existing, near, i)
    && w.groups == Groups(source, existing, i) && Headed(source, w.groups)
    && Asked(w.payload) == GroupKeys(source, w.groups)
    && MissingKeys(source, existing, i, w.added)
  }

  /** An index that opens no group. */
  lemma NoGroup(source: seq<Entry>, existing: Table, near: set<nat>, i: nat, w: Work)
    requires i < |source| && Done(source, existing, near, i, w)
    requires (KeyOf(source[i]) in existing && i !in near)
               || (KeyOf(source[i]) !in existing && KeyOf(source[i]) in w.added)
    ensures Done(source, existing, near, i + 1, w)
  {
    assert Counted(source, existing, i, w.added, KeyOf(source[i]));
    var next := i + 1;
    forall key ensures Counted(source, existing, next, w.added, key) {
      assert Counted(source, existing, i, w.added, key);
    }
  }

  /** An index whose translation is quoted. */
  lemma QuotesNeighbour(source: seq<Entry>, existing: Table, near: set<nat>, i: nat, w: Work)
    requires i < |source| && Done(source, existing, near, i, w) && KeyOf(source[i]) in existing && i in near
    ensures Done(source, existing, near, i + 1,
              w.(payload := w.payload + [Neighbour(source[i], existing[KeyOf(source[i])].message)]))
  {
    var item := Neighbour(source[i], existing[KeyOf(source[i])].message);
    var next := i + 1;
    forall key ensures Counted(source, existing, next, w.added, key) {
      assert Counted(source, existing, i, w.added, key);
    }
  }

  lemma MissingKeysNext(source: seq<Entry>, existing: Table, i: nat, keys: set<Key>)
    requires i < |source| && MissingKeys(source, existing, i, keys) && KeyOf(source[i]) !in existing
    ensures KeyOf(source[i]) !in keys <==> First(source, i)
    ensures MissingKeys(source, existing, i + 1, keys + {KeyOf(source[i])})
  {
    var more := keys + {KeyOf(source[i])};
    assert Counted(source, existing, i, keys, KeyOf(source[i]));
    var next := i + 1;
    forall key ensures Counted(source, existing, next, more, key) { assert Counted(source, existing, i, keys, key); }
  }

  /** An index that opens one. */
  lemma OpensGroup(source: seq<Entry>, existing: Table, near: set<nat>, i: nat, w: Work, item: Item, group: seq<nat>)
    requires i < |source| && Done(source, existing, near, i, w) && KeyOf(source[i]) !in existing
    requires KeyOf(source[i]) !in w.added
    requires item == Ask(source[i].name, source[i].message, source[i].context)
    requires group == Occurrences(source, KeyOf(source[i]), |source|)
    requires group != [] && group[0] < |source| && KeyOf(source[group[0]]) == KeyOf(source[i])
    ensures Done(source, existing, near, i + 1,
              Work(w.payload + [item], w.groups + [group], w.added + {KeyOf(source[i])}))
  {
    MissingKeysNext(source, existing, i, w.added);
    GroupKeysNext(source, w.groups, group);
    assert Groups(source, existing, i + 1) == w.groups + [group];
  }

  /** One index: a neighbour, whose translation is there, or the first of a missing key,
      or neither. */
  method Consider(source: seq<Entry>, untranslated: seq<nat>, existing: Table, seen: map<Key, seq<nat>>,
                  ghost near: set<nat>, i: nat, w: Work)
    returns (next: Work)
    requires i in near
    requires i < |source| && untranslated == Missing(source, existing, |source|) && Indexes(source, untranslated, seen)
    requires Done(source, existing, near, i, w)
    ensures Done(source, existing, near, i + 1, next)
  {
    var key := KeyOf(source[i]);
    if i !in untranslated {
      QuotesNeighbour(source, existing, near, i, w);
      next := w.(payload := w.payload + [Neighbour(source[i], existing[key].message)]);
    } else if key in w.added {
      next := w;
      NoGroup(source, existing, near, i, w);
    } else {
      var item := Ask(source[i].name, source[i].message, source[i].context);
      NewGroup(source, existing, i);
      assert IndexedAt(source, untranslated, seen, key);
      OpensGroup(source, existing, near, i, w, item, seen[key]);
      next := Work(w.payload + [item], w.groups + [seen[key]], w.added + {key});
    }
  }

  /** One index of the source, near a missing string or not. */
  method Turn(source: seq<Entry>, untranslated: seq<nat>, existing: Table, seen: map<Key, seq<nat>>, near: set<nat>,
              i: nat, w: Work)
    returns (next: Work)
    requires i < |source| && untranslated == Missing(source, existing, |source|) && Indexes(source, untranslated, seen)
    requires i in untranslated ==> i in near
    requires Done(source, existing, near, i, w)
    ensures Done(source, existing, near, i + 1, next)
  {
    if i in near {
      next := Consider(source, untranslated, existing, seen, near, i, w);
    } else {
      next := w;
      NoGroup(source, existing, near, i, w);
    }
  }

  /** The loop over the sorted indices near a missing string. */
  method Request(source: seq<Entry>, untranslated: seq<nat>, existing: Table, seen: map<Key, seq<nat>>, near: set<nat>)
    returns (w: Work)
    requires untranslated == Missing(source, existing, |source|) && Indexes(source, untranslated, seen)
    requires forall i: nat :: i in untranslated ==> i in near
    ensures Done(source, existing, near, |source|, w)
  {
    w := Work([], [], {});
    var i := 0;
    while i < |source|
      invariant i <= |source| && Done(source, existing, near, i, w)
    {
      w := Turn(source, untranslated, existing, seen, near, i, w);
      i := i + 1;
    }
  }

  ghost predicate NearMissing(source: seq<Entry>, existing: Table, window: nat, i: nat) {
    exists j: nat :: j < |source| && KeyOf(source[j]) !in existing && Close(i, j, window)
  }

  /** The indices within `window` of a missing string. */
  ghost function Neighbourhood(source: seq<Entry>, existing: Table, window: nat): set<nat> {
    set i: nat | i < |source| && NearMissing(source, existing, window, i)
  }

  /** `i` is within the window of a listed index. */
  ghost predicate NearListed(list: seq<nat>, window: nat, i: nat) {
    exists j :: 0 <= j < |list| && Close(i, list[j], window)
  }

  lemma NeighbourhoodFound(source: seq<Entry>, existing: Table, window: nat, near: set<nat>)
    requires forall i: nat :: i in near <==> i < |source| && NearListed(Missing(source, existing, |source|), window, i)
    ensures near == Neighbourhood(source, existing, window)
  {
    forall i: nat ensures i in near <==> i in Neighbourhood(source, existing, window) {
    }
  }

  /** build_payload for the missing strings of a table: questions and quoted neighbours
      in the order of the source, and the groups in the order of the questions. */
  method BuildPayload(source: seq<Entry>, untranslated: seq<nat>, existing: Table, window: nat)
    returns (payload: seq<Item>, groups: seq<seq<nat>>)
    requires untranslated == Missing(source, existing, |source|)
    ensures groups == Groups(source, existing, |source|) && Headed(source, groups)
    ensures Asked(payload) == GroupKeys(source, groups)
    ensures payload == PayloadOf(source, existing, Neighbourhood(source, existing, window), |source|)
  {
    assert forall j :: 0 <= j < |untranslated| ==> untranslated[j] in untranslated;
    var near := NearBy(|source|, untranslated, window);
    NeighbourhoodFound(source, existing, window, near);
    var seen := GroupByKey(source, untranslated);
    var w := Request(source, untranslated, existing, seen, near);
    return w.payload, w.groups;
  }

  // ---------- saving ----------

  /** The table after the first `k` answers have been stored under their groups' keys. */
  function Stored(source: seq<Entry>, existing: Table, answers: seq<Answer>, groups: seq<seq<nat>>, k: nat): Table
    requires k <= |answers| && k <= |groups|
    requires forall g :: 0 <= g < |groups| ==> groups[g] != [] && groups[g][0] < |source|
  {
    if k == 0 then existing
    else
      var e := source[groups[k - 1][0]];
      var before := Stored(source, existing, answers, groups, k - 1);
      before[KeyOf(e) := Translation(e.name, e.message, answers[k - 1].message)]
  }

  predicate NamesMatch(source: seq<Entry>, answers: seq<Answer>, groups: seq<seq<nat>>, k: nat)
    requires k <= |answers| && k <= |groups|
    requires forall g :: 0 <= g < |groups| ==> groups[g] != [] && groups[g][0] < |source|
  {
    forall g :: 0 <= g < k ==> answers[g].name == source[groups[g][0]].name
  }

  function Least(a: nat, b: nat): nat { if a < b then a else b }

  class Translations {
    var existing: Table

    constructor (existing: Table)
      ensures this.existing == existing
    {
      this.existing := existing;
    }

    /** find_untranslated. */
    method FindUntranslated(source: seq<Entry>) returns (indices: seq<nat>)
      ensures indices == Missing(source, existing, |source|)
    {
      indices := [];
      var i := 0;
      while i < |source|
        invariant i <= |source| && indices == Missing(source, existing, i)
      {
        if KeyOf(source[i]) !in existing { indices := indices + [i]; }
        i := i + 1;
      }
    }

    /** One answer, stored for every index of its group. */
    method StoreGroup(source: seq<Entry>, answer: Answer, group: seq<nat>, key: Key)
      requires group != [] && forall j :: 0 <= j < |group| ==> group[j] < |source| && KeyOf(source[group[j]]) == key
      modifies this
      ensures existing == old(existing)[key := Translation(key.0, key.1, answer.message)]
    {
      var j := 0;
      while j < |group|
        invariant j <= |group|
        invariant existing == if j == 0 then old(existing)
                              else old(existing)[key := Translation(key.0, key.1, answer.message)]
      {
        var e := source[group[j]];
        existing := existing[KeyOf(e) := Translation(e.name, e.message, answer.message)];
        j := j + 1;
      }
    }

    /** save_translations, up to writing the file: the pairs of zip(response, groups). */
    method Save(source: seq<Entry>, answers: seq<Answer>, groups: seq<seq<nat>>, ghost before: Table) returns (ok: bool)
      requires groups == Groups(source, before, |source|) && before == existing && Headed(source, groups)
      modifies this
      ensures ok <==> NamesMatch(source, answers, groups, Least(|answers|, |groups|))
      ensures ok ==> existing == Stored(source, before, answers, groups, Least(|answers|, |groups|))
    {
      var k := 0;
      while k < |answers| && k < |groups|
        invariant k <= Least(|answers|, |groups|) && NamesMatch(source, answers, groups, k)
        invariant existing == Stored(source, before, answers, groups, k)
      {
        if answers[k].name != source[groups[k][0]].name { return false; }
        OneKey(source, before, k);
        StoreGroup(source, answers[k], groups[k], KeyOf(source[groups[k][0]]));
        k := k + 1;
      }
      return true;
    }
  }

  lemma OneKey(source: seq<Entry>, existing: Table, g: nat)
    requires g < |Groups(source, existing, |source|)|
    ensures var group := Groups(source, existing, |source|)[g];
      && group != [] && group[0] < |source|
      && forall j :: 0 <= j < |group| ==> group[j] < |source| && KeyOf(source[group[j]]) == KeyOf(source[group[0]])
  {
    GroupsAre(source, existing, |source|);
    var group := Groups(source, existing, |source|)[g];
    assert GroupOf(source, existing, group);
    assert forall j :: 0 <= j < |group| ==> group[j] in group;
  }

  lemma {:induction false} StoredKeys(source: seq<Entry>, existing: Table, answers: seq<Answer>,
                                      groups: seq<seq<nat>>, k: nat, key: Key)
    requires k <= |answers| && k <= |groups| && Headed(source, groups)
    ensures key in Stored(source, existing, answers, groups, k) <==>
      key in existing || exists g :: 0 <= g < k && KeyOf(source[groups[g][0]]) == key
  {
    if k > 0 { StoredKeys(source, existing, answers, groups, k - 1, key); }
  }

  /** After saving, what is missing is exactly what no answer was given for. */
  lemma StillMissing(source: seq<Entry>, existing: Table, answers: seq<Answer>, i: nat)
    requires i < |source|
    ensures var groups := Groups(source, existing, |source|); Headed(source, groups)
    ensures var groups := Groups(source, existing, |source|);
      i in Missing(source, Stored(source, existing, answers, groups, Least(|answers|, |groups|)), |source|) <==>
        exists g :: |answers| <= g < |groups| && i in groups[g]
  {
    var groups := Groups(source, existing, |source|);
    GroupsAre(source, existing, |source|);
    assert Headed(source, groups) by {
      forall g | 0 <= g < |groups| ensures groups[g] != [] && groups[g][0] < |source| { OneKey(source, existing, g); }
    }
    var k := Least(|answers|, |groups|);
    StoredKeys(source, existing, answers, groups, k, KeyOf(source[i]));
    GroupsPartition(source, existing, i);
    forall g | 0 <= g < |groups| ensures i in groups[g] <==> KeyOf(source[groups[g][0]]) == KeyOf(source[i]) {
      assert GroupOf(source, existing, groups[g]);
    }
  }

  /** One answer per group leaves nothing untranslated. */
  lemma NothingMissing(source: seq<Entry>, existing: Table, answers: seq<Answer>)
    requires |answers| >= |Groups(source, existing, |source|)|
    ensures Headed(source, Groups(source, existing, |source|))
    ensures Missing(source, Stored(source, existing, answers, Groups(source, existing, |source|),
              |Groups(source, existing, |source|)|), |source|) == []
  {
    var groups := Groups(source, existing, |source|);
    assert Headed(source, groups) by {
      forall g | 0 <= g < |groups| ensures groups[g] != [] && groups[g][0] < |source| { OneKey(source, existing, g); }
    }
    var left := Missing(source, Stored(source, existing, answers, groups, |groups|), |source|);
    if left != [] {
      assert left[0] in left;
      StillMissing(source, existing, answers, left[0]);
    }
  }
}
