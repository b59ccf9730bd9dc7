/**
 * Exactly when reversing an accepted patch restores the file, and files on which it
 * matters that the engine accepts what runs off the end.
 */
module PatchReversal {
  import opened Wrappers
  import opened Sequences
  import opened PatchEngine
  import opened PatchAcceptance

  // ---------- the reversed patch ----------

  /** The reversed patch is ordered on the source side. */
  lemma {:induction false} ReverseOrdered(hunks: seq<Hunk>, base: nat, sourceBase: nat)
    requires Ordered(hunks, base) && OffsetConsistent(hunks, base - sourceBase)
    ensures Ordered(ReversePatch(hunks), sourceBase)
    decreases |hunks|
  {
    if hunks != [] {
      var h := hunks[0];
      ReverseOrdered(hunks[1..], h.targetStart - 1 + |Target(h.body)|, h.sourceStart - 1 + |Source(h.body)|);
      assert ReversePatch(hunks)[1..] == ReversePatch(hunks[1..]);
    }
  }

  /** Hunks without a target side. */
  predicate Removals(hunks: seq<Hunk>) { hunks == [] || (Target(hunks[0].body) == [] && Removals(hunks[1..])) }

  function RemovedBy(hunks: seq<Hunk>): nat {
    if hunks == [] then 0 else |Source(hunks[0].body)| + RemovedBy(hunks[1..])
  }

  lemma {:induction false} AdditionsReversed(hunks: seq<Hunk>)
    requires Additions(hunks)
    ensures Removals(ReversePatch(hunks)) && RemovedBy(ReversePatch(hunks)) == |AddedBy(hunks)|
    ensures AddedBy(hunks) == [] ==> Additions(ReversePatch(hunks)) && AddedBy(ReversePatch(hunks)) == []
  {
    if hunks != [] {
      AdditionsReversed(hunks[1..]);
      assert ReversePatch(hunks)[1..] == ReversePatch(hunks[1..]);
    }
  }

  lemma {:induction false} NoContext(body: seq<Line>)
    requires Target(body) == []
    ensures forall k :: 0 <= k < |body| ==> !body[k].kind.Context? && !body[k].kind.Added?
  {
    if body != [] {
      NoContext(body[1..]);
      assert forall k :: 0 < k < |body| ==> body[k] == body[1..][k - 1];
    }
  }

  /** A hunk that only removes is accepted only where the lines it removes stand. */
  lemma RemovalRuns(lines: seq<Text>, cursor: nat, body: seq<Line>)
    requires Target(body) == [] && Run(lines, cursor, body).error == None
    ensures Source(body) != [] ==> cursor + |Source(body)| <= |lines|
    ensures |Run(lines, cursor, body).lines| == |lines| - |Source(body)|
  {
    NoContext(body);
    if cursor > |lines| {
      PastHunkExactly(lines, cursor, body);
    } else {
      HunkAcceptedExactly(lines, cursor, body);
    }
  }

  /** More removals than there are lines from their first place on cannot be accepted. */
  lemma {:induction false} TooManyRemovals(lines: seq<Text>, hunks: seq<Hunk>, from: nat)
    requires Removals(hunks) && Ordered(hunks, from) && RemovedBy(hunks) > 0 && |lines| < from + RemovedBy(hunks)
    ensures Apply(lines, hunks).error.Some?
    decreases |hunks|
  {
    var h := hunks[0];
    if IsValid(h) && Run(lines, h.targetStart - 1, h.body).error == None {
      RemovalRuns(lines, h.targetStart - 1, h.body);
      TooManyRemovals(AfterFirst(lines, hunks), hunks[1..], h.targetStart - 1);
    }
  }

  lemma ReversePrefix(body: seq<Line>, k: nat)
    requires k < |body|
    ensures ReverseBody(body)[..k] == ReverseBody(body[..k])
  {
  }

  /** A body whose front stands at the end of the file is cut short there. */
  lemma CutAtEnd(front: seq<Text>, t: seq<Text>, body: seq<Line>, k: nat)
    requires k < |body| && body[k] == BLANK && Source(body[..k]) == t
    ensures Run(front + t, |front|, body) == Result(front + Target(body[..k]), None)
  {
    var lines := front + t;
    assert lines[|front|..|front| + |t|] == t && lines[..|front|] == front && lines[|front| + |t|..] == [];
    CutsShort(lines, |front|, body, k);
    assert front + Target(body[..k]) + [] == front + Target(body[..k]);
  }

  /** Where a hunk was cut short its reverse is cut short too, if nothing was appended. */
  lemma ReverseCut(front: seq<Text>, h: Hunk, k: nat)
    requires k < |h.body| && h.body[k] == BLANK
    ensures Run(front + Target(h.body[..k]), |front|, ReverseBody(h.body)) == Result(front + Source(h.body[..k]), None)
  {
    ReversePrefix(h.body, k);
    CutAtEnd(front, Target(h.body[..k]), ReverseBody(h.body), k);
  }

  /** Otherwise the reverse either leaves too little or removes too much. */
  lemma ReverseOfCutIsShort(front: seq<Text>, h: Hunk, k: nat, lines: seq<Text>)
    requires k < |h.body| && h.body[k] == BLANK && |lines| >= |front| + |Target(h.body[..k])|
    requires Run(lines, |front|, ReverseBody(h.body)).error == None
    ensures |Run(lines, |front|, ReverseBody(h.body)).lines| - |Source(h.body)| < |lines| - |Target(h.body[..k])|
  {
    var back := ReverseBody(h.body);
    PrefixIsShorter(h.body, k);
    HunkAcceptedExactly(lines, |front|, back);
    if !Stands(lines, |front|, Source(back)) {
      var j :| CutsAt(lines, |front|, back, j);
      CutsShort(lines, |front|, back, j);
      PrefixIsShorter(back, j);
    }
  }

  /** Idle hunks change nothing. */
  lemma {:induction false} IdlePatch(lines: seq<Text>, hunks: seq<Hunk>)
    requires Additions(hunks) && AddedBy(hunks) == [] && Ordered(hunks, 0)
    ensures Apply(lines, hunks) == Result(lines, None)
    decreases |hunks|
  {
    if hunks != [] {
      IdleHunk(lines, hunks[0].targetStart - 1, hunks[0].body);
      OrderedWeakens(hunks[1..], hunks[0].targetStart - 1 + |Target(hunks[0].body)|);
      IdlePatch(lines, hunks[1..]);
    }
  }

  lemma OrderedWeakens(hunks: seq<Hunk>, base: nat)
    requires Ordered(hunks, base)
    ensures Ordered(hunks, 0)
  {
  }

  lemma {:induction false} IdleHunk(lines: seq<Text>, cursor: int, body: seq<Line>)
    requires Source(body) == [] && Target(body) == []
    ensures Run(lines, cursor, body) == Result(lines, None)
    decreases |body|
  {
    if body != [] { IdleHunk(lines, cursor, body[1..]); }
  }

  /** What a patch that falls off appends past the end of the file. */
  ghost function AppendedPast(lines: seq<Text>, hunks: seq<Hunk>, m: nat): seq<Text>
    requires m < |hunks|
  {
    (if StartsPast(Apply(lines, hunks[..m]).lines, hunks[m]) then Target(hunks[m].body) else [])
      + AddedBy(hunks[m + 1..])
  }

  lemma ReversedAppend(hunks: seq<Hunk>)
    requires hunks != []
    ensures ReversePatch(hunks)[0] == ReverseHunk(hunks[0]) && ReversePatch(hunks)[1..] == ReversePatch(hunks[1..])
    ensures IsValid(hunks[0]) ==> IsValid(ReverseHunk(hunks[0]))
  {
    assert ReversePatch(hunks)[1..] == ReversePatch(hunks[1..]);
  }

  /** The first hunk was cut short at the end of the file: the reverse restores the file
      exactly if nothing was appended after it. */
  lemma ReverseAfterCut(front: seq<Text>, hunks: seq<Hunk>, k: nat, base: nat)
    requires hunks != [] && IsValid(hunks[0]) && Additions(hunks[1..])
    requires k < |hunks[0].body| && hunks[0].body[k] == BLANK
    requires hunks[0].sourceStart == |front| + 1
    requires Ordered(ReversePatch(hunks), base)
    ensures var h, added := hunks[0], AddedBy(hunks[1..]);
      Apply(front + Target(h.body[..k]) + added, ReversePatch(hunks)) == Result(front + Source(h.body[..k]), None) <==>
        added == []
  {
    var h, rest, added := hunks[0], hunks[1..], AddedBy(hunks[1..]);
    var lines := front + Target(h.body[..k]) + added;
    ReversedAppend(hunks);
    AdditionsReversed(rest);
    ApplySteps(lines, ReversePatch(hunks));
    if added == [] {
      assert lines == front + Target(h.body[..k]);
      ReverseCut(front, h, k);
      OrderedWeakens(ReversePatch(rest), |front| + |Source(h.body)|);
      IdlePatch(front + Source(h.body[..k]), ReversePatch(rest));
    } else if Run(lines, |front|, ReverseBody(h.body)).error == None {
      ReverseOfCutIsShort(front, h, k, lines);
      TooManyRemovals(Run(lines, |front|, ReverseBody(h.body)).lines, ReversePatch(rest), |front| + |Source(h.body)|);
    }
  }

  /** All hunks started past the end: the same. */
  lemma ReverseOfAdditions(lines: seq<Text>, hunks: seq<Hunk>, base: nat)
    requires hunks != [] && Additions(hunks) && Ordered(ReversePatch(hunks), base)
    requires hunks[0].sourceStart > |lines| + 1
    ensures Apply(lines + AddedBy(hunks), ReversePatch(hunks)) == Result(lines, None) <==> AddedBy(hunks) == []
  {
    AdditionsReversed(hunks);
    ReversedAppend(hunks);
    if AddedBy(hunks) == [] {
      assert lines + AddedBy(hunks) == lines;
      OrderedWeakens(ReversePatch(hunks), base);
      IdlePatch(lines, ReversePatch(hunks));
    } else {
      TooManyRemovals(lines + AddedBy(hunks), ReversePatch(hunks), |lines| + 1);
    }
  }

  lemma Associates(a: seq<Text>, b: seq<Text>, c: seq<Text>, d: seq<Text>)
    ensures a + (b + c + d) == (a + b) + c + d == (a + b + c) + d
  {
  }

  /** A file cut around a stretch that stands in it. */
  lemma CutApart(done: seq<Text>, rest: seq<Text>, cursor: nat, s: seq<Text>, t: seq<Text>)
    returns (gap: seq<Text>, tail: seq<Text>)
    requires |done| <= cursor && Stands(done + rest, cursor, s)
    ensures |done + gap| == cursor && rest == gap + s + tail
    ensures Replaced(done + rest, cursor, s, t) == (done + gap + t) + tail
  {
    CutAt(done, rest, cursor, s, t);
    gap, tail := rest[..cursor - |done|], rest[cursor - |done| + |s|..];
  }

  lemma CutLeaves(lines: seq<Text>, hunks: seq<Hunk>, k: nat, base: nat)
    requires Ordered(hunks, base) && FallsOff(lines, hunks, 0)
    requires !StartsPast(lines, hunks[0]) && CutsAt(lines, Start(hunks[0]), hunks[0].body, k)
    ensures Apply(lines, hunks).lines
         == Replaced(lines, Start(hunks[0]), Source(hunks[0].body[..k]), Target(hunks[0].body[..k]))
           + AddedBy(hunks[1..])
  {
    FallenAtOnce(lines, hunks, base);
    CutsShort(lines, Start(hunks[0]), hunks[0].body, k);
  }

  lemma NothingAfter(a: seq<Text>)
    ensures a + [] == a
  {
  }

  /** What is appended after a cut, seen from the end of what is done of the file. */
  lemma CutOutput(done: seq<Text>, rest: seq<Text>, hunks: seq<Hunk>, k: nat) returns (gap: seq<Text>)
    requires Ordered(hunks, |done|) && FallsOff(done + rest, hunks, 0)
    requires !StartsPast(done + rest, hunks[0]) && CutsAt(done + rest, Start(hunks[0]), hunks[0].body, k)
    ensures var s, t := Source(hunks[0].body[..k]), Target(hunks[0].body[..k]);
      && |done + gap| == Start(hunks[0]) && rest == gap + s
      && Apply(done + rest, hunks).lines == done + (gap + t + AddedBy(hunks[1..]))
  {
    var s, t := Source(hunks[0].body[..k]), Target(hunks[0].body[..k]);
    CutLeaves(done + rest, hunks, k, |done|);
    var tail;
    gap, tail := CutApart(done, rest, Start(hunks[0]), s, t);
    assert tail == [];
    NothingAfter(done + gap + t);
    NothingAfter(gap + s);
    Associates(done, gap, t, AddedBy(hunks[1..]));
  }

  lemma ReverseAtCut(done: seq<Text>, other: seq<Text>, rest: seq<Text>, hunks: seq<Hunk>, k: nat)
    returns (more: seq<Text>)
    requires Ordered(hunks, |done|) && OffsetConsistent(hunks, |done| - |other|) && FallsOff(done + rest, hunks, 0)
    requires !StartsPast(done + rest, hunks[0]) && CutsAt(done + rest, Start(hunks[0]), hunks[0].body, k)
    ensures Apply(done + rest, hunks).lines == done + more
    ensures Apply(other + more, ReversePatch(hunks)) == Result(other + rest, None) <==> AddedBy(hunks[1..]) == []
  {
    var gap := CutOutput(done, rest, hunks, k);
    var s, t, added := Source(hunks[0].body[..k]), Target(hunks[0].body[..k]), AddedBy(hunks[1..]);
    more := gap + t + added;
    FallsOffFirst(done + rest, hunks);
    ReverseOrdered(hunks, |done|, |other|);
    ReverseAfterCut(other + gap, hunks, k, |other|);
    Associates(other, gap, t, added);
    Associative(other, gap, s);
  }

  lemma PastOutput(done: seq<Text>, rest: seq<Text>, hunks: seq<Hunk>)
    requires Ordered(hunks, |done|) && FallsOff(done + rest, hunks, 0) && StartsPast(done + rest, hunks[0])
    ensures Apply(done + rest, hunks).lines == done + (rest + AddedBy(hunks)) && Additions(hunks)
  {
    FallsOffFirst(done + rest, hunks);
    FallenAtOnce(done + rest, hunks, |done|);
    PastHunkExactly(done + rest, Start(hunks[0]), hunks[0].body);
    Regrouped(done, rest, Target(hunks[0].body), AddedBy(hunks[1..]));
  }

  lemma Regrouped(a: seq<Text>, b: seq<Text>, c: seq<Text>, d: seq<Text>)
    ensures ((a + b) + c) + d == a + (b + (c + d))
  {
  }

  lemma ReversePastEnd(done: seq<Text>, other: seq<Text>, rest: seq<Text>, hunks: seq<Hunk>) returns (more: seq<Text>)
    requires Ordered(hunks, |done|) && OffsetConsistent(hunks, |done| - |other|) && FallsOff(done + rest, hunks, 0)
    requires StartsPast(done + rest, hunks[0])
    ensures Apply(done + rest, hunks).lines == done + more
    ensures Apply(other + more, ReversePatch(hunks)) == Result(other + rest, None) <==> AddedBy(hunks) == []
  {
    more := rest + AddedBy(hunks);
    PastOutput(done, rest, hunks);
    assert other + more == (other + rest) + AddedBy(hunks);
    ReverseOrdered(hunks, |done|, |other|);
    ReverseOfAdditions(other + rest, hunks, |other|);
  }

  /** A hunk that runs through splits the file around it. */
  lemma RunSplits(done: seq<Text>, rest: seq<Text>, hunks: seq<Hunk>) returns (gap: seq<Text>, tail: seq<Text>)
    requires Ordered(hunks, |done|) && FirstRuns(done + rest, hunks)
    ensures var s, t := Source(hunks[0].body), Target(hunks[0].body);
      && |done + gap| == Start(hunks[0]) && rest == gap + s + tail
      && AfterFirst(done + rest, hunks) == (done + gap + t) + tail
  {
    var h := hunks[0];
    RunExactly(done + rest, Start(h), h.body);
    gap, tail := CutApart(done, rest, Start(h), Source(h.body), Target(h.body));
  }

  /** Such a hunk is undone first, and then the rest of the patch is. */
  lemma UndoesFirst(front: seq<Text>, hunks: seq<Hunk>, more: seq<Text>)
    requires hunks != [] && IsValid(hunks[0]) && hunks[0].sourceStart == |front| + 1
    ensures Apply(front + Target(hunks[0].body) + more, ReversePatch(hunks))
         == Apply(front + Source(hunks[0].body) + more, ReversePatch(hunks[1..]))
  {
    HunkRuns(front, ReverseBody(hunks[0].body), more);
    ReversedAppend(hunks);
    ApplySteps(front + Target(hunks[0].body) + more, ReversePatch(hunks));
  }

  lemma ReverseFrom(done: seq<Text>, other: seq<Text>, rest: seq<Text>, hunks: seq<Hunk>, m: nat)
    returns (more: seq<Text>)
    requires Ordered(hunks, |done|) && OffsetConsistent(hunks, |done| - |other|) && FallsOff(done + rest, hunks, m)
    ensures Apply(done + rest, hunks).lines == done + more
    ensures Apply(other + more, ReversePatch(hunks)) == Result(other + rest, None) <==>
              AppendedPast(done + rest, hunks, m) == []
    decreases m
  {
    if m > 0 {
      FallsOffNext(done + rest, hunks, m);
      more := ReverseNext(done, other, rest, hunks, m);
    } else {
      FallsOffFirst(done + rest, hunks);
      if StartsPast(done + rest, hunks[0]) {
        more := ReversePastEnd(done, other, rest, hunks);
      } else {
        var k :| CutsAt(done + rest, Start(hunks[0]), hunks[0].body, k);
        more := ReverseAtCut(done, other, rest, hunks, k);
        assert [] + AddedBy(hunks[1..]) == AddedBy(hunks[1..]);
      }
    }
  }

  lemma AppendedNext(lines: seq<Text>, hunks: seq<Hunk>, m: nat)
    requires 0 < m < |hunks| && FallsOff(lines, hunks, m) && FirstRuns(lines, hunks)
    ensures FallsOff(AfterFirst(lines, hunks), hunks[1..], m - 1)
    ensures AppendedPast(AfterFirst(lines, hunks), hunks[1..], m - 1) == AppendedPast(lines, hunks, m)
  {
    FallsOffNext(lines, hunks, m);
    assert hunks[1..][m - 1 + 1..] == hunks[m + 1..];
  }

  lemma ReverseNext(done: seq<Text>, other: seq<Text>, rest: seq<Text>, hunks: seq<Hunk>, m: nat)
    returns (more: seq<Text>)
    requires Ordered(hunks, |done|) && OffsetConsistent(hunks, |done| - |other|)
    requires m > 0 && FallsOff(done + rest, hunks, m) && FirstRuns(done + rest, hunks)
    ensures Apply(done + rest, hunks).lines == done + more
    ensures Apply(other + more, ReversePatch(hunks)) == Result(other + rest, None) <==>
              AppendedPast(done + rest, hunks, m) == []
    decreases m, 0
  {
    var s, t := Source(hunks[0].body), Target(hunks[0].body);
    var gap, tail := RunSplits(done, rest, hunks);
    ApplyFirst(done + rest, hunks);
    AppendedNext(done + rest, hunks, m);
    var less := ReverseFrom(done + gap + t, other + gap + s, tail, hunks[1..], m - 1);
    more := gap + t + less;
    Associates(done, gap, t, less);
    Associates(other, gap, t, less);
    Associates(other, gap, s, tail);
    UndoesFirst(other + gap, hunks, less);
  }

  lemma ReverseFallen(lines: seq<Text>, hunks: seq<Hunk>, m: nat)
    requires Ordered(hunks, 0) && OffsetConsistent(hunks, 0) && FallsOff(lines, hunks, m)
    ensures Apply(Apply(lines, hunks).lines, ReversePatch(hunks)) == Result(lines, None) <==>
              AppendedPast(lines, hunks, m) == []
  {
    assert [] + lines == lines;
    var more := ReverseFrom([], [], lines, hunks, m);
    assert [] + more == more;
  }

  /** Reversal, exactly: applying the reverse of an accepted, ordered, offset-consistent
      patch gives the original lines back if and only if the patch appended nothing past
      the end of the file. */
  lemma ReverseRestoresExactly(lines: seq<Text>, hunks: seq<Hunk>)
    requires Ordered(hunks, 0) && OffsetConsistent(hunks, 0) && Apply(lines, hunks).error == None
    ensures Apply(Apply(lines, hunks).lines, ReversePatch(hunks)) == Result(lines, None) <==>
              forall m :: FallsOff(lines, hunks, m) ==> AppendedPast(lines, hunks, m) == []
  {
    AcceptedExactly(lines, hunks);
    forall m | FallsOff(lines, hunks, m)
      ensures AppendedPast(lines, hunks, m) == [] <==>
                Apply(Apply(lines, hunks).lines, ReversePatch(hunks)) == Result(lines, None)
    {
      ReverseFallen(lines, hunks, m);
    }
    if PatchRuns(lines, hunks) { ReverseRestores(lines, hunks); }
  }

  // ---------- files on which it matters ----------

  const CUT := Hunk(1, 2, 1, 3, [Line(Context, "a"), BLANK, Line(Added, "b")])
  const LATE := Hunk(3, 0, 4, 1, [Line(Added, "c")])
  const FAR := Hunk(9, 0, 9, 1, [Line(Added, "b")])

  lemma SidesOfCut()
    ensures Source(CUT.body) == ["a", ""] && Target(CUT.body) == ["a", "", "b"]
  {
    var last := [Line(Added, "b")];
    assert CUT.body[1..] == [BLANK] + last && CUT.body[1..][1..] == last && last[1..] == [];
    assert Target(last) == ["b"] && Source(last) == [];
    assert Target(CUT.body[1..]) == [""] + ["b"] && Source(CUT.body[1..]) == [""] + [];
  }

  /** A blank context line that meets the end of the file drops an addition without an
      error. */
  lemma DropsAnAddition()
    ensures Ordered([CUT], 0) && OffsetConsistent([CUT], 0) && Growth([CUT]) == 1
    ensures Apply(["a"], [CUT]) == Result(["a"], None)
  {
    SidesOfCut();
    assert [CUT][1..] == [] && CUT.body[..1] == [Line(Context, "a")];
    assert CutsAt(["a"], 0, CUT.body, 1);
    CutsShort(["a"], 0, CUT.body, 1);
    assert Replaced(["a"], 0, ["a"], ["a"]) == ["a"];
  }

  /** A later addition is then appended, and cannot be undone. */
  lemma AppendsForGood()
    ensures Ordered([CUT, LATE], 0) && OffsetConsistent([CUT, LATE], 0)
    ensures Apply(["a"], [CUT, LATE]) == Result(["a", "c"], None)
    ensures Apply(["a", "c"], ReversePatch([CUT, LATE])) != Result(["a"], None)
  {
    DropsAnAddition();
    var hunks := [CUT, LATE];
    assert hunks[1..] == [LATE] && [LATE][1..] == [];
    SidesOfCut();
    FallsOffFirst(["a"], hunks);
    assert CutsAt(["a"], Start(CUT), CUT.body, 1);
    FallenAtOnce(["a"], hunks, 0);
    assert AddedBy([LATE]) == ["c"];
    ReverseFallen(["a"], hunks, 0);
  }

  /** An addition far past the end is appended as well. */
  lemma AppendsFromAfar()
    ensures Apply(["a"], [FAR]) == Result(["a", "b"], None)
  {
    PastHunkExactly(["a"], 8, FAR.body);
    ApplySteps(["a"], [FAR]);
  }
}
