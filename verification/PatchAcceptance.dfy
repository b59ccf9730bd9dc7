/**
 * Exactly which ordered patches the engine accepts. Besides the patches that run
 * through inside the file there are those that run off its end: a blank context line
 * at the end of the file cuts a hunk short, and additions past the end are appended.
 */
module PatchAcceptance {
  import opened Wrappers
  import opened Sequences
  import opened PatchEngine

  const BLANK := Line(Context, "")

  // ---------- one hunk inside the file ----------

  /** The hunk is cut short at line `k` of its body: what comes before stands at the
      cursor and ends where the file does. */
  predicate CutsAt(lines: seq<Text>, cursor: nat, body: seq<Line>, k: int) {
    0 <= k < |body| && body[k] == BLANK && Stands(lines, cursor, Source(body[..k]))
    && cursor + |Source(body[..k])| == |lines|
  }

  ghost predicate CutSomewhere(lines: seq<Text>, cursor: nat, body: seq<Line>) {
    exists k :: CutsAt(lines, cursor, body, k)
  }

  function SourceText(x: Line): seq<Text> { if x.kind.Removed? || x.kind.Context? then [x.text] else [] }

  function TargetText(x: Line): seq<Text> { if x.kind.Added? || x.kind.Context? then [x.text] else [] }

  lemma Heads(x: Line, rest: seq<Line>)
    ensures Source([x] + rest) == SourceText(x) + Source(rest)
    ensures Target([x] + rest) == TargetText(x) + Target(rest)
  {
    assert ([x] + rest)[1..] == rest;
  }

  lemma {:induction false} SidesSplit(p: seq<Line>, q: seq<Line>)
    ensures Source(p + q) == Source(p) + Source(q) && Target(p + q) == Target(p) + Target(q)
  {
    if p == [] {
      assert p + q == q;
    } else {
      var x, rest := p[0], p[1..];
      SidesSplit(rest, q);
      assert p == [x] + rest && p + q == [x] + (rest + q);
      Heads(x, rest);
      Heads(x, rest + q);
      Associative(SourceText(x), Source(rest), Source(q));
      Associative(TargetText(x), Target(rest), Target(q));
    }
  }

  /** A line that is taken leaves the rest to run. */
  lemma FirstLine(lines: seq<Text>, cursor: nat, x: Line, rest: seq<Line>)
    ensures var step := Take(lines, cursor, x);
      && (step.Next? ==> Run(lines, cursor, [x] + rest) == Run(step.lines, step.cursor, rest)
                         && CutShort(lines, cursor, [x] + rest) == CutShort(step.lines, step.cursor, rest))
      && (step.EndOfFile? ==> CutShort(lines, cursor, [x] + rest))
      && (step.Fail? ==> Run(lines, cursor, [x] + rest).error.Some?)
  {
    assert ([x] + rest)[1..] == rest;
  }

  /** After a part of a body the rest runs on from where it ended. */
  predicate GoesOn(lines: seq<Text>, cursor: nat, p: seq<Line>, q: seq<Line>) {
    && Run(lines, cursor, p + q) == Run(Run(lines, cursor, p).lines, cursor + |Target(p)|, q)
    && CutShort(lines, cursor, p + q) == CutShort(Run(lines, cursor, p).lines, cursor + |Target(p)|, q)
  }

  lemma GoesOnNext(lines: seq<Text>, cursor: nat, x: Line, rest: seq<Line>, q: seq<Line>)
    requires cursor <= |lines| && Take(lines, cursor, x).Next?
    requires var step := Take(lines, cursor, x); step.cursor >= 0 && GoesOn(step.lines, step.cursor, rest, q)
    ensures GoesOn(lines, cursor, [x] + rest, q)
  {
    CursorMoves(lines, cursor, x);
    Heads(x, rest);
    FirstLine(lines, cursor, x, rest);
    FirstLine(lines, cursor, x, rest + q);
    Associative([x], rest, q);
  }

  lemma CursorMoves(lines: seq<Text>, cursor: nat, x: Line)
    requires Take(lines, cursor, x).Next?
    ensures Take(lines, cursor, x).cursor == cursor + |TargetText(x)|
  {
  }

  lemma {:induction false} RunAppend(lines: seq<Text>, cursor: nat, p: seq<Line>, q: seq<Line>)
    requires cursor <= |lines| && Runs(lines, cursor, p)
    ensures GoesOn(lines, cursor, p, q)
    decreases |p|
  {
    if p == [] {
      assert p + q == q;
    } else {
      var x, rest := p[0], p[1..];
      assert p == [x] + rest;
      TakeInside(lines, cursor, x);
      FirstLine(lines, cursor, x, rest);
      var step := Take(lines, cursor, x);
      RunAppend(step.lines, step.cursor, rest, q);
      GoesOnNext(lines, cursor, x, rest, q);
    }
  }

  lemma BlankAtEnd(lines: seq<Text>, body: seq<Line>)
    requires body != [] && body[0] == BLANK
    ensures Run(lines, |lines|, body) == Result(lines, None) && CutShort(lines, |lines|, body)
  {
  }

  /** What a hunk that is cut short does. */
  lemma CutsShort(lines: seq<Text>, cursor: nat, body: seq<Line>, k: nat)
    requires cursor <= |lines| && CutsAt(lines, cursor, body, k)
    ensures CutShort(lines, cursor, body)
    ensures Run(lines, cursor, body) == Result(Replaced(lines, cursor, Source(body[..k]), Target(body[..k])), None)
  {
    var p, q := body[..k], body[k..];
    assert p + q == body && q[0] == BLANK;
    RunExactly(lines, cursor, p);
    RunAppend(lines, cursor, p, q);
    BlankAtEnd(Run(lines, cursor, p).lines, q);
  }

  lemma {:induction false} CutPoint(lines: seq<Text>, cursor: nat, body: seq<Line>) returns (k: nat)
    requires cursor <= |lines| && CutShort(lines, cursor, body)
    ensures CutsAt(lines, cursor, body, k)
    decreases |body|
  {
    var line, rest := body[0], body[1..];
    TakeInside(lines, cursor, line);
    var step := Take(lines, cursor, line);
    if step.EndOfFile? {
      k := 0;
      assert Source(body[..0]) == [] && lines[cursor..cursor] == [];
    } else {
      var j := CutPoint(step.lines, step.cursor, rest);
      k := j + 1;
      CutPointNext(lines, cursor, body, j);
    }
  }

  lemma CutPointNext(lines: seq<Text>, cursor: nat, body: seq<Line>, j: nat)
    requires cursor <= |lines| && body != [] && Take(lines, cursor, body[0]).Next?
    requires var step := Take(lines, cursor, body[0]); step.cursor >= 0 && CutsAt(step.lines, step.cursor, body[1..], j)
    ensures CutsAt(lines, cursor, body, j + 1)
  {
    var line, rest := body[0], body[1..];
    TakeInside(lines, cursor, line);
    var s := Source(rest[..j]);
    assert body[..j + 1] == [line] + rest[..j] && body[..j + 1][1..] == rest[..j];
    match line.kind {
      case Added => SpliceAdded(lines, cursor, line.text, s, []);
      case Removed => SpliceRemoved(lines, cursor, s, []);
      case Context => SpliceKept(lines, cursor, s, []);
      case Note =>
    }
  }

  /** A hunk that starts inside the file is accepted exactly when its source side stands
      at the cursor, or a blank context line of it meets the end of the file. */
  lemma HunkAcceptedExactly(lines: seq<Text>, cursor: nat, body: seq<Line>)
    requires cursor <= |lines|
    ensures Run(lines, cursor, body).error == None <==>
              Stands(lines, cursor, Source(body)) || CutSomewhere(lines, cursor, body)
    ensures Stands(lines, cursor, Source(body)) ==>
              Run(lines, cursor, body) == Result(Replaced(lines, cursor, Source(body), Target(body)), None)
    ensures forall k :: CutsAt(lines, cursor, body, k) ==>
              Run(lines, cursor, body) == Result(Replaced(lines, cursor, Source(body[..k]), Target(body[..k])), None)
  {
    RunExactly(lines, cursor, body);
    if CutShort(lines, cursor, body) {
      var k := CutPoint(lines, cursor, body);
    }
    forall k | CutsAt(lines, cursor, body, k)
      ensures Run(lines, cursor, body) == Result(Replaced(lines, cursor, Source(body[..k]), Target(body[..k])), None)
    {
      CutsShort(lines, cursor, body, k);
    }
  }

  // ---------- one hunk past the end ----------

  lemma TakePast(lines: seq<Text>, cursor: nat, line: Line)
    requires cursor > |lines|
    ensures line.kind.Added? ==> Take(lines, cursor, line) == Next(lines + [line.text], cursor + 1)
    ensures line.kind.Note? ==> Take(lines, cursor, line) == Next(lines, cursor)
    ensures line.kind.Removed? || line.kind.Context? ==> Take(lines, cursor, line) == Fail(OutOfRange)
  {
    assert lines[..|lines|] + [line.text] + lines[|lines|..] == lines + [line.text];
  }

  /** Accepted exactly when it only adds, and then appended. */
  predicate Appends(lines: seq<Text>, cursor: nat, body: seq<Line>) {
    && (Run(lines, cursor, body).error == None <==> Source(body) == [])
    && (Source(body) == [] ==> Run(lines, cursor, body).lines == lines + Target(body))
  }

  lemma AppendsNext(lines: seq<Text>, cursor: nat, x: Line, rest: seq<Line>)
    requires cursor > |lines|
    requires var step := Take(lines, cursor, x); step.Next? ==>
               step.cursor > |step.lines| && Appends(step.lines, step.cursor, rest)
    ensures Appends(lines, cursor, [x] + rest)
  {
    TakePast(lines, cursor, x);
    FirstLine(lines, cursor, x, rest);
    Heads(x, rest);
    Associative(lines, TargetText(x), Target(rest));
    if x.kind.Note? { assert [] + Target(rest) == Target(rest) && lines + [] == lines; }
  }

  /** A hunk that starts past the end of the file is accepted exactly when it only adds,
      and its lines are appended wherever it says they go. */
  lemma {:induction false} PastHunkExactly(lines: seq<Text>, cursor: nat, body: seq<Line>)
    requires cursor > |lines|
    ensures Run(lines, cursor, body).error == None <==> Source(body) == []
    ensures Source(body) == [] ==> Run(lines, cursor, body).lines == lines + Target(body)
    decreases |body|
  {
    if body == [] {
      assert lines + [] == lines;
    } else {
      TakePast(lines, cursor, body[0]);
      var step := Take(lines, cursor, body[0]);
      if step.Next? { PastHunkExactly(step.lines, step.cursor, body[1..]); }
      assert body == [body[0]] + body[1..];
      AppendsNext(lines, cursor, body[0], body[1..]);
    }
  }

  // ---------- patches ----------

  /** Valid hunks without a source side. */
  predicate Additions(hunks: seq<Hunk>) {
    hunks == [] || (IsValid(hunks[0]) && Source(hunks[0].body) == [] && Additions(hunks[1..]))
  }

  function AddedBy(hunks: seq<Hunk>): seq<Text> {
    if hunks == [] then [] else Target(hunks[0].body) + AddedBy(hunks[1..])
  }

  lemma ApplySteps(lines: seq<Text>, hunks: seq<Hunk>)
    requires hunks != [] && IsValid(hunks[0])
    ensures var r := Run(lines, hunks[0].targetStart - 1, hunks[0].body);
      Apply(lines, hunks) == if r.error.Some? then r else Apply(r.lines, hunks[1..])
  {
  }

  /** Past the end of the file a patch is accepted exactly when it only adds. */
  lemma {:induction false} PastPatchExactly(lines: seq<Text>, hunks: seq<Hunk>, base: nat)
    requires Ordered(hunks, base) && base > |lines|
    ensures Apply(lines, hunks).error == None <==> Additions(hunks)
    ensures Additions(hunks) ==> Apply(lines, hunks) == Result(lines + AddedBy(hunks), None)
    decreases |hunks|
  {
    if hunks == [] {
      assert lines + [] == lines;
    } else if IsValid(hunks[0]) {
      var h, rest := hunks[0], hunks[1..];
      ApplySteps(lines, hunks);
      PastHunkExactly(lines, h.targetStart - 1, h.body);
      if Source(h.body) == [] {
        PastPatchExactly(lines + Target(h.body), rest, h.targetStart - 1 + |Target(h.body)|);
        assert (lines + Target(h.body)) + AddedBy(rest) == lines + (Target(h.body) + AddedBy(rest));
      }
    }
  }

  /** The list index of a positive target start. */
  function Start(h: Hunk): nat { if h.targetStart == 0 then 0 else h.targetStart - 1 }

  predicate StartsPast(lines: seq<Text>, h: Hunk) { h.targetStart > |lines| + 1 }

  /** The hunk is accepted, but it is cut short or starts past the end. */
  ghost predicate RunsOff(lines: seq<Text>, h: Hunk) {
    && IsValid(h) && h.targetStart >= 1
    && if StartsPast(lines, h) then Source(h.body) == []
       else CutSomewhere(lines, Start(h), h.body)
  }

  /** Hunks before `m` run through, hunk `m` runs off the end of what they leave, and
      those after it only add. */
  ghost predicate FallsOff(lines: seq<Text>, hunks: seq<Hunk>, m: int) {
    && 0 <= m < |hunks|
    && PatchRuns(lines, hunks[..m]) && RunsOff(Apply(lines, hunks[..m]).lines, hunks[m])
    && Additions(hunks[m + 1..])
  }

  /** The first hunk runs through inside the file. */
  predicate FirstRuns(lines: seq<Text>, hunks: seq<Hunk>) {
    && hunks != [] && IsValid(hunks[0]) && 1 <= hunks[0].targetStart <= |lines| + 1
    && Runs(lines, hunks[0].targetStart - 1, hunks[0].body)
  }

  function AfterFirst(lines: seq<Text>, hunks: seq<Hunk>): seq<Text>
    requires hunks != [] && hunks[0].targetStart >= 1
  {
    Run(lines, hunks[0].targetStart - 1, hunks[0].body).lines
  }

  lemma FallsOffNext(lines: seq<Text>, hunks: seq<Hunk>, m: nat)
    requires hunks != [] && m > 0
    ensures FallsOff(lines, hunks, m) <==>
              FirstRuns(lines, hunks) && FallsOff(AfterFirst(lines, hunks), hunks[1..], m - 1)
    ensures FallsOff(lines, hunks, m) ==>
              Apply(lines, hunks[..m]).lines == Apply(AfterFirst(lines, hunks), hunks[1..][..m - 1]).lines
  {
    if m < |hunks| {
      assert hunks[..m][0] == hunks[0] && hunks[..m][1..] == hunks[1..][..m - 1];
      assert hunks[1..][m - 1 + 1..] == hunks[m + 1..];
    }
  }

  lemma FallsOffFirst(lines: seq<Text>, hunks: seq<Hunk>)
    requires hunks != []
    ensures FallsOff(lines, hunks, 0) <==> RunsOff(lines, hunks[0]) && Additions(hunks[1..])
    ensures Apply(lines, hunks[..0]).lines == lines
  {
    assert hunks[..0] == [];
  }

  lemma PrefixIsShorter(body: seq<Line>, k: nat)
    requires k < |body| && body[k] == BLANK
    ensures |Target(body[..k])| < |Target(body)| && |Source(body[..k])| < |Source(body)|
  {
    assert body == body[..k] + body[k..] && body[k..][0] == BLANK;
    SidesSplit(body[..k], body[k..]);
  }

  /** A hunk that is cut short ends before the place where its target side would, so
      whatever follows it starts past the end. */
  lemma CutIsShorter(lines: seq<Text>, h: Hunk, k: nat)
    requires 1 <= h.targetStart <= |lines| + 1 && CutsAt(lines, h.targetStart - 1, h.body, k)
    ensures !Stands(lines, h.targetStart - 1, Source(h.body))
    ensures |Run(lines, h.targetStart - 1, h.body).lines| == h.targetStart - 1 + |Target(h.body[..k])|
    ensures |Target(h.body[..k])| < |Target(h.body)| && |Source(h.body[..k])| < |Source(h.body)|
  {
    CutsShort(lines, h.targetStart - 1, h.body, k);
    PrefixIsShorter(h.body, k);
  }

  /** A hunk that runs off leaves a file that ends before the hunk's target side would. */
  lemma OffIsShort(lines: seq<Text>, h: Hunk)
    requires RunsOff(lines, h)
    ensures Run(lines, h.targetStart - 1, h.body).error == None
    ensures |Run(lines, h.targetStart - 1, h.body).lines| < h.targetStart - 1 + |Target(h.body)|
    ensures !StartsPast(lines, h) ==> !Stands(lines, h.targetStart - 1, Source(h.body))
  {
    if StartsPast(lines, h) {
      PastHunkExactly(lines, h.targetStart - 1, h.body);
    } else {
      var k :| CutsAt(lines, Start(h), h.body, k);
      CutsShort(lines, h.targetStart - 1, h.body, k);
      CutIsShorter(lines, h, k);
    }
  }

  lemma InsideHunk(lines: seq<Text>, h: Hunk)
    requires h.targetStart >= 1 && !StartsPast(lines, h)
    ensures Run(lines, Start(h), h.body).error == None <==>
              Runs(lines, Start(h), h.body) || CutSomewhere(lines, Start(h), h.body)
    ensures Runs(lines, Start(h), h.body) ==> Start(h) + |Target(h.body)| <= |Run(lines, Start(h), h.body).lines|
  {
    HunkAcceptedExactly(lines, Start(h), h.body);
    RunExactly(lines, Start(h), h.body);
  }

  /** What an accepted first hunk leaves, and what the others must then be. */
  lemma FirstHunk(lines: seq<Text>, hunks: seq<Hunk>, base: nat)
    requires hunks != [] && Ordered(hunks, base) && IsValid(hunks[0])
    ensures var h, after := hunks[0], AfterFirst(lines, hunks);
      && (Run(lines, h.targetStart - 1, h.body).error == None <==> FirstRuns(lines, hunks) || RunsOff(lines, h))
      && (FirstRuns(lines, hunks) ==> !RunsOff(lines, h) && h.targetStart - 1 + |Target(h.body)| <= |after|)
      && (RunsOff(lines, h) ==> h.targetStart - 1 + |Target(h.body)| > |after|)
  {
    var h := hunks[0];
    if StartsPast(lines, h) {
      PastHunkExactly(lines, h.targetStart - 1, h.body);
    } else {
      InsideHunk(lines, h);
      if CutSomewhere(lines, Start(h), h.body) {
        OffIsShort(lines, h);
        RunExactly(lines, Start(h), h.body);
      }
    }
  }

  lemma {:induction false} AcceptedFrom(lines: seq<Text>, hunks: seq<Hunk>, base: nat)
    requires Ordered(hunks, base) && base <= |lines|
    ensures Apply(lines, hunks).error == None <==> PatchRuns(lines, hunks) || exists m :: FallsOff(lines, hunks, m)
    decreases |hunks|
  {
    if hunks != [] && IsValid(hunks[0]) {
      var h := hunks[0];
      FirstHunk(lines, hunks, base);
      FallsOffFirst(lines, hunks);
      forall m: int | m > 0
        ensures FallsOff(lines, hunks, m) <==>
                  FirstRuns(lines, hunks) && FallsOff(AfterFirst(lines, hunks), hunks[1..], m - 1)
      {
        FallsOffNext(lines, hunks, m);
      }
      if FirstRuns(lines, hunks) {
        AcceptedFrom(AfterFirst(lines, hunks), hunks[1..], h.targetStart - 1 + |Target(h.body)|);
        if i :| FallsOff(AfterFirst(lines, hunks), hunks[1..], i) { assert FallsOff(lines, hunks, i + 1); }
      } else if RunsOff(lines, h) {
        PastPatchExactly(AfterFirst(lines, hunks), hunks[1..], h.targetStart - 1 + |Target(h.body)|);
      }
    }
  }

  /** Acceptance, exactly: an ordered patch with positive starts is accepted by the
      engine if it runs through inside the file, or if from some hunk on it falls off
      the end. */
  lemma AcceptedExactly(lines: seq<Text>, hunks: seq<Hunk>)
    requires Ordered(hunks, 0)
    ensures Apply(lines, hunks).error == None <==> PatchRuns(lines, hunks) || exists m :: FallsOff(lines, hunks, m)
  {
    AcceptedFrom(lines, hunks, 0);
  }

  lemma FallenAtOnce(lines: seq<Text>, hunks: seq<Hunk>, base: nat)
    requires Ordered(hunks, base) && FallsOff(lines, hunks, 0)
    ensures Apply(lines, hunks) == Result(AfterFirst(lines, hunks) + AddedBy(hunks[1..]), None)
  {
    FallsOffFirst(lines, hunks);
    OffIsShort(lines, hunks[0]);
    PastPatchExactly(AfterFirst(lines, hunks), hunks[1..], hunks[0].targetStart - 1 + |Target(hunks[0].body)|);
  }

  lemma ApplyFirst(lines: seq<Text>, hunks: seq<Hunk>)
    requires FirstRuns(lines, hunks)
    ensures Apply(lines, hunks) == Apply(AfterFirst(lines, hunks), hunks[1..])
  {
  }

  ghost predicate Leaves(lines: seq<Text>, hunks: seq<Hunk>, m: nat) {
    m < |hunks| &&
    var left, h := Apply(lines, hunks[..m]).lines, hunks[m];
    Apply(lines, hunks) == Result(Run(left, h.targetStart - 1, h.body).lines + AddedBy(hunks[m + 1..]), None)
  }

  lemma LeavesNext(lines: seq<Text>, hunks: seq<Hunk>, m: nat)
    requires 0 < m < |hunks| && FallsOff(lines, hunks, m) && FirstRuns(lines, hunks)
    requires Leaves(AfterFirst(lines, hunks), hunks[1..], m - 1)
    ensures Leaves(lines, hunks, m)
  {
    FallsOffNext(lines, hunks, m);
    ApplyFirst(lines, hunks);
    assert hunks[m] == hunks[1..][m - 1] && hunks[1..][m - 1 + 1..] == hunks[m + 1..];
  }

  /** What a patch that falls off leaves: what its first hunks leave, with the hunk that
      runs off as far as it got, and every later addition appended. */
  lemma {:induction false} FallenResult(lines: seq<Text>, hunks: seq<Hunk>, base: nat, m: nat)
    requires Ordered(hunks, base) && FallsOff(lines, hunks, m)
    ensures Leaves(lines, hunks, m)
    decreases |hunks|
  {
    if m == 0 {
      FallsOffFirst(lines, hunks);
      FallenAtOnce(lines, hunks, base);
    } else {
      FallsOffNext(lines, hunks, m);
      FallenResult(AfterFirst(lines, hunks), hunks[1..], hunks[0].targetStart - 1 + |Target(hunks[0].body)|, m - 1);
      LeavesNext(lines, hunks, m);
    }
  }

  // ---------- growth ----------

  lemma {:induction false} GrowthSplit(a: seq<Hunk>, b: seq<Hunk>)
    ensures Growth(a + b) == Growth(a) + Growth(b)
  {
    if a == [] {
      assert a + b == b;
    } else {
      GrowthSplit(a[1..], b);
      assert (a + b)[1..] == a[1..] + b;
    }
  }

  lemma {:induction false} AdditionsGrow(hunks: seq<Hunk>)
    requires Additions(hunks)
    ensures Growth(hunks) == |AddedBy(hunks)|
  {
    if hunks != [] { AdditionsGrow(hunks[1..]); }
  }

  lemma {:induction false} OrderedFront(hunks: seq<Hunk>, m: nat, base: nat)
    requires m <= |hunks| && Ordered(hunks, base)
    ensures Ordered(hunks[..m], base)
    decreases |hunks|
  {
    if m > 0 {
      OrderedFront(hunks[1..], m - 1, hunks[0].targetStart - 1 + |Target(hunks[0].body)|);
      assert hunks[..m][1..] == hunks[1..][..m - 1];
    }
  }

  /** The net growth that the end of a body from line `k` on stands for. */
  function Dropped(body: seq<Line>, k: nat): int
    requires k <= |body|
  {
    |Target(body[k..])| - |Source(body[k..])|
  }

  /** Whether a hunk starts past the end can be told from the file's length alone. */
  lemma StartsPastExactly(lines: seq<Text>, hunks: seq<Hunk>, m: nat)
    requires m < |hunks| && Ordered(hunks, 0) && PatchRuns(lines, hunks[..m])
    ensures StartsPast(Apply(lines, hunks[..m]).lines, hunks[m]) <==>
              hunks[m].targetStart > |lines| + Growth(hunks[..m]) + 1
  {
    OrderedFront(hunks, m, 0);
    PatchGrowth(lines, hunks[..m]);
  }

  lemma DroppedIs(body: seq<Line>, k: nat)
    requires k <= |body|
    ensures Dropped(body, k) == (|Target(body)| - |Target(body[..k])|) - (|Source(body)| - |Source(body[..k])|)
  {
    assert body[..k] + body[k..] == body;
    SidesSplit(body[..k], body[k..]);
  }

  lemma GrowthAround(hunks: seq<Hunk>, m: nat)
    requires m < |hunks|
    ensures Growth(hunks) == Growth(hunks[..m]) + |Target(hunks[m].body)| - |Source(hunks[m].body)|
              + Growth(hunks[m + 1..])
  {
    var tail := [hunks[m]] + hunks[m + 1..];
    assert hunks == hunks[..m] + tail && tail[1..] == hunks[m + 1..];
    GrowthSplit(hunks[..m], tail);
  }

  /** A patch that falls off changes the length by what it adds less what it removes,
      except that a hunk cut short loses the growth of the part it drops. */
  lemma FallenGrowth(lines: seq<Text>, hunks: seq<Hunk>, m: nat)
    requires Ordered(hunks, 0) && FallsOff(lines, hunks, m)
    ensures var left, h := Apply(lines, hunks[..m]).lines, hunks[m];
      && (StartsPast(left, h) ==> |Apply(lines, hunks).lines| == |lines| + Growth(hunks))
      && (!StartsPast(left, h) ==> forall k :: CutsAt(left, Start(h), h.body, k) ==>
            |Apply(lines, hunks).lines| == |lines| + Growth(hunks) - Dropped(h.body, k))
  {
    var left, h := Apply(lines, hunks[..m]).lines, hunks[m];
    OrderedFront(hunks, m, 0);
    PatchGrowth(lines, hunks[..m]);
    GrowthAround(hunks, m);
    AdditionsGrow(hunks[m + 1..]);
    FallenResult(lines, hunks, 0, m);
    if StartsPast(left, h) {
      PastHunkExactly(left, Start(h), h.body);
    } else {
      forall k | CutsAt(left, Start(h), h.body, k)
        ensures |Run(left, Start(h), h.body).lines| == |left| + |Target(h.body)| - |Source(h.body)| - Dropped(h.body, k)
      {
        CutGrowth(left, h, k);
      }
    }
  }

  lemma CutGrowth(left: seq<Text>, h: Hunk, k: nat)
    requires h.targetStart >= 1 && !StartsPast(left, h) && CutsAt(left, Start(h), h.body, k)
    ensures |Run(left, Start(h), h.body).lines| == |left| + |Target(h.body)| - |Source(h.body)| - Dropped(h.body, k)
  {
    CutIsShorter(left, h, k);
    DroppedIs(h.body, k);
  }

  /** Hunk `m` starts past the end, or what it drops would not have changed the length. */
  ghost predicate Balanced(lines: seq<Text>, hunks: seq<Hunk>, m: int) {
    FallsOff(lines, hunks, m) &&
    var left, h := Apply(lines, hunks[..m]).lines, hunks[m];
    StartsPast(left, h) || forall k :: CutsAt(left, Start(h), h.body, k) ==> Dropped(h.body, k) == 0
  }

  lemma BalancedExactly(lines: seq<Text>, hunks: seq<Hunk>, m: nat)
    requires Ordered(hunks, 0) && FallsOff(lines, hunks, m)
    ensures Balanced(lines, hunks, m) <==> |Apply(lines, hunks).lines| == |lines| + Growth(hunks)
  {
    FallenGrowth(lines, hunks, m);
    var left, h := Apply(lines, hunks[..m]).lines, hunks[m];
    if !StartsPast(left, h) {
      var k :| CutsAt(left, Start(h), h.body, k);
    }
  }

  /** Growth, exactly: an accepted patch changes the length by what it adds less what it
      removes if and only if it runs through, or what it drops is balanced. */
  lemma GrowthExactly(lines: seq<Text>, hunks: seq<Hunk>)
    requires Ordered(hunks, 0) && Apply(lines, hunks).error == None
    ensures |Apply(lines, hunks).lines| == |lines| + Growth(hunks) <==>
              PatchRuns(lines, hunks) || exists m :: Balanced(lines, hunks, m)
  {
    AcceptedExactly(lines, hunks);
    if PatchRuns(lines, hunks) { PatchGrowth(lines, hunks); }
    forall m | FallsOff(lines, hunks, m)
      ensures Balanced(lines, hunks, m) <==> |Apply(lines, hunks).lines| == |lines| + Growth(hunks)
    {
      BalancedExactly(lines, hunks, m);
    }
  }
}
