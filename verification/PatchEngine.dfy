/**
 * In-place application of one file's hunks to a list of lines with a single
 * cursor, exactly as Python indexes lists, and what it amounts to: every untouched
 * stretch stays, every source side becomes its target side, and the reversed patch
 * undoes it.
 */
module PatchEngine {
  import opened Wrappers

  type Text = string
  datatype Kind = Added | Removed | Context | Note   // Note: "no newline" and empty markers
  datatype Line = Line(kind: Kind, text: Text)

  datatype Hunk = Hunk(sourceStart: nat, sourceLength: nat, targetStart: nat, targetLength: nat, body: seq<Line>)

  datatype PatchError = InvalidHunk | Mismatch | OutOfRange

  /** The list after applying, and the exception that stopped the work, if any. */
  datatype Result = Result(lines: seq<Text>, error: Option<PatchError>)

  function Source(body: seq<Line>): (r: seq<Text>)
    ensures |r| <= |body|
  {
    if body == [] then []
    else if body[0].kind.Removed? || body[0].kind.Context? then [body[0].text] + Source(body[1..])
    else Source(body[1..])
  }

  function Target(body: seq<Line>): (r: seq<Text>)
    ensures |r| <= |body|
  {
    if body == [] then []
    else if body[0].kind.Added? || body[0].kind.Context? then [body[0].text] + Target(body[1..])
    else Target(body[1..])
  }

  predicate IsValid(h: Hunk) { h.sourceLength == |Source(h.body)| && h.targetLength == |Target(h.body)| }

  // ---------- Python list indexing ----------

  /** The element a possibly negative index denotes, if any. */
  function Index(cursor: int, length: nat): (r: Option<nat>)
    ensures r.Some? ==> r.value < length
  {
    if 0 <= cursor < length then Some(cursor)
    else if cursor < 0 && 0 <= length + cursor then Some(length + cursor)
    else None
  }

  /** Where an empty slice at a possibly negative or too large index sits. */
  function SlicePoint(cursor: int, length: nat): (r: nat)
    ensures r <= length
  {
    if cursor > length then length
    else if cursor >= 0 then cursor
    else if length + cursor >= 0 then length + cursor
    else 0
  }

  // ---------- the meaning of one hunk line, one hunk, one patch ----------

  datatype Step = Next(lines: seq<Text>, cursor: int) | EndOfFile | Fail(error: PatchError)

  function Take(lines: seq<Text>, cursor: int, line: Line): Step {
    match line.kind
    case Added =>
      var p := SlicePoint(cursor, |lines|);
      Next(lines[..p] + [line.text] + lines[p..], cursor + 1)
    case Removed =>
      var at := Index(cursor, |lines|);
      if at == None then Fail(OutOfRange)
      else if lines[at.value] != line.text then Fail(Mismatch)
      else Next(lines[..at.value] + lines[at.value + 1..], cursor)
    case Context =>
      if line.text == "" && cursor == |lines| then EndOfFile
      else
        var at := Index(cursor, |lines|);
        if at == None then Fail(OutOfRange)
        else if lines[at.value] != line.text then Fail(Mismatch)
        else Next(lines, cursor + 1)
    case Note => Next(lines, cursor)
  }

  function Run(lines: seq<Text>, cursor: int, body: seq<Line>): Result
    decreases body
  {
    if body == [] then Result(lines, None)
    else
      match Take(lines, cursor, body[0])
      case Next(lines', cursor') => Run(lines', cursor', body[1..])
      case EndOfFile => Result(lines, None)
      case Fail(error) => Result(lines, Some(error))
  }

  function Apply(lines: seq<Text>, hunks: seq<Hunk>): Result
    decreases |hunks|
  {
    if hunks == [] then Result(lines, None)
    else if !IsValid(hunks[0]) then Result(lines, Some(InvalidHunk))
    else
      var r := Run(lines, hunks[0].targetStart as int - 1, hunks[0].body);
      if r.error.Some? then r else Apply(r.lines, hunks[1..])
  }

  function Count(body: seq<Line>, kind: Kind): nat {
    if body == [] then 0 else (if body[0].kind == kind then 1 else 0) + Count(body[1..], kind)
  }

  lemma {:induction false} SidesCounted(body: seq<Line>)
    ensures |Source(body)| == Count(body, Removed) + Count(body, Context)
    ensures |Target(body)| == Count(body, Added) + Count(body, Context)
  {
    if body != [] { SidesCounted(body[1..]); }
  }

  lemma {:induction false} RunNeverInvalid(lines: seq<Text>, cursor: int, body: seq<Line>)
    ensures Run(lines, cursor, body).error != Some(InvalidHunk)
    decreases |body|
  {
    if body != [] {
      var step := Take(lines, cursor, body[0]);
      if step.Next? { RunNeverInvalid(step.lines, step.cursor, body[1..]); }
    }
  }

  /** A hunk is refused as invalid exactly if its header miscounts its lines, whatever the
      file holds, and then changes nothing. */
  lemma InvalidExactly(lines: seq<Text>, h: Hunk)
    ensures Apply(lines, [h]).error == Some(InvalidHunk) <==>
              || h.sourceLength != Count(h.body, Removed) + Count(h.body, Context)
              || h.targetLength != Count(h.body, Added) + Count(h.body, Context)
    ensures Apply(lines, [h]).error == Some(InvalidHunk) ==> Apply(lines, [h]).lines == lines
  {
    SidesCounted(h.body);
    RunNeverInvalid(lines, h.targetStart as int - 1, h.body);
    assert [h][1..] == [];
  }

  /** A target start of zero makes the cursor the last line: what is added there comes to
      stand in front of that line. */
  lemma AddedBeforeLast(lines: seq<Text>, text: Text)
    ensures Take(lines, -1, Line(Added, text)) ==
              if lines == [] then Next([text], 0)
              else Next(lines[..|lines| - 1] + [text, lines[|lines| - 1]], 0)
  {
    if lines != [] {
      var last := |lines| - 1;
      assert lines[last..] == [lines[last]];
      assert lines[..last] + [text] + [lines[last]] == lines[..last] + [text, lines[last]];
    }
  }

  class FileLines {
    var lines: seq<Text>

    constructor (lines: seq<Text>)
      ensures this.lines == lines
    {
      this.lines := lines;
    }

    /** The inner loop of _modify_file_lines. */
    method ApplyHunk(h: Hunk) returns (error: Option<PatchError>)
      modifies this
      ensures Result(lines, error) == Run(old(lines), h.targetStart as int - 1, h.body)
    {
      var cursor: int := h.targetStart as int - 1;
      var k := 0;
      while k < |h.body|
        invariant k <= |h.body|
        invariant Run(lines, cursor, h.body[k..]) == Run(old(lines), h.targetStart as int - 1, h.body)
      {
        var line := h.body[k];
        assert h.body[k..][0] == line && h.body[k..][1..] == h.body[k + 1..];
        match line.kind {
          case Added =>
            var p := SlicePoint(cursor, |lines|);
            lines := lines[..p] + [line.text] + lines[p..];
            cursor := cursor + 1;
          case Removed =>
            var at := Index(cursor, |lines|);
            if at == None { return Some(OutOfRange); }
            if lines[at.value] != line.text { return Some(Mismatch); }
            lines := lines[..at.value] + lines[at.value + 1..];
          case Context =>
            if line.text == "" && cursor == |lines| { return None; }
            var at := Index(cursor, |lines|);
            if at == None { return Some(OutOfRange); }
            if lines[at.value] != line.text { return Some(Mismatch); }
            cursor := cursor + 1;
          case Note =>
        }
        k := k + 1;
      }
      assert h.body[k..] == [];
      return None;
    }

    /** _modify_file_lines. */
    method Modify(hunks: seq<Hunk>) returns (error: Option<PatchError>)
      modifies this
      ensures Result(lines, error) == Apply(old(lines), hunks)
    {
      var i := 0;
      while i < |hunks|
        invariant i <= |hunks|
        invariant Apply(lines, hunks[i..]) == Apply(old(lines), hunks)
      {
        assert hunks[i..][0] == hunks[i] && hunks[i..][1..] == hunks[i + 1..];
        if !IsValid(hunks[i]) { return Some(InvalidHunk); }
        error := ApplyHunk(hunks[i]);
        if error.Some? { return; }
        i := i + 1;
      }
      assert hunks[i..] == [];
      return None;
    }
  }

  // ---------- one hunk ----------

  /** `was` stands at the cursor. */
  predicate Stands(lines: seq<Text>, cursor: nat, was: seq<Text>) {
    cursor + |was| <= |lines| && lines[cursor..cursor + |was|] == was
  }

  /** What replacing it there by `now` gives. */
  function Replaced(lines: seq<Text>, cursor: nat, was: seq<Text>, now: seq<Text>): seq<Text>
    requires cursor + |was| <= |lines|
  {
    lines[..cursor] + now + lines[cursor + |was|..]
  }

  /** The hunk runs into a blank context line at the end of the file and is cut
      short there. */
  predicate CutShort(lines: seq<Text>, cursor: int, body: seq<Line>)
    decreases body
  {
    body != [] &&
    match Take(lines, cursor, body[0])
    case Next(lines', cursor') => CutShort(lines', cursor', body[1..])
    case EndOfFile => true
    case Fail(_) => false
  }

  lemma SpliceAdded(lines: seq<Text>, cursor: nat, x: Text, s: seq<Text>, t: seq<Text>)
    requires cursor <= |lines|
    ensures var longer := lines[..cursor] + [x] + lines[cursor..];
      && (Stands(longer, cursor + 1, s) <==> Stands(lines, cursor, s))
      && (Stands(lines, cursor, s) ==> Replaced(longer, cursor + 1, s, t) == Replaced(lines, cursor, s, [x] + t))
  {
    var longer := lines[..cursor] + [x] + lines[cursor..];
    if cursor + |s| <= |lines| {
      assert longer[cursor + 1..cursor + 1 + |s|] == lines[cursor..cursor + |s|];
      assert longer[..cursor + 1] == lines[..cursor] + [x];
      assert longer[cursor + 1 + |s|..] == lines[cursor + |s|..];
    }
  }

  lemma SpliceRemoved(lines: seq<Text>, cursor: nat, s: seq<Text>, t: seq<Text>)
    requires cursor < |lines|
    ensures var shorter, x := lines[..cursor] + lines[cursor + 1..], lines[cursor];
      && (Stands(shorter, cursor, s) <==> Stands(lines, cursor, [x] + s))
      && (Stands(shorter, cursor, s) ==> Replaced(shorter, cursor, s, t) == Replaced(lines, cursor, [x] + s, t))
  {
    var shorter, x := lines[..cursor] + lines[cursor + 1..], lines[cursor];
    if cursor + 1 + |s| <= |lines| {
      assert lines[cursor..cursor + 1 + |s|] == [x] + shorter[cursor..cursor + |s|];
      assert ([x] + s)[1..] == s && ([x] + shorter[cursor..cursor + |s|])[1..] == shorter[cursor..cursor + |s|];
      assert shorter[..cursor] == lines[..cursor];
      assert shorter[cursor + |s|..] == lines[cursor + 1 + |s|..];
    }
  }

  lemma SpliceKept(lines: seq<Text>, cursor: nat, s: seq<Text>, t: seq<Text>)
    requires cursor < |lines|
    ensures var x := lines[cursor];
      && (Stands(lines, cursor + 1, s) <==> Stands(lines, cursor, [x] + s))
      && (Stands(lines, cursor + 1, s) ==>
            Replaced(lines, cursor + 1, s, t) == Replaced(lines, cursor, [x] + s, [x] + t))
  {
    var x := lines[cursor];
    if cursor + 1 + |s| <= |lines| {
      assert lines[cursor..cursor + 1 + |s|] == [x] + lines[cursor + 1..cursor + 1 + |s|];
      assert ([x] + s)[1..] == s
             && ([x] + lines[cursor + 1..cursor + 1 + |s|])[1..] == lines[cursor + 1..cursor + 1 + |s|];
      assert lines[..cursor + 1] == lines[..cursor] + [x];
    }
  }

  /** One line of a body inside the file: what it needs and what it leaves. */
  lemma TakeInside(lines: seq<Text>, cursor: nat, line: Line)
    requires cursor <= |lines|
    ensures line.kind.Added? ==>
              Take(lines, cursor, line) == Next(lines[..cursor] + [line.text] + lines[cursor..], cursor + 1)
    ensures line.kind.Note? ==> Take(lines, cursor, line) == Next(lines, cursor)
    ensures line.kind.Removed? ==>
              Take(lines, cursor, line) == if cursor == |lines| then Fail(OutOfRange)
                                           else if lines[cursor] != line.text then Fail(Mismatch)
                                           else Next(lines[..cursor] + lines[cursor + 1..], cursor)
    ensures line.kind.Context? ==>
              Take(lines, cursor, line) == if cursor == |lines|
                                           then (if line.text == "" then EndOfFile else Fail(OutOfRange))
                                           else if lines[cursor] != line.text then Fail(Mismatch)
                                           else Next(lines, cursor + 1)
  {
  }

  /** The hunk runs through without being cut short. */
  predicate Runs(lines: seq<Text>, cursor: nat, body: seq<Line>) {
    Run(lines, cursor, body).error == None && !CutShort(lines, cursor, body)
  }

  /** A hunk that starts inside the file runs through exactly when its source side
      stands at the cursor, and then that side is replaced by its target side. */
  lemma {:induction false} RunExactly(lines: seq<Text>, cursor: nat, body: seq<Line>)
    requires cursor <= |lines|
    ensures Runs(lines, cursor, body) <==> Stands(lines, cursor, Source(body))
    ensures Runs(lines, cursor, body) ==>
              Run(lines, cursor, body).lines == Replaced(lines, cursor, Source(body), Target(body))
    decreases body
  {
    if body == [] {
      assert lines == lines[..cursor] + [] + lines[cursor..];
    } else {
      var line, rest := body[0], body[1..];
      TakeInside(lines, cursor, line);
      match line.kind {
        case Added => RunAdded(lines, cursor, body);
        case Removed => RunRemoved(lines, cursor, body);
        case Context => RunContext(lines, cursor, body);
        case Note => RunExactly(lines, cursor, rest);
      }
    }
  }

  lemma RunAdded(lines: seq<Text>, cursor: nat, body: seq<Line>)
    requires cursor <= |lines| && body != [] && body[0].kind.Added?
    ensures Runs(lines, cursor, body) <==> Stands(lines, cursor, Source(body))
    ensures Runs(lines, cursor, body) ==>
              Run(lines, cursor, body).lines == Replaced(lines, cursor, Source(body), Target(body))
    decreases body, 0
  {
    var line, rest := body[0], body[1..];
    TakeInside(lines, cursor, line);
    RunExactly(lines[..cursor] + [line.text] + lines[cursor..], cursor + 1, rest);
    SpliceAdded(lines, cursor, line.text, Source(rest), Target(rest));
  }

  lemma RunRemoved(lines: seq<Text>, cursor: nat, body: seq<Line>)
    requires cursor <= |lines| && body != [] && body[0].kind.Removed?
    ensures Runs(lines, cursor, body) <==> Stands(lines, cursor, Source(body))
    ensures Runs(lines, cursor, body) ==>
              Run(lines, cursor, body).lines == Replaced(lines, cursor, Source(body), Target(body))
    decreases body, 0
  {
    var line, rest := body[0], body[1..];
    TakeInside(lines, cursor, line);
    if cursor < |lines| {
      assert Stands(lines, cursor, Source(body)) ==> lines[cursor] == Source(body)[0];
      if lines[cursor] == line.text {
        RunExactly(lines[..cursor] + lines[cursor + 1..], cursor, rest);
        SpliceRemoved(lines, cursor, Source(rest), Target(rest));
      }
    }
  }

  lemma RunContext(lines: seq<Text>, cursor: nat, body: seq<Line>)
    requires cursor <= |lines| && body != [] && body[0].kind.Context?
    ensures Runs(lines, cursor, body) <==> Stands(lines, cursor, Source(body))
    ensures Runs(lines, cursor, body) ==>
              Run(lines, cursor, body).lines == Replaced(lines, cursor, Source(body), Target(body))
    decreases body, 0
  {
    var line, rest := body[0], body[1..];
    TakeInside(lines, cursor, line);
    if cursor < |lines| {
      assert Stands(lines, cursor, Source(body)) ==> lines[cursor] == Source(body)[0];
      if lines[cursor] == line.text {
        RunExactly(lines, cursor + 1, rest);
        SpliceKept(lines, cursor, Source(rest), Target(rest));
      }
    }
  }

  // ---------- a whole patch ----------

  /** Every hunk is valid, starts inside the file and runs through. */
  predicate PatchRuns(lines: seq<Text>, hunks: seq<Hunk>)
    decreases |hunks|
  {
    hunks != [] ==>
      var h := hunks[0];
      && IsValid(h) && 1 <= h.targetStart <= |lines| + 1
      && Runs(lines, h.targetStart - 1, h.body)
      && PatchRuns(Run(lines, h.targetStart - 1, h.body).lines, hunks[1..])
  }

  /** No hunk starts before the end of the previous one on the target side. */
  predicate Ordered(hunks: seq<Hunk>, base: nat) {
    hunks != [] ==>
      hunks[0].targetStart > base && Ordered(hunks[1..], hunks[0].targetStart - 1 + |Target(hunks[0].body)|)
  }

  /** Source and target starts differ by what the earlier hunks added and removed. */
  predicate OffsetConsistent(hunks: seq<Hunk>, offset: int) {
    hunks != [] ==>
      && hunks[0].targetStart == hunks[0].sourceStart + offset
      && OffsetConsistent(hunks[1..], offset + |Target(hunks[0].body)| - |Source(hunks[0].body)|)
  }

  /** The untouched stretches with one side of every hunk between them. */
  function Weave(gaps: seq<seq<Text>>, hunks: seq<Hunk>, sources: bool): seq<Text>
    requires |gaps| == |hunks| + 1
    decreases |hunks|
  {
    if hunks == [] then gaps[0]
    else
      var side := if sources then Source(hunks[0].body) else Target(hunks[0].body);
      gaps[0] + side + Weave(gaps[1..], hunks[1..], sources)
  }

  /** Every hunk is valid and its target start is where its stretch ends. */
  predicate Placed(gaps: seq<seq<Text>>, hunks: seq<Hunk>, base: nat)
    decreases |hunks|
  {
    && |gaps| == |hunks| + 1
    && (hunks != [] ==>
          && IsValid(hunks[0])
          && hunks[0].targetStart == base + |gaps[0]| + 1
          && Placed(gaps[1..], hunks[1..], base + |gaps[0]| + |Target(hunks[0].body)|))
  }

  /** A woven file becomes the same stretches woven with the target sides. */
  lemma {:induction false} WovenRuns(done: seq<Text>, gaps: seq<seq<Text>>, hunks: seq<Hunk>)
    requires Placed(gaps, hunks, |done|)
    ensures PatchRuns(done + Weave(gaps, hunks, true), hunks)
    ensures Apply(done + Weave(gaps, hunks, true), hunks) == Result(done + Weave(gaps, hunks, false), None)
    decreases |hunks|
  {
    if hunks != [] {
      var h, tail := hunks[0], Weave(gaps[1..], hunks[1..], true);
      var front, t := done + gaps[0], Target(h.body);
      assert |front + t| == |done| + |gaps[0]| + |t|;
      WovenRuns(front + t, gaps[1..], hunks[1..]);
      FirstWoven(front, tail, hunks);
      WeaveUnfolds(done, gaps, hunks, true);
      WeaveUnfolds(done, gaps, hunks, false);
    }
  }

  /** The first hunk of a woven file, and the rest after it. */
  lemma FirstWoven(front: seq<Text>, tail: seq<Text>, hunks: seq<Hunk>)
    requires hunks != [] && IsValid(hunks[0]) && hunks[0].targetStart == |front| + 1
    requires PatchRuns(front + Target(hunks[0].body) + tail, hunks[1..])
    ensures var lines := front + Source(hunks[0].body) + tail;
      && PatchRuns(lines, hunks)
      && Apply(lines, hunks) == Apply(front + Target(hunks[0].body) + tail, hunks[1..])
  {
    HunkRuns(front, hunks[0].body, tail);
  }

  lemma WeaveUnfolds(done: seq<Text>, gaps: seq<seq<Text>>, hunks: seq<Hunk>, sources: bool)
    requires |gaps| == |hunks| + 1 && hunks != []
    ensures done + Weave(gaps, hunks, sources) ==
              (done + gaps[0]) + (if sources then Source(hunks[0].body) else Target(hunks[0].body))
                + Weave(gaps[1..], hunks[1..], sources)
  {
  }

  lemma HunkRuns(front: seq<Text>, body: seq<Line>, tail: seq<Text>)
    ensures Runs(front + Source(body) + tail, |front|, body)
    ensures Run(front + Source(body) + tail, |front|, body).lines == front + Target(body) + tail
  {
    Surrounded(front, Source(body), Target(body), tail);
    RunExactly(front + Source(body) + tail, |front|, body);
  }

  lemma Surrounded(a: seq<Text>, s: seq<Text>, t: seq<Text>, b: seq<Text>)
    ensures Stands(a + s + b, |a|, s) && Replaced(a + s + b, |a|, s, t) == a + t + b
  {
    var lines := a + s + b;
    assert lines[|a|..|a| + |s|] == s;
    assert lines[..|a|] == a && lines[|a| + |s|..] == b;
  }

  /** A file cut where a hunk's source side stands. */
  lemma CutAt(done: seq<Text>, rest: seq<Text>, cursor: nat, s: seq<Text>, t: seq<Text>)
    requires |done| <= cursor && Stands(done + rest, cursor, s)
    ensures cursor + |s| <= |done| + |rest|
    ensures var gap, tail := rest[..cursor - |done|], rest[cursor - |done| + |s|..];
      && rest == gap + s + tail && |done + gap| == cursor
      && Replaced(done + rest, cursor, s, t) == (done + gap + t) + tail
  {
    var lines := done + rest;
    var k := cursor - |done|;
    assert lines[..cursor] == done + rest[..k];
    assert lines[cursor..cursor + |s|] == rest[k..k + |s|];
    assert lines[cursor + |s|..] == rest[k + |s|..];
    assert rest == rest[..k] + rest[k..k + |s|] + rest[k + |s|..];
  }

  /** An ordered patch that runs finds its file woven. */
  lemma {:induction false} RunsWoven(done: seq<Text>, rest: seq<Text>, hunks: seq<Hunk>) returns (gaps: seq<seq<Text>>)
    requires Ordered(hunks, |done|) && PatchRuns(done + rest, hunks)
    ensures Placed(gaps, hunks, |done|) && rest == Weave(gaps, hunks, true)
    decreases |hunks|
  {
    if hunks == [] {
      gaps := [rest];
    } else {
      var h := hunks[0];
      var cursor: nat := h.targetStart - 1;
      var s, t := Source(h.body), Target(h.body);
      RunExactly(done + rest, cursor, h.body);
      CutAt(done, rest, cursor, s, t);
      var gap, tail := rest[..cursor - |done|], rest[cursor - |done| + |s|..];
      var more := RunsWoven(done + gap + t, tail, hunks[1..]);
      gaps := [gap] + more;
      assert gaps[1..] == more;
    }
  }

  /** An ordered patch with positive starts runs through inside a file exactly when the
      file is its untouched stretches woven with its source sides, and then the result
      is the same stretches woven with its target sides. */
  lemma PatchExactly(lines: seq<Text>, hunks: seq<Hunk>)
    requires Ordered(hunks, 0)
    ensures PatchRuns(lines, hunks) <==> exists gaps :: Placed(gaps, hunks, 0) && lines == Weave(gaps, hunks, true)
    ensures forall gaps :: Placed(gaps, hunks, 0) && lines == Weave(gaps, hunks, true) ==>
              Apply(lines, hunks) == Result(Weave(gaps, hunks, false), None)
  {
    assert [] + lines == lines;
    if PatchRuns(lines, hunks) {
      var gaps := RunsWoven([], lines, hunks);
    }
    forall gaps | Placed(gaps, hunks, 0) && lines == Weave(gaps, hunks, true)
      ensures PatchRuns(lines, hunks) && Apply(lines, hunks) == Result(Weave(gaps, hunks, false), None)
    {
      WovenRuns([], gaps, hunks);
      assert [] + Weave(gaps, hunks, false) == Weave(gaps, hunks, false);
    }
  }

  function Growth(hunks: seq<Hunk>): int {
    if hunks == [] then 0 else |Target(hunks[0].body)| - |Source(hunks[0].body)| + Growth(hunks[1..])
  }

  lemma {:induction false} WeaveGrowth(gaps: seq<seq<Text>>, hunks: seq<Hunk>)
    requires |gaps| == |hunks| + 1
    ensures |Weave(gaps, hunks, false)| == |Weave(gaps, hunks, true)| + Growth(hunks)
    decreases |hunks|
  {
    if hunks != [] { WeaveGrowth(gaps[1..], hunks[1..]); }
  }

  /** A patch that runs changes the length by what it added less what it removed. */
  lemma PatchGrowth(lines: seq<Text>, hunks: seq<Hunk>)
    requires Ordered(hunks, 0) && PatchRuns(lines, hunks)
    ensures Apply(lines, hunks).error == None && |Apply(lines, hunks).lines| == |lines| + Growth(hunks)
  {
    assert [] + lines == lines;
    var gaps := RunsWoven([], lines, hunks);
    PatchExactly(lines, hunks);
    WeaveGrowth(gaps, hunks);
  }

  // ---------- the reversed patch ----------

  function ReverseLine(line: Line): Line {
    line.(kind := match line.kind case Added => Removed case Removed => Added case k => k)
  }

  function ReverseBody(body: seq<Line>): (r: seq<Line>)
    ensures Source(r) == Target(body) && Target(r) == Source(body)
    ensures |r| == |body| && forall i :: 0 <= i < |r| ==> r[i] == ReverseLine(body[i])
  {
    if body == [] then [] else [ReverseLine(body[0])] + ReverseBody(body[1..])
  }

  function ReverseHunk(h: Hunk): Hunk {
    Hunk(h.targetStart, h.targetLength, h.sourceStart, h.sourceLength, ReverseBody(h.body))
  }

  function ReversePatch(hunks: seq<Hunk>): (r: seq<Hunk>)
    ensures |r| == |hunks|
  {
    if hunks == [] then [] else [ReverseHunk(hunks[0])] + ReversePatch(hunks[1..])
  }

  lemma {:induction false} ReverseWeaves(gaps: seq<seq<Text>>, hunks: seq<Hunk>, base: nat, sourceBase: nat)
    requires Placed(gaps, hunks, base) && OffsetConsistent(hunks, base - sourceBase)
    ensures Placed(gaps, ReversePatch(hunks), sourceBase)
    ensures Weave(gaps, ReversePatch(hunks), true) == Weave(gaps, hunks, false)
    ensures Weave(gaps, ReversePatch(hunks), false) == Weave(gaps, hunks, true)
    decreases |hunks|
  {
    if hunks != [] {
      var h := hunks[0];
      ReverseWeaves(gaps[1..], hunks[1..],
                    base + |gaps[0]| + |Target(h.body)|, sourceBase + |gaps[0]| + |Source(h.body)|);
      assert ReversePatch(hunks)[1..] == ReversePatch(hunks[1..]);
    }
  }

  /** Applying an ordered, offset-consistent patch and then its reverse gives the
      original lines back. */
  lemma ReverseRestores(lines: seq<Text>, hunks: seq<Hunk>)
    requires Ordered(hunks, 0) && OffsetConsistent(hunks, 0) && PatchRuns(lines, hunks)
    ensures Apply(lines, hunks).error == None
    ensures Apply(Apply(lines, hunks).lines, ReversePatch(hunks)) == Result(lines, None)
  {
    assert [] + lines == lines;
    var gaps := RunsWoven([], lines, hunks);
    PatchExactly(lines, hunks);
    ReverseWeaves(gaps, hunks, 0, 0);
    var back := ReversePatch(hunks);
    WovenRuns([], gaps, back);
    assert [] + Weave(gaps, back, true) == Weave(gaps, hunks, false);
    assert [] + Weave(gaps, back, false) == lines;
  }

  // ---------- a target start of zero ----------

  function Removals(texts: seq<Text>): (r: seq<Line>)
    ensures Source(r) == texts && Target(r) == []
  {
    if texts == [] then [] else [Line(Removed, texts[0])] + Removals(texts[1..])
  }

  /** The single hunk of a patch that deletes a whole file. */
  function DeletionHunk(texts: seq<Text>): Hunk { Hunk(1, |texts|, 0, 0, Removals(texts)) }

  function Backwards(texts: seq<Text>): (r: seq<Text>)
    ensures |r| == |texts|
  {
    if texts == [] then [] else Backwards(texts[1..]) + [texts[0]]
  }

  /** A list ends in these texts backwards. */
  predicate EndsBackwards(lines: seq<Text>, texts: seq<Text>) {
    |texts| <= |lines| && lines[|lines| - |texts|..] == Backwards(texts)
  }

  lemma EndsNext(lines: seq<Text>, texts: seq<Text>)
    requires texts != [] && lines != []
    ensures EndsBackwards(lines, texts) <==>
      lines[|lines| - 1] == texts[0] && EndsBackwards(lines[..|lines| - 1], texts[1..])
  {
    var n, rest := |lines|, texts[1..];
    if |texts| <= n {
      assert lines[n - |texts|..] == lines[..n - 1][n - |texts|..] + [lines[n - 1]];
      assert Backwards(texts)[..|rest|] == Backwards(rest);
    }
  }

  /** One removal at the end of the file. */
  lemma RemovalStep(lines: seq<Text>, texts: seq<Text>)
    requires texts != []
    ensures lines == [] ==> Run(lines, -1, Removals(texts)).error.Some?
    ensures lines != [] ==>
      (Run(lines, -1, Removals(texts)).error == None <==>
        lines[|lines| - 1] == texts[0] && Run(lines[..|lines| - 1], -1, Removals(texts[1..])).error == None)
  {
    assert Removals(texts)[0] == Line(Removed, texts[0]) && Removals(texts)[1..] == Removals(texts[1..]);
    RemovalTaken(lines, texts[0]);
  }

  lemma RemovalTaken(lines: seq<Text>, text: Text)
    ensures Take(lines, -1, Line(Removed, text)) ==
              if lines == [] then Fail(OutOfRange)
              else if lines[|lines| - 1] != text then Fail(Mismatch)
              else Next(lines[..|lines| - 1], -1)
  {
    if lines != [] {
      assert lines[..|lines| - 1] + lines[|lines| - 1 + 1..] == lines[..|lines| - 1];
    }
  }

  /** A deletion's target start of zero puts the cursor on the last line, so what it
      needs is that the file ends in the deleted lines backwards. */
  lemma {:induction false} DeletionExactly(lines: seq<Text>, texts: seq<Text>)
    ensures Run(lines, -1, Removals(texts)).error == None <==> EndsBackwards(lines, texts)
    decreases texts
  {
    if texts != [] {
      RemovalStep(lines, texts);
      if lines != [] {
        EndsNext(lines, texts);
        DeletionExactly(lines[..|lines| - 1], texts[1..]);
      }
    }
  }

  /** So the deletion of any newline-terminated file, which ends in an empty element,
      is rejected unless its first line is blank. */
  lemma TerminatedDeletionRejected(texts: seq<Text>)
    requires texts != [] && texts[0] != ""
    ensures IsValid(DeletionHunk(texts))
    ensures Apply(texts + [""], [DeletionHunk(texts)]).error.Some?
  {
    var lines := texts + [""];
    DeletionExactly(lines, texts);
    assert |texts| + 1 == |lines| && lines[|lines| - 1] == "";
  }

  /** A two-line file deletes only when its lines come backwards. */
  lemma DeletionOfTwoLines()
    ensures Apply(["a", "b"], [DeletionHunk(["a", "b"])]).error.Some?
    ensures Apply(["b", "a"], [DeletionHunk(["a", "b"])]).error == None
  {
    assert Backwards(["a", "b"]) == ["b", "a"];
    DeletionExactly(["a", "b"], ["a", "b"]);
    DeletionExactly(["b", "a"], ["a", "b"]);
    assert ["b", "a"][0..] == ["b", "a"];
  }
}
