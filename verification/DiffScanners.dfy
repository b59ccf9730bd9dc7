/**
 * Two independently written scanners of unified diffs. The strict one ends a hunk at
 * the next header and compares its line counts afterwards; the counting one consumes
 * exactly the declared counts. The regular expression of a hunk header and the
 * normalisation of a path are parameters of both.
 */
module DiffScanners {
  import opened Wrappers

  type Line = string

  datatype Counts = Counts(minus: nat, plus: nat)

  /** The parts both scanners share: the counts a hunk header declares, if it is one,
      and the safe form of a path, if it has one. */
  datatype Grammar = Grammar(hunkHeader: Line -> Option<Counts>, safePath: string -> Option<string>)

  predicate StartsWith(line: Line, prefix: string) { |prefix| <= |line| && line[..|prefix|] == prefix }

  const MARKER := "\\ No newline at end of file"

  predicate Forbidden(line: Line) {
    || StartsWith(line, "rename from ") || StartsWith(line, "rename to ")
    || StartsWith(line, "copy from ") || StartsWith(line, "copy to ")
    || StartsWith(line, "similarity index ")
  }

  /** The text of a file header up to the first tab. */
  function RawPath(line: Line): string
    requires |line| >= 4
  {
    UpToTab(line[4..])
  }

  function UpToTab(s: string): string {
    if s == "" || s[0] == '\t' then "" else [s[0]] + UpToTab(s[1..])
  }

  /** A header path: /dev/null, a repository path, or one that is refused. */
  datatype HeaderPath = DevNull | At(path: string) | Unsafe

  /** diff_header_path. */
  function PathOf(g: Grammar, line: Line): HeaderPath
    requires |line| >= 4
  {
    var value := RawPath(line);
    if value == "/dev/null" then DevNull
    else
      var inner := if StartsWith(value, "a/") || StartsWith(value, "b/") then value[2..] else value;
      match g.safePath(inner)
      case Some(path) => At(path)
      case None => Unsafe
  }

  predicate Quoted(line: Line)
    requires |line| >= 4
  {
    '"' in RawPath(line)
  }

  /** A file header pair: the raw lines and the paths they give. */
  datatype Pair = Pair(minusLine: Line, plusLine: Line, minus: HeaderPath, plus: HeaderPath)

  predicate IsHeader(lines: seq<Line>, i: nat) {
    i + 1 < |lines| && StartsWith(lines[i], "--- ") && StartsWith(lines[i + 1], "+++ ")
  }

  function PairAt(g: Grammar, lines: seq<Line>, i: nat): Pair
    requires IsHeader(lines, i)
  {
    Pair(lines[i], lines[i + 1], PathOf(g, lines[i]), PathOf(g, lines[i + 1]))
  }

  // ---------- the strict scanner ----------

  datatype Body = Body(end: nat, minus: nat, plus: nat)

  predicate EndsBody(lines: seq<Line>, i: nat) {
    i >= |lines| || StartsWith(lines[i], "@@ ") || StartsWith(lines[i], "--- ")
  }

  predicate IsOld(line: Line) { StartsWith(line, "-") && !StartsWith(line, "---") }

  predicate IsNew(line: Line) { StartsWith(line, "+") && !StartsWith(line, "+++") }

  /** The body from line `i`: where it ends and how many lines of each side it has. */
  function StrictBody(lines: seq<Line>, i: nat): (r: Option<Body>)
    ensures r.Some? ==> i <= r.value.end && (i <= |lines| ==> r.value.end <= |lines|) && EndsBody(lines, r.value.end)
    decreases |lines| - i
  {
    if EndsBody(lines, i) then Some(Body(i, 0, 0))
    else
      var rest := StrictBody(lines, i + 1);
      if lines[i] == MARKER then rest
      else if StartsWith(lines[i], " ") then
        if rest == None then None else Some(Body(rest.value.end, rest.value.minus + 1, rest.value.plus + 1))
      else if IsOld(lines[i]) then
        if rest == None then None else Some(Body(rest.value.end, rest.value.minus + 1, rest.value.plus))
      else if IsNew(lines[i]) then
        if rest == None then None else Some(Body(rest.value.end, rest.value.minus, rest.value.plus + 1))
      else None
  }

  /** The pairs found from line `i` on, where every pair but the last of `pairs` has a
      hunk and the last has one if `hunked`. */
  function Strict(g: Grammar, lines: seq<Line>, i: nat, pairs: seq<Pair>, allHunked: bool,
                  hunked: bool): Option<seq<Pair>>
    requires i <= |lines|
    decreases |lines| - i
  {
    if i == |lines| then
      if pairs != [] && allHunked && hunked then Some(pairs) else None
    else if StartsWith(lines[i], "--- ") then
      if !IsHeader(lines, i) then None
      else
        var pair := PairAt(g, lines, i);
        if pair.minus.Unsafe? || pair.plus.Unsafe? || (pair.minus.DevNull? && pair.plus.DevNull?) then None
        else Strict(g, lines, i + 2, pairs + [pair], allHunked && (pairs == [] || hunked), false)
    else if StartsWith(lines[i], "@@ ") then
      if pairs == [] then None
      else
        match g.hunkHeader(lines[i])
        case None => None
        case Some(counts) =>
          var body := StrictBody(lines, i + 1);
          if body == None || body.value.minus != counts.minus || body.value.plus != counts.plus then None
          else Strict(g, lines, body.value.end, pairs, allHunked, true)
    else if StartsWith(lines[i], "+") || StartsWith(lines[i], "-") || StartsWith(lines[i], " ") then None
    else Strict(g, lines, i + 1, pairs, allHunked, hunked)
  }

  /** validate_unified_diff_syntax: the file pairs, or `None` for a contract error. */
  function StrictPairs(g: Grammar, lines: seq<Line>): Option<seq<Pair>> {
    Strict(g, lines, 0, [], true, false)
  }

  // ---------- the counting scanner ----------

  function SkipMarkers(lines: seq<Line>, i: nat): (r: nat)
    ensures i <= r && (i <= |lines| ==> r <= |lines|)
    decreases |lines| - i
  {
    if i < |lines| && lines[i] == MARKER then SkipMarkers(lines, i + 1) else i
  }

  /** Where the body ends that still has `minus` and `plus` lines to come. */
  function CountedBody(lines: seq<Line>, i: nat, minus: nat, plus: nat): (r: Option<nat>)
    ensures r.Some? && i <= |lines| ==> i <= r.value <= |lines|
    decreases |lines| - i
  {
    if minus == 0 && plus == 0 then Some(SkipMarkers(lines, i))
    else if i >= |lines| then None
    else if lines[i] == MARKER then CountedBody(lines, i + 1, minus, plus)
    else if StartsWith(lines[i], " ") then
      if minus == 0 || plus == 0 then None else CountedBody(lines, i + 1, minus - 1, plus - 1)
    else if StartsWith(lines[i], "-") then
      if minus == 0 then None else CountedBody(lines, i + 1, minus - 1, plus)
    else if StartsWith(lines[i], "+") then
      if plus == 0 then None else CountedBody(lines, i + 1, minus, plus - 1)
    else None
  }

  datatype Operations = Operations(deletions: seq<string>, creations: seq<string>)

  function AddPair(ops: Operations, pair: Pair): Operations {
    if pair.minus.At? && pair.plus.DevNull? then ops.(deletions := ops.deletions + [pair.minus.path])
    else if pair.minus.DevNull? && pair.plus.At? then ops.(creations := ops.creations + [pair.plus.path])
    else ops
  }

  function Counting(g: Grammar, lines: seq<Line>, i: nat, inFile: bool, ops: Operations): Option<Operations>
    requires i <= |lines|
    decreases |lines| - i
  {
    if i == |lines| then Some(ops)
    else if Forbidden(lines[i]) then None
    else if StartsWith(lines[i], "@@ ") then
      if !inFile then None
      else
        match g.hunkHeader(lines[i])
        case None => None
        case Some(counts) =>
          var end := CountedBody(lines, i + 1, counts.minus, counts.plus);
          if end == None then None else Counting(g, lines, end.value, inFile, ops)
    else if !StartsWith(lines[i], "--- ") then Counting(g, lines, i + 1, inFile, ops)
    else if !IsHeader(lines, i) then None
    else if Quoted(lines[i]) || Quoted(lines[i + 1]) then None
    else
      var pair := PairAt(g, lines, i);
      if pair.minus.Unsafe? || pair.plus.Unsafe? then None
      else if pair.minus.At? && pair.plus.At? && pair.minus != pair.plus then None
      else Counting(g, lines, i + 2, true, AddPair(ops, pair))
  }

  /** scan_common_patch_path_operations. */
  function CountedOperations(g: Grammar, lines: seq<Line>): Option<Operations> {
    Counting(g, lines, 0, false, Operations([], []))
  }

  // ---------- the scanners agree ----------

  /** What only the counting scanner refuses in a pair: quotes, and a change of path. */
  predicate PortablePair(p: Pair) {
    && |p.minusLine| >= 4 && |p.plusLine| >= 4 && !Quoted(p.minusLine) && !Quoted(p.plusLine)
    && !(p.minus.At? && p.plus.At? && p.minus != p.plus)
  }

  predicate NoneForbidden(lines: seq<Line>, i: nat)
    decreases |lines| - i
  {
    i >= |lines| || (!Forbidden(lines[i]) && NoneForbidden(lines, i + 1))
  }

  /** The deletions and creations among some pairs, added in order. */
  function AddPairs(ops: Operations, pairs: seq<Pair>): Operations
    decreases |pairs|
  {
    if pairs == [] then ops else AddPairs(AddPair(ops, pairs[0]), pairs[1..])
  }

  function Deletions(pairs: seq<Pair>): seq<string> {
    if pairs == [] then []
    else if pairs[0].minus.At? && pairs[0].plus.DevNull? then [pairs[0].minus.path] + Deletions(pairs[1..])
    else Deletions(pairs[1..])
  }

  function Creations(pairs: seq<Pair>): seq<string> {
    if pairs == [] then []
    else if pairs[0].minus.DevNull? && pairs[0].plus.At? then [pairs[0].plus.path] + Creations(pairs[1..])
    else Creations(pairs[1..])
  }

  lemma {:induction false} AddPairsSplits(ops: Operations, pairs: seq<Pair>)
    ensures AddPairs(ops, pairs).deletions == ops.deletions + Deletions(pairs)
    ensures AddPairs(ops, pairs).creations == ops.creations + Creations(pairs)
    decreases |pairs|
  {
    if pairs != [] {
      var p, rest := pairs[0], pairs[1..];
      AddPairsSplits(AddPair(ops, p), rest);
      if p.minus.At? && p.plus.DevNull? {
        assert (ops.deletions + [p.minus.path]) + Deletions(rest) == ops.deletions + Deletions(pairs);
      } else if p.minus.DevNull? && p.plus.At? {
        assert (ops.creations + [p.plus.path]) + Creations(rest) == ops.creations + Creations(pairs);
      }
    }
  }

  /** A body line is never metadata: their first characters differ. */
  lemma BodyLineNotForbidden(line: Line)
    requires line == MARKER || StartsWith(line, " ") || StartsWith(line, "-") || StartsWith(line, "+")
               || StartsWith(line, "@@ ")
    ensures !Forbidden(line)
  {
    assert line[0] in {'\\', ' ', '-', '+', '@'};
  }

  lemma HeaderIsNoMarker(line: Line)
    requires StartsWith(line, "@@ ") || StartsWith(line, "--- ")
    ensures line != MARKER
  {
    assert line[0] in {'-', '@'};
    assert MARKER[0] == '\\';
  }

  /** A line of context, an old one, a new one, or the marker of a missing newline. */
  predicate IsBodyLine(line: Line) { line == MARKER || StartsWith(line, " ") || IsOld(line) || IsNew(line) }

  lemma BodyLineShape(line: Line)
    requires IsBodyLine(line)
    ensures !StartsWith(line, "@@ ") && !StartsWith(line, "--- ") && |line| > 0
    ensures line == MARKER ==> !StartsWith(line, " ") && !StartsWith(line, "-") && !StartsWith(line, "+")
    ensures StartsWith(line, " ") ==> !StartsWith(line, "-") && !StartsWith(line, "+")
    ensures StartsWith(line, "-") ==> !StartsWith(line, "+") && (line == MARKER || IsOld(line))
    ensures StartsWith(line, "+") ==> line == MARKER || IsNew(line)
  {
    assert MARKER[0] == '\\';
    if |line| >= 4 { assert line[..3] == line[..4][..3]; }
    assert line[0] in {'\\', ' ', '-', '+'};
  }

  /** Both hunk rules end a strictly accepted body at the same line, and nothing inside
      it reads as metadata. */
  lemma {:induction false} BodiesAgree(lines: seq<Line>, i: nat)
    requires i <= |lines| && StrictBody(lines, i).Some?
    ensures var b := StrictBody(lines, i).value;
      && CountedBody(lines, i, b.minus, b.plus) == Some(b.end)
      && NoneForbidden(lines, i) == NoneForbidden(lines, b.end)
    decreases |lines| - i
  {
    if EndsBody(lines, i) {
      if i < |lines| { HeaderIsNoMarker(lines[i]); }
    } else {
      BodiesAgree(lines, i + 1);
      BodyLineNotForbidden(lines[i]);
      BodyLineShape(lines[i]);
    }
  }

  predicate AllPortable(pairs: seq<Pair>)
    decreases |pairs|
  {
    pairs == [] || (PortablePair(pairs[0]) && AllPortable(pairs[1..]))
  }

  /** What the counting scanner should make of the rest of a file in which the strict
      scanner still finds `coming` pairs. */
  function Expected(lines: seq<Line>, i: nat, coming: seq<Pair>, ops: Operations): Option<Operations> {
    if NoneForbidden(lines, i) && AllPortable(coming) then Some(AddPairs(ops, coming)) else None
  }

  lemma {:induction false} ScansAgree(g: Grammar, lines: seq<Line>, i: nat, found: seq<Pair>,
                                      allHunked: bool, hunked: bool, all: seq<Pair>, ops: Operations)
    requires i <= |lines| && Strict(g, lines, i, found, allHunked, hunked) == Some(all)
    ensures found <= all && Counting(g, lines, i, found != [], ops) == Expected(lines, i, all[|found|..], ops)
    decreases |lines| - i
  {
    if i == |lines| {
    } else if StartsWith(lines[i], "--- ") {
      var pair := PairAt(g, lines, i);
      ScansAgree(g, lines, i + 2, found + [pair], allHunked && (found == [] || hunked), false, all, AddPair(ops, pair));
      var rest := all[|found + [pair]|..];
      assert all[|found|] == (found + [pair])[|found|] == pair;
      assert all[|found|..] == [pair] + rest;
      HeaderAgrees(g, lines, i, found != [], rest, ops);
    } else if StartsWith(lines[i], "@@ ") {
      HunkAgrees(g, lines, i, found, allHunked, hunked, all, ops);
    } else {
      ScansAgree(g, lines, i + 1, found, allHunked, hunked, all, ops);
    }
  }

  lemma HunkAgrees(g: Grammar, lines: seq<Line>, i: nat, found: seq<Pair>, allHunked: bool, hunked: bool,
                                      all: seq<Pair>, ops: Operations)
    requires i < |lines| && StartsWith(lines[i], "@@ ") && !StartsWith(lines[i], "--- ")
    requires Strict(g, lines, i, found, allHunked, hunked) == Some(all)
    ensures found <= all && Counting(g, lines, i, found != [], ops) == Expected(lines, i, all[|found|..], ops)
    decreases |lines| - i, 0
  {
    BodiesAgree(lines, i + 1);
    BodyLineNotForbidden(lines[i]);
    ScansAgree(g, lines, StrictBody(lines, i + 1).value.end, found, allHunked, true, all, ops);
  }

  lemma HeaderAgrees(g: Grammar, lines: seq<Line>, i: nat, inFile: bool, rest: seq<Pair>, ops: Operations)
    requires IsHeader(lines, i)
    requires var pair := PairAt(g, lines, i);
      && !pair.minus.Unsafe? && !pair.plus.Unsafe?
      && Counting(g, lines, i + 2, true, AddPair(ops, pair)) == Expected(lines, i + 2, rest, AddPair(ops, pair))
    ensures Counting(g, lines, i, inFile, ops) == Expected(lines, i, [PairAt(g, lines, i)] + rest, ops)
  {
    var pair := PairAt(g, lines, i);
    HeaderLines(lines, i);
    assert ([pair] + rest)[1..] == rest;
    assert NoneForbidden(lines, i + 1) == NoneForbidden(lines, i + 2);
  }

  lemma HeaderLines(lines: seq<Line>, i: nat)
    requires IsHeader(lines, i)
    ensures !Forbidden(lines[i]) && !Forbidden(lines[i + 1]) && !StartsWith(lines[i], "@@ ")
  {
    assert lines[i][0] == '-' && lines[i + 1][0] == '+';
  }

  /** The agreement: on every file the strict scanner accepts, the counting scanner
      accepts exactly if no line is Git metadata and no pair has quotes or changes its
      path, and then it reports exactly the pairs against /dev/null, in order. */
  lemma ScannersAgree(g: Grammar, lines: seq<Line>)
    requires StrictPairs(g, lines).Some?
    ensures var pairs := StrictPairs(g, lines).value;
      CountedOperations(g, lines) ==
        if NoneForbidden(lines, 0) && AllPortable(pairs) then Some(Operations(Deletions(pairs), Creations(pairs)))
        else None
  {
    var pairs := StrictPairs(g, lines).value;
    ScansAgree(g, lines, 0, [], true, false, pairs, Operations([], []));
    AddPairsSplits(Operations([], []), pairs);
    assert pairs[0..] == pairs && [] + Deletions(pairs) == Deletions(pairs)
           && [] + Creations(pairs) == Creations(pairs);
  }

  // ---------- the scanners as loops ----------

  /** The hunk body loop of the strict scanner. */
  method ScanStrictBody(lines: seq<Line>, start: nat) returns (body: Option<Body>)
    requires start <= |lines|
    ensures body == StrictBody(lines, start)
  {
    var index, minus, plus := start, 0, 0;
    while index < |lines| && !StartsWith(lines[index], "@@ ") && !StartsWith(lines[index], "--- ")
      invariant start <= index <= |lines|
      invariant StrictBody(lines, start) ==
        (match StrictBody(lines, index)
         case None => None
         case Some(b) => Some(Body(b.end, minus + b.minus, plus + b.plus)))
    {
      var line := lines[index];
      if line == MARKER {
      } else if StartsWith(line, " ") {
        minus, plus := minus + 1, plus + 1;
      } else if StartsWith(line, "-") && !StartsWith(line, "---") {
        minus := minus + 1;
      } else if StartsWith(line, "+") && !StartsWith(line, "+++") {
        plus := plus + 1;
      } else {
        return None;
      }
      index := index + 1;
    }
    return Some(Body(index, minus, plus));
  }

  /** validate_unified_diff_syntax. */
  method ValidateSyntax(g: Grammar, lines: seq<Line>) returns (result: Option<seq<Pair>>)
    ensures result == StrictPairs(g, lines)
  {
    var pairs: seq<Pair>, hunks: seq<nat> := [], [];
    var index := 0;
    while index < |lines|
      invariant index <= |lines| && |hunks| == |pairs|
      invariant Strict(g, lines, index, pairs, AllButLastHunked(hunks), LastHunked(hunks)) == StrictPairs(g, lines)
      decreases |lines| - index
    {
      var line := lines[index];
      if StartsWith(line, "--- ") {
        if index + 1 >= |lines| || !StartsWith(lines[index + 1], "+++ ") { return None; }
        var pair := PairAt(g, lines, index);
        if pair.minus.Unsafe? || pair.plus.Unsafe? || (pair.minus.DevNull? && pair.plus.DevNull?) { return None; }
        NewFileHunks(hunks);
        pairs, hunks := pairs + [pair], hunks + [0];
        index := index + 2;
      } else if StartsWith(line, "@@ ") {
        if pairs == [] { return None; }
        var declared := g.hunkHeader(line);
        if declared == None { return None; }
        var body := ScanStrictBody(lines, index + 1);
        if body == None || body.value.minus != declared.value.minus || body.value.plus != declared.value.plus {
          return None;
        }
        NewHunk(hunks);
        hunks := hunks[|hunks| - 1 := hunks[|hunks| - 1] + 1];
        index := body.value.end;
      } else if StartsWith(line, "+") || StartsWith(line, "-") || StartsWith(line, " ") {
        return None;
      } else {
        index := index + 1;
      }
    }
    if pairs == [] || exists k :: 0 <= k < |hunks| && hunks[k] == 0 { return None; }
    return Some(pairs);
  }

  predicate AllButLastHunked(hunks: seq<nat>) { forall k :: 0 <= k < |hunks| - 1 ==> hunks[k] > 0 }

  predicate LastHunked(hunks: seq<nat>) { hunks != [] && hunks[|hunks| - 1] > 0 }

  lemma NewFileHunks(hunks: seq<nat>)
    ensures AllButLastHunked(hunks + [0]) == (AllButLastHunked(hunks) && (hunks == [] || LastHunked(hunks)))
    ensures !LastHunked(hunks + [0])
  {
    var more := hunks + [0];
    if AllButLastHunked(more) {
      forall k | 0 <= k < |hunks| ensures hunks[k] > 0 { assert more[k] > 0; }
    }
  }

  lemma NewHunk(hunks: seq<nat>)
    requires hunks != []
    ensures var more := hunks[|hunks| - 1 := hunks[|hunks| - 1] + 1];
      AllButLastHunked(more) == AllButLastHunked(hunks) && LastHunked(more)
  {
    var more := hunks[|hunks| - 1 := hunks[|hunks| - 1] + 1];
    assert forall k :: 0 <= k < |hunks| - 1 ==> more[k] == hunks[k];
  }

  /** The hunk body loop of the counting scanner. */
  method ScanCountedBody(lines: seq<Line>, start: nat, counts: Counts) returns (end: Option<nat>)
    requires start <= |lines|
    ensures end == CountedBody(lines, start, counts.minus, counts.plus)
  {
    var index, minus: int, plus: int := start, counts.minus, counts.plus;
    while minus != 0 || plus != 0
      invariant start <= index <= |lines| && minus >= 0 && plus >= 0
      invariant CountedBody(lines, index, minus, plus) == CountedBody(lines, start, counts.minus, counts.plus)
      decreases |lines| - index
    {
      if index >= |lines| { return None; }
      var line := lines[index];
      if line != MARKER {
        if StartsWith(line, " ") {
          minus, plus := minus - 1, plus - 1;
        } else if StartsWith(line, "-") {
          minus := minus - 1;
        } else if StartsWith(line, "+") {
          plus := plus - 1;
        } else {
          return None;
        }
        if minus < 0 || plus < 0 { return None; }
      }
      index := index + 1;
    }
    while index < |lines| && lines[index] == MARKER
      invariant start <= index <= |lines|
      invariant Some(SkipMarkers(lines, index)) == CountedBody(lines, start, counts.minus, counts.plus)
    {
      index := index + 1;
    }
    return Some(index);
  }

  /** scan_common_patch_path_operations. */
  method ScanOperations(g: Grammar, lines: seq<Line>) returns (result: Option<Operations>)
    ensures result == CountedOperations(g, lines)
  {
    var ops := Operations([], []);
    var inFile := false;
    var index := 0;
    while index < |lines|
      invariant index <= |lines|
      invariant Counting(g, lines, index, inFile, ops) == CountedOperations(g, lines)
      decreases |lines| - index
    {
      var line := lines[index];
      if Forbidden(line) { return None; }
      if StartsWith(line, "@@ ") {
        if !inFile { return None; }
        var declared := g.hunkHeader(line);
        if declared == None { return None; }
        var end := ScanCountedBody(lines, index + 1, declared.value);
        if end == None { return None; }
        index := end.value;
      } else if !StartsWith(line, "--- ") {
        index := index + 1;
      } else {
        if index + 1 >= |lines| || !StartsWith(lines[index + 1], "+++ ") { return None; }
        if Quoted(line) || Quoted(lines[index + 1]) { return None; }
        var pair := PairAt(g, lines, index);
        if pair.minus.Unsafe? || pair.plus.Unsafe? { return None; }
        if pair.minus.At? && pair.plus.At? && pair.minus != pair.plus { return None; }
        ops := AddPair(ops, pair);
        inFile := true;
        index := index + 2;
      }
    }
    return Some(ops);
  }
}
