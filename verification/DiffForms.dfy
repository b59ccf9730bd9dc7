/**
 * Exactly which diffs the strict scanner accepts, what their headers name, and what the
 * counting scanner makes of changes in the form that Git writes.
 */
module DiffForms {
  import opened Wrappers
  import opened DiffScanners

  // ---------- the paths that headers name ----------

  /** A header line: its mark, what it names, and perhaps a tab and a timestamp. */
  function HeaderLine(mark: string, name: string, stamp: Option<string>): Line {
    mark + name + (if stamp.Some? then "\t" + stamp.value else "")
  }

  lemma {:induction false} NameBeforeTab(name: string, stamp: Option<string>)
    requires '\t' !in name
    ensures UpToTab(name + (if stamp.Some? then "\t" + stamp.value else "")) == name
  {
    var tail := if stamp.Some? then "\t" + stamp.value else "";
    if name != "" {
      NameBeforeTab(name[1..], stamp);
      assert (name + tail)[1..] == name[1..] + tail;
      assert [name[0]] + name[1..] == name;
    } else {
      assert name + tail == tail;
    }
  }

  lemma HeaderNames(mark: string, name: string, stamp: Option<string>)
    requires |mark| == 4 && '\t' !in name
    ensures RawPath(HeaderLine(mark, name, stamp)) == name && StartsWith(HeaderLine(mark, name, stamp), mark)
  {
    NameBeforeTab(name, stamp);
    assert HeaderLine(mark, name, stamp)[4..] == name + (if stamp.Some? then "\t" + stamp.value else "");
  }

  /** On either side a path is named alike with the prefix a/, with b/, and without one,
      and a timestamp changes nothing: it leads to its safe form, or is refused if it has
      none. /dev/null stands for no file. */
  lemma HeaderPaths(g: Grammar, mark: string, p: string, stamp: Option<string>)
    requires |mark| == 4 && '\t' !in p
    ensures var expected := if g.safePath(p).Some? then At(g.safePath(p).value) else Unsafe;
      && PathOf(g, HeaderLine(mark, "a/" + p, stamp)) == expected
      && PathOf(g, HeaderLine(mark, "b/" + p, stamp)) == expected
      && (p != "/dev/null" && !StartsWith(p, "a/") && !StartsWith(p, "b/") ==>
            PathOf(g, HeaderLine(mark, p, stamp)) == expected)
    ensures PathOf(g, HeaderLine(mark, "/dev/null", stamp)) == DevNull
  {
    HeaderNames(mark, "a/" + p, stamp);
    HeaderNames(mark, "b/" + p, stamp);
    HeaderNames(mark, p, stamp);
    HeaderNames(mark, "/dev/null", stamp);
    assert ("a/" + p)[..2] == "a/" && ("b/" + p)[..2] == "b/";
    assert ("a/" + p)[2..] == p && ("b/" + p)[2..] == p;
    assert ("a/" + p)[0] == 'a' && ("b/" + p)[0] == 'b' && "/dev/null"[0] == '/';
  }

  // ---------- whole diffs that are accepted ----------

  datatype HunkText = HunkText(header: Line, body: seq<Line>)
  datatype FileText = FileText(minusLine: Line, plusLine: Line, between: seq<Line>, hunks: seq<HunkText>)

  function HunkLines(hunks: seq<HunkText>): seq<Line> {
    if hunks == [] then [] else [hunks[0].header] + hunks[0].body + HunkLines(hunks[1..])
  }

  /** The pair of headers, and lines that say nothing in front of the first hunk. */
  function FileHead(f: FileText): seq<Line> { [f.minusLine, f.plusLine] + f.between }

  function DiffLines(files: seq<FileText>): seq<Line> {
    if files == [] then []
    else FileHead(files[0]) + HunkLines(files[0].hunks) + DiffLines(files[1..])
  }

  /** How many lines of the old file, and of the new one, a hunk body shows. */
  function OldLines(body: seq<Line>): nat {
    if body == [] then 0
    else (if StartsWith(body[0], " ") || StartsWith(body[0], "-") then 1 else 0) + OldLines(body[1..])
  }

  function NewLines(body: seq<Line>): nat {
    if body == [] then 0
    else (if StartsWith(body[0], " ") || StartsWith(body[0], "+") then 1 else 0) + NewLines(body[1..])
  }

  predicate ExactHunk(g: Grammar, h: HunkText) {
    && StartsWith(h.header, "@@ ") && (forall line :: line in h.body ==> IsBodyLine(line))
    && g.hunkHeader(h.header) == Some(Counts(OldLines(h.body), NewLines(h.body)))
  }

  /** A pair of headers that name safe paths, not both /dev/null, and at least one hunk;
      all hunks count their lines exactly. */
  predicate ExactFile(g: Grammar, f: FileText) {
    && StartsWith(f.minusLine, "--- ") && StartsWith(f.plusLine, "+++ ")
    && !PathOf(g, f.minusLine).Unsafe? && !PathOf(g, f.plusLine).Unsafe?
    && !(PathOf(g, f.minusLine).DevNull? && PathOf(g, f.plusLine).DevNull?)
    && (forall line :: line in f.between ==> IsPreamble(line))
    && f.hunks != [] && forall h :: h in f.hunks ==> ExactHunk(g, h)
  }

  function PairsOf(g: Grammar, files: seq<FileText>): seq<Pair>
    requires forall f :: f in files ==> ExactFile(g, f)
  {
    if files == [] then []
    else
      assert files[0] in files && ExactFile(g, files[0]);
      [Pair(files[0].minusLine, files[0].plusLine, PathOf(g, files[0].minusLine), PathOf(g, files[0].plusLine))]
      + PairsOf(g, files[1..])
  }

  /** A line outside of hunks and headers, as Git writes some before the first file. */
  predicate IsPreamble(line: Line) {
    !StartsWith(line, "--- ") && !StartsWith(line, "@@ ")
    && !StartsWith(line, "+") && !StartsWith(line, "-") && !StartsWith(line, " ")
  }

  /** The first line of a file or of a hunk, if there is one. */
  predicate EndsHere(rest: seq<Line>) { rest == [] || StartsWith(rest[0], "@@ ") || StartsWith(rest[0], "--- ") }

  lemma RestEndsHere(g: Grammar, hunks: seq<HunkText>, files: seq<FileText>)
    requires forall h :: h in hunks ==> ExactHunk(g, h)
    requires forall f :: f in files ==> ExactFile(g, f)
    ensures EndsHere(HunkLines(hunks) + DiffLines(files))
  {
    if hunks != [] {
      assert hunks[0] in hunks;
    } else if files != [] {
      assert files[0] in files;
      assert HunkLines(hunks) + DiffLines(files) == DiffLines(files);
    }
  }

  lemma {:induction false} BodyIsScanned(lines: seq<Line>, i: nat, body: seq<Line>, rest: seq<Line>)
    requires i <= |lines| && lines[i..] == body + rest && EndsHere(rest)
    requires forall line :: line in body ==> IsBodyLine(line)
    ensures StrictBody(lines, i) == Some(Body(i + |body|, OldLines(body), NewLines(body)))
    decreases |body|
  {
    if body == [] {
      assert rest != [] ==> lines[i] == rest[0];
    } else {
      assert lines[i] == (body + rest)[0] == body[0] && body[0] in body;
      assert lines[i + 1..] == body[1..] + rest;
      BodyIsScanned(lines, i + 1, body[1..], rest);
      BodyLineShape(body[0]);
    }
  }

  lemma FileStart(lines: seq<Line>, i: nat, files: seq<FileText>)
    requires i <= |lines| && lines[i..] == DiffLines(files) && files != []
    ensures var f, start := files[0], i + 2 + |files[0].between|;
      && start <= |lines| && lines[i] == f.minusLine && lines[i + 1] == f.plusLine
      && (forall k :: i + 2 <= k < start ==> lines[k] in f.between)
      && lines[start..] == HunkLines(f.hunks) + DiffLines(files[1..])
    ensures forall f :: f in files[1..] ==> f in files
  {
    var header := FileHead(files[0]);
    var hunks, rest := HunkLines(files[0].hunks), DiffLines(files[1..]);
    Regroup(header, hunks, rest);
    Behind(lines, i, header, hunks + rest);
    assert lines[i] == header[0] && lines[i + 1] == header[1];
    forall k | i + 2 <= k < i + |header| ensures lines[k] in files[0].between {
      assert lines[i + (k - i)] == header[k - i] == files[0].between[k - i - 2];
    }
  }

  lemma HunkStart(lines: seq<Line>, i: nat, hunks: seq<HunkText>, tail: seq<Line>)
    requires i <= |lines| && lines[i..] == HunkLines(hunks) + tail && hunks != []
    ensures var h, rest := hunks[0], HunkLines(hunks[1..]) + tail;
      && i + 1 + |h.body| <= |lines| && lines[i] == h.header
      && lines[i + 1..] == h.body + rest && lines[i + 1 + |h.body|..] == rest
    ensures forall h :: h in hunks[1..] ==> h in hunks
  {
    var h, more := hunks[0], HunkLines(hunks[1..]);
    Peel(lines, i, h.header, h.body, more, tail);
  }

  lemma Peel<T>(s: seq<T>, i: nat, x: T, a: seq<T>, b: seq<T>, c: seq<T>)
    requires i <= |s| && s[i..] == (([x] + a) + b) + c
    ensures i + 1 + |a| <= |s| && s[i] == x && s[i + 1..] == a + (b + c) && s[i + 1 + |a|..] == b + c
  {
    Regroup([x] + a, b, c);
    Regroup([x], a, b + c);
    assert s[i] == s[i..][0];
    assert s[i + 1..] == s[i..][1..];
    assert s[i + 1 + |a|..] == s[i + 1..][|a|..];
  }

  lemma Behind<T>(s: seq<T>, i: nat, a: seq<T>, b: seq<T>)
    requires i <= |s| && s[i..] == a + b
    ensures i + |a| <= |s| && s[i + |a|..] == b && forall k :: 0 <= k < |a| ==> s[i + k] == a[k]
  {
    assert forall k :: 0 <= k < |a| ==> s[i + k] == s[i..][k];
    assert s[i + |a|..] == s[i..][|a|..];
  }

  predicate IsCountedLine(line: Line) {
    line == MARKER || (line != "" && (line[0] == ' ' || line[0] == '-' || line[0] == '+'))
  }

  /** The counting scanner takes the lines that were declared, whatever they look like behind
      their first character, and the markers behind them. */
  lemma {:induction false} CountedBodyIsScanned(lines: seq<Line>, i: nat, body: seq<Line>, rest: seq<Line>)
    requires i <= |lines| && lines[i..] == body + rest && (rest == [] || rest[0] != MARKER)
    requires forall line :: line in body ==> IsCountedLine(line)
    ensures CountedBody(lines, i, OldLines(body), NewLines(body)) == Some(i + |body|)
    decreases |body|
  {
    if body == [] {
      assert rest != [] ==> lines[i] == rest[0];
    } else {
      var first, more := body[0], body[1..];
      assert lines[i] == (body + rest)[0] == first && first in body;
      assert lines[i + 1..] == more + rest;
      assert forall line :: line in more ==> line in body;
      FirstCharacter(first);
      CountedBodyIsScanned(lines, i + 1, more, rest);
    }
  }

  lemma FirstCharacter(line: Line)
    requires line != ""
    ensures StartsWith(line, " ") == (line[0] == ' ')
    ensures StartsWith(line, "-") == (line[0] == '-')
    ensures StartsWith(line, "+") == (line[0] == '+')
    ensures line == MARKER ==> line[0] == '\\'
  {
    assert line[..1] == [line[0]];
  }

  /** From inside a file on, the strict scanner finds the pairs of the files to come. */
  lemma {:induction false} FilesAreScanned(g: Grammar, lines: seq<Line>, i: nat, hunks: seq<HunkText>,
                                           files: seq<FileText>, found: seq<Pair>, hunked: bool)
    requires i <= |lines| && lines[i..] == HunkLines(hunks) + DiffLines(files)
    requires forall h :: h in hunks ==> ExactHunk(g, h)
    requires forall f :: f in files ==> ExactFile(g, f)
    requires if found == [] then hunks == [] && files != [] else hunks != [] || hunked
    ensures Strict(g, lines, i, found, true, hunked) == Some(found + PairsOf(g, files))
    decreases |lines| - i
  {
    if hunks != [] {
      HunkIsScanned(g, lines, i, hunks, files, found, hunked);
    } else if files != [] {
      assert HunkLines(hunks) + DiffLines(files) == DiffLines(files);
      HeaderIsScanned(g, lines, i, files, found, hunked);
    } else {
      assert found + PairsOf(g, files) == found;
    }
  }

  lemma HeaderIsScanned(g: Grammar, lines: seq<Line>, i: nat, files: seq<FileText>, found: seq<Pair>, hunked: bool)
    requires i <= |lines| && files != [] && lines[i..] == DiffLines(files)
    requires forall f :: f in files ==> ExactFile(g, f)
    requires found == [] || hunked
    ensures Strict(g, lines, i, found, true, hunked) == Some(found + PairsOf(g, files))
    decreases |lines| - i, 0
  {
    var f, rest := files[0], files[1..];
    assert f in files;
    var pair := Pair(f.minusLine, f.plusLine, PathOf(g, f.minusLine), PathOf(g, f.plusLine));
    FileStart(lines, i, files);
    var start := i + 2 + |f.between|;
    PreambleIsSkipped(g, lines, i + 2, start, found + [pair], false);
    FilesAreScanned(g, lines, start, f.hunks, rest, found + [pair], false);
    Regroup(found, [pair], PairsOf(g, rest));
  }

  lemma Regroup<T>(a: seq<T>, b: seq<T>, c: seq<T>)
    ensures (a + b) + c == a + (b + c)
  {
  }

  lemma HunkIsScanned(g: Grammar, lines: seq<Line>, i: nat, hunks: seq<HunkText>,
                      files: seq<FileText>, found: seq<Pair>, hunked: bool)
    requires i <= |lines| && hunks != [] && lines[i..] == HunkLines(hunks) + DiffLines(files)
    requires forall h :: h in hunks ==> ExactHunk(g, h)
    requires forall f :: f in files ==> ExactFile(g, f)
    requires found != []
    ensures Strict(g, lines, i, found, true, hunked) == Some(found + PairsOf(g, files))
    decreases |lines| - i, 0
  {
    var body := HunkBody(g, lines, i, hunks, files);
    FilesAreScanned(g, lines, body.end, hunks[1..], files, found, true);
    StrictHunk(g, lines, i, found, hunked, body);
  }

  lemma HunkBody(g: Grammar, lines: seq<Line>, i: nat, hunks: seq<HunkText>, files: seq<FileText>)
    returns (body: Body)
    requires i <= |lines| && hunks != [] && lines[i..] == HunkLines(hunks) + DiffLines(files)
    requires forall h :: h in hunks ==> ExactHunk(g, h)
    requires forall f :: f in files ==> ExactFile(g, f)
    ensures i < |lines| && StartsWith(lines[i], "@@ ")
    ensures g.hunkHeader(lines[i]) == Some(Counts(body.minus, body.plus)) && StrictBody(lines, i + 1) == Some(body)
    ensures i < body.end <= |lines| && lines[body.end..] == HunkLines(hunks[1..]) + DiffLines(files)
    ensures forall h :: h in hunks[1..] ==> h in hunks
  {
    var h, rest := hunks[0], HunkLines(hunks[1..]) + DiffLines(files);
    assert h in hunks;
    HunkStart(lines, i, hunks, DiffLines(files));
    RestEndsHere(g, hunks[1..], files);
    BodyIsScanned(lines, i + 1, h.body, rest);
    body := Body(i + 1 + |h.body|, OldLines(h.body), NewLines(h.body));
  }

  lemma StrictHunk(g: Grammar, lines: seq<Line>, i: nat, found: seq<Pair>, hunked: bool, body: Body)
    requires i < |lines| && found != [] && StartsWith(lines[i], "@@ ")
    requires g.hunkHeader(lines[i]) == Some(Counts(body.minus, body.plus))
    requires StrictBody(lines, i + 1) == Some(body)
    ensures Strict(g, lines, i, found, true, hunked) == Strict(g, lines, body.end, found, true, true)
  {
    HunkHeaderShape(lines[i]);
  }

  lemma HunkHeaderShape(line: Line)
    requires StartsWith(line, "@@ ")
    ensures !StartsWith(line, "--- ")
  {
    assert line[0] == '@';
  }

  /** Every diff whose files are exact is accepted, with the pairs of its headers in order;
      in front of the first header, and only there, it may have other lines. */
  lemma {:induction false} ExactDiffAccepted(g: Grammar, lines: seq<Line>, i: nat, files: seq<FileText>)
    requires i <= |lines| && lines[i..] == DiffLines(files) && files != []
    requires forall k :: 0 <= k < i ==> IsPreamble(lines[k])
    requires forall f :: f in files ==> ExactFile(g, f)
    ensures StrictPairs(g, lines) == Some(PairsOf(g, files))
  {
    assert HunkLines([]) + DiffLines(files) == DiffLines(files);
    FilesAreScanned(g, lines, i, [], files, [], false);
    assert [] + PairsOf(g, files) == PairsOf(g, files);
    PreambleIsSkipped(g, lines, 0, i, [], false);
  }

  lemma {:induction false} PreambleIsSkipped(g: Grammar, lines: seq<Line>, k: nat, i: nat, found: seq<Pair>,
                                             hunked: bool)
    requires k <= i <= |lines|
    requires forall j :: k <= j < i ==> IsPreamble(lines[j])
    ensures Strict(g, lines, k, found, true, hunked) == Strict(g, lines, i, found, true, hunked)
    decreases i - k
  {
    if k < i { PreambleIsSkipped(g, lines, k + 1, i, found, hunked); }
  }

  // ---------- and no others ----------

  lemma {:induction false} MissingHunk(g: Grammar, lines: seq<Line>, i: nat, found: seq<Pair>, hunked: bool)
    requires i <= |lines|
    ensures Strict(g, lines, i, found, false, hunked) == None
    decreases |lines| - i
  {
    if i < |lines| {
      if IsHeader(lines, i) {
        MissingHunk(g, lines, i + 2, found + [PairAt(g, lines, i)], false);
      }
      if StrictBody(lines, i + 1).Some? {
        MissingHunk(g, lines, StrictBody(lines, i + 1).value.end, found, true);
      }
      MissingHunk(g, lines, i + 1, found, hunked);
    }
  }

  /** An accepted body consists of body lines, and its counts are theirs. */
  lemma {:induction false} AcceptedBody(lines: seq<Line>, i: nat)
    requires i <= |lines| && StrictBody(lines, i).Some?
    ensures var b := StrictBody(lines, i).value; var body := lines[i..b.end];
      (forall line :: line in body ==> IsBodyLine(line)) && OldLines(body) == b.minus && NewLines(body) == b.plus
    decreases |lines| - i
  {
    var b := StrictBody(lines, i).value;
    if !EndsBody(lines, i) {
      AcceptedBody(lines, i + 1);
      var body, rest := lines[i..b.end], lines[i + 1..b.end];
      assert body == [lines[i]] + rest && body[1..] == rest;
      BodyLineShape(lines[i]);
    } else {
      assert lines[i..b.end] == [];
    }
  }

  /** The rest of an accepted diff: lines that say nothing, then the hunks that the current
      file still has, then whole files. */
  lemma {:induction false} AcceptedRest(g: Grammar, lines: seq<Line>, i: nat, found: seq<Pair>, hunked: bool)
    returns (skipped: seq<Line>, hunks: seq<HunkText>, files: seq<FileText>)
    requires i <= |lines| && Strict(g, lines, i, found, true, hunked).Some?
    requires (found == [] ==> !hunked) && (hunked ==> EndsBody(lines, i))
    ensures lines[i..] == skipped + (HunkLines(hunks) + DiffLines(files))
    ensures forall line :: line in skipped ==> IsPreamble(line)
    ensures forall h :: h in hunks ==> ExactHunk(g, h)
    ensures forall f :: f in files ==> ExactFile(g, f)
    ensures if found == [] then hunks == [] && files != [] else hunks != [] || hunked
    ensures hunked ==> skipped == []
    decreases |lines| - i
  {
    skipped, hunks, files := [], [], [];
    if i == |lines| {
      assert lines[i..] == [];
    } else if StartsWith(lines[i], "--- ") {
      if found != [] && !hunked {
        MissingHunk(g, lines, i + 2, found + [PairAt(g, lines, i)], false);
        assert false;
      }
      files := AcceptedFile(g, lines, i, found);
    } else if StartsWith(lines[i], "@@ ") {
      hunks, files := AcceptedHunk(g, lines, i, found, hunked);
    } else {
      var more;
      more, hunks, files := AcceptedRest(g, lines, i + 1, found, hunked);
      skipped := [lines[i]] + more;
      Regroup([lines[i]], more, HunkLines(hunks) + DiffLines(files));
      assert lines[i..] == [lines[i]] + lines[i + 1..];
    }
  }

  lemma AcceptedFile(g: Grammar, lines: seq<Line>, i: nat, found: seq<Pair>) returns (files: seq<FileText>)
    requires IsHeader(lines, i)
    requires var pair := PairAt(g, lines, i);
      && !pair.minus.Unsafe? && !pair.plus.Unsafe? && !(pair.minus.DevNull? && pair.plus.DevNull?)
      && Strict(g, lines, i + 2, found + [pair], true, false).Some?
    ensures files != [] && lines[i..] == [] + (HunkLines([]) + DiffLines(files))
    ensures forall f :: f in files ==> ExactFile(g, f)
    decreases |lines| - i, 0
  {
    var between, hunks, more := AcceptedRest(g, lines, i + 2, found + [PairAt(g, lines, i)], false);
    var f := FileText(lines[i], lines[i + 1], between, hunks);
    files := [f] + more;
    assert files[1..] == more;
    var head := [lines[i], lines[i + 1]];
    assert lines[i..] == head + lines[i + 2..];
    Regroup(head, between, HunkLines(hunks) + DiffLines(more));
    Regroup(FileHead(f), HunkLines(hunks), DiffLines(more));
    assert [] + (HunkLines([]) + DiffLines(files)) == DiffLines(files);
  }

  lemma AcceptedHunk(g: Grammar, lines: seq<Line>, i: nat, found: seq<Pair>, hunked: bool)
    returns (hunks: seq<HunkText>, files: seq<FileText>)
    requires i < |lines| && StartsWith(lines[i], "@@ ") && !StartsWith(lines[i], "--- ")
    requires Strict(g, lines, i, found, true, hunked).Some?
    ensures hunks != [] && found != [] && lines[i..] == [] + (HunkLines(hunks) + DiffLines(files))
    ensures forall h :: h in hunks ==> ExactHunk(g, h)
    ensures forall f :: f in files ==> ExactFile(g, f)
    decreases |lines| - i, 0
  {
    var body := StrictBody(lines, i + 1).value;
    var skipped, more;
    skipped, more, files := AcceptedRest(g, lines, body.end, found, true);
    AcceptedBody(lines, i + 1);
    var h := HunkText(lines[i], lines[i + 1..body.end]);
    hunks := [h] + more;
    Empty(HunkLines(more) + DiffLines(files));
    HunkInFront(lines, i, body.end, more, DiffLines(files));
    Empty(HunkLines(hunks) + DiffLines(files));
  }

  lemma Empty<T>(s: seq<T>)
    ensures [] + s == s
  {
  }

  lemma HunkInFront(lines: seq<Line>, i: nat, end: nat, more: seq<HunkText>, tail: seq<Line>)
    requires i < end <= |lines| && lines[end..] == HunkLines(more) + tail
    ensures lines[i..] == HunkLines([HunkText(lines[i], lines[i + 1..end])] + more) + tail
  {
    var h := HunkText(lines[i], lines[i + 1..end]);
    assert ([h] + more)[1..] == more;
    assert lines[i..] == ([h.header] + h.body) + lines[end..];
    Regroup([h.header] + h.body, HunkLines(more), tail);
  }

  /** The strict scanner accepts exactly such diffs: what it accepts is some lines that say
      nothing and then exact files. */
  lemma AcceptedIsExact(g: Grammar, lines: seq<Line>) returns (i: nat, files: seq<FileText>)
    requires StrictPairs(g, lines).Some?
    ensures i <= |lines| && lines[i..] == DiffLines(files) && files != []
    ensures forall k :: 0 <= k < i ==> IsPreamble(lines[k])
    ensures forall f :: f in files ==> ExactFile(g, f)
    ensures StrictPairs(g, lines) == Some(PairsOf(g, files))
  {
    var skipped, hunks;
    skipped, hunks, files := AcceptedRest(g, lines, 0, [], false);
    i := |skipped|;
    assert lines[0..] == lines && HunkLines(hunks) + DiffLines(files) == DiffLines(files);
    forall k | 0 <= k < i ensures IsPreamble(lines[k]) { assert lines[k] == skipped[k]; }
    assert lines[i..] == DiffLines(files);
    ExactDiffAccepted(g, lines, i, files);
  }

  lemma {:induction false} NoneForbiddenBefore(lines: seq<Line>, k: nat, i: nat)
    requires k <= i <= |lines| && NoneForbidden(lines, i)
    requires forall j :: k <= j < i ==> !Forbidden(lines[j])
    ensures NoneForbidden(lines, k)
    decreases i - k
  {
    if k < i { NoneForbiddenBefore(lines, k + 1, i); }
  }

  lemma HeaderPlain(lines: seq<Line>, i: nat, start: nat)
    requires IsHeader(lines, i) && i + 2 <= start <= |lines| && NoneForbidden(lines, start)
    requires forall j :: i + 2 <= j < start ==> !Forbidden(lines[j])
    ensures NoneForbidden(lines, i)
  {
    HeaderLines(lines, i);
    NoneForbiddenBefore(lines, i + 2, start);
    NoneForbiddenBefore(lines, i, i + 2);
  }

  predicate PlainFile(g: Grammar, f: FileText) {
    ExactFile(g, f) && forall line :: line in f.between ==> !Forbidden(line)
  }

  /** The lines of an exact diff read as no Git metadata. */
  lemma {:induction false} ExactDiffPlain(g: Grammar, lines: seq<Line>, i: nat, hunks: seq<HunkText>,
                                          files: seq<FileText>)
    requires i <= |lines| && lines[i..] == HunkLines(hunks) + DiffLines(files)
    requires forall h :: h in hunks ==> ExactHunk(g, h)
    requires forall f :: f in files ==> PlainFile(g, f)
    ensures NoneForbidden(lines, i)
    decreases |lines| - i, 1
  {
    if hunks != [] {
      var body := HunkBody(g, lines, i, hunks, files);
      BodiesAgree(lines, i + 1);
      BodyLineNotForbidden(lines[i]);
      ExactDiffPlain(g, lines, body.end, hunks[1..], files);
    } else if files != [] {
      Empty(DiffLines(files));
      ExactFilesPlain(g, lines, i, files);
    }
  }

  lemma ExactFilesPlain(g: Grammar, lines: seq<Line>, i: nat, files: seq<FileText>)
    requires i <= |lines| && files != [] && lines[i..] == DiffLines(files)
    requires forall f :: f in files ==> PlainFile(g, f)
    ensures NoneForbidden(lines, i)
    decreases |lines| - i, 0
  {
    var f := files[0];
    assert f in files;
    FileStart(lines, i, files);
    ExactDiffPlain(g, lines, i + 2 + |f.between|, f.hunks, files[1..]);
    HeaderPlain(lines, i, i + 2 + |f.between|);
  }

  /** The three kinds of change as Git writes them. */
  datatype Change = Modification | Creation | Deletion {
    function Old(p: string): string { if Creation? then "/dev/null" else "a/" + p }

    function New(p: string): string { if Deletion? then "/dev/null" else "b/" + p }

    function Effect(q: string): Operations {
      match this
      case Modification => Operations([], [])
      case Creation => Operations([], [q])
      case Deletion => Operations([q], [])
    }
  }

  lemma PairsOfOne(g: Grammar, f: FileText, pair: Pair)
    requires ExactFile(g, f)
    requires pair == Pair(f.minusLine, f.plusLine, PathOf(g, f.minusLine), PathOf(g, f.plusLine))
    ensures PairsOf(g, [f]) == [pair] && AllPortable([pair]) == PortablePair(pair)
    ensures Deletions([pair]) == if pair.minus.At? && pair.plus.DevNull? then [pair.minus.path] else []
    ensures Creations([pair]) == if pair.minus.DevNull? && pair.plus.At? then [pair.plus.path] else []
  {
    assert [f][1..] == [] && [pair][1..] == [];
  }

  /** One exact file that changes no path and has no quotes is accepted by both scanners. */
  lemma OneFileAccepted(g: Grammar, f: FileText, pair: Pair)
    requires PlainFile(g, f) && PortablePair(pair)
    requires pair == Pair(f.minusLine, f.plusLine, PathOf(g, f.minusLine), PathOf(g, f.plusLine))
    ensures StrictPairs(g, DiffLines([f])) == Some([pair])
    ensures CountedOperations(g, DiffLines([f])) ==
              Some(Operations(if pair.minus.At? && pair.plus.DevNull? then [pair.minus.path] else [],
                              if pair.minus.DevNull? && pair.plus.At? then [pair.plus.path] else []))
  {
    var lines := DiffLines([f]);
    ExactDiffAccepted(g, lines, 0, [f]);
    assert HunkLines([]) + lines == lines && lines[0..] == lines;
    ExactDiffPlain(g, lines, 0, [], [f]);
    PairsOfOne(g, f, pair);
    ScannersAgree(g, lines);
  }

  /** A modification, creation or deletion in Git's form, whose hunks count exactly, is
      accepted by both scanners: the strict one gives the safe path on each side that has
      one, and the counting one exactly the operation that it is. */
  lemma GitChangeAccepted(g: Grammar, c: Change, p: string, q: string, oldStamp: Option<string>,
                          newStamp: Option<string>, hunks: seq<HunkText>)
    requires '\t' !in p && '"' !in p && g.safePath(p) == Some(q)
    requires hunks != [] && forall h :: h in hunks ==> ExactHunk(g, h)
    ensures var f := FileText(HeaderLine("--- ", c.Old(p), oldStamp), HeaderLine("+++ ", c.New(p), newStamp), [],
                         hunks);
      && StrictPairs(g, DiffLines([f])) ==
           Some([Pair(f.minusLine, f.plusLine, if c.Creation? then DevNull else At(q),
                      if c.Deletion? then DevNull else At(q))])
      && CountedOperations(g, DiffLines([f])) == Some(c.Effect(q))
  {
    var f := FileText(HeaderLine("--- ", c.Old(p), oldStamp), HeaderLine("+++ ", c.New(p), newStamp), [],
                         hunks);
    SideNames(g, "--- ", c.Creation?, "a/", p, q, oldStamp);
    SideNames(g, "+++ ", c.Deletion?, "b/", p, q, newStamp);
    OneFileAccepted(g, f, Pair(f.minusLine, f.plusLine, PathOf(g, f.minusLine), PathOf(g, f.plusLine)));
  }

  lemma SideNames(g: Grammar, mark: string, none: bool, prefix: string, p: string, q: string, stamp: Option<string>)
    requires |mark| == 4 && prefix in {"a/", "b/"} && '\t' !in p && '"' !in p && g.safePath(p) == Some(q)
    ensures var line := HeaderLine(mark, if none then "/dev/null" else prefix + p, stamp);
      && StartsWith(line, mark) && |line| >= 4 && !Quoted(line)
      && PathOf(g, line) == if none then DevNull else At(q)
  {
    HeaderPaths(g, mark, p, stamp);
    HeaderNames(mark, if none then "/dev/null" else prefix + p, stamp);
  }

  /** Each kind of Git metadata that a diff without binary or renamed files can do without
      makes the counting scanner refuse the line, whatever follows the words. */
  lemma MetadataForbidden(words: string, rest: string)
    ensures words in {"rename from ", "rename to ", "copy from ", "copy to ", "similarity index "} ==>
              Forbidden(words + rest)
  {
    assert (words + rest)[..|words|] == words;
  }
}
