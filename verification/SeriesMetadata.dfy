/**
 * The lines of a patch series as bare paths and as metadata: the comments and blank
 * lines, keyed by the patch they follow. What restoring the one from the other brings
 * back.
 */
module SeriesMetadata {
  import opened TextLines
  import opened Wrappers
  import opened Sequences

  type Path = string

  /** The characters that str.strip removes. */
  predicate IsSpace(c: char) {
    var n := c as int;
    || 0x09 <= n <= 0x0d || 0x1c <= n <= 0x20 || n == 0x85 || n == 0xa0 || n == 0x1680 || 0x2000 <= n <= 0x200a
    || n == 0x2028 || n == 0x2029 || n == 0x202f || n == 0x205f || n == 0x3000
  }

  predicate IsComment(line: string) { line == "" || line[0] == '#' }

  // ---------- paths of series lines ----------

  /** The text before the first " #". */
  function SeriesPath(line: string): (r: string)
    ensures |r| <= |line| && line[..|r|] == r
  {
    if line == "" then ""
    else if |line| >= 2 && line[0] == ' ' && line[1] == '#' then ""
    else [line[0]] + SeriesPath(line[1..])
  }

  /** What follows the first " #", if there is one. */
  function InlineComment(line: string): (r: Option<string>)
    ensures line == (match r case None => SeriesPath(line) case Some(c) => SeriesPath(line) + " #" + c)
  {
    if |SeriesPath(line)| == |line| then None
    else
      InlineSplit(line);
      Some(line[|SeriesPath(line)| + 2..])
  }

  lemma {:induction false} InlineSplit(line: string)
    requires |SeriesPath(line)| < |line|
    ensures |SeriesPath(line)| + 2 <= |line| && line == SeriesPath(line) + " #" + line[|SeriesPath(line)| + 2..]
  {
    if |line| >= 2 && line[0] == ' ' && line[1] == '#' {
      assert line == [' ', '#'] + line[2..];
    } else {
      InlineSplit(line[1..]);
      assert line == [line[0]] + line[1..];
    }
  }

  lemma {:induction false} SeriesPathIdempotent(line: string)
    ensures SeriesPath(SeriesPath(line)) == SeriesPath(line)
    decreases |line|
  {
    if line != "" && !(|line| >= 2 && line[0] == ' ' && line[1] == '#') {
      var rest := SeriesPath(line[1..]);
      SeriesPathIdempotent(line[1..]);
      assert ([line[0]] + rest)[1..] == rest;
    }
  }

  function StripLeft(s: string): (r: string)
    ensures |r| <= |s| && (s != "" && IsSpace(s[0]) ==> |r| < |s|)
  {
    if s != "" && IsSpace(s[0]) then StripLeft(s[1..]) else s
  }

  function StripRight(s: string): (r: string)
    ensures |r| <= |s|
  {
    if s != "" && IsSpace(s[|s| - 1]) then StripRight(s[..|s| - 1]) else s
  }

  function Strip(s: string): string { StripRight(StripLeft(s)) }

  /** A tab, a line break of any kind or a blank in front of a line or behind it goes. */
  lemma PaddingGoes(s: string, c: char)
    requires c == ' ' || c == '\t' || c == '\n' || c == '\r' || c as int == 0x0b || c as int == 0x0c
    ensures StripLeft([c] + s) == StripLeft(s) && StripRight(s + [c]) == StripRight(s)
    ensures Strip([c] + s) == Strip(s)
  {
    assert ([c] + s)[1..] == s && (s + [c])[..|s|] == s;
  }

  /** parse_series: the path of every line that is neither blank nor a comment. */
  function ParseSeries(lines: seq<string>): seq<Path> {
    if lines == [] then []
    else if IsComment(lines[0]) then ParseSeries(lines[1..])
    else [SeriesPath(Strip(lines[0]))] + ParseSeries(lines[1..])
  }

  // ---------- metadata ----------

  /** The paths, the block of lines after each path, and the inline comments. `lead` is
      the block filed under no path, before the first; `last` is the path the next
      block belongs to. */
  datatype Metadata = Metadata(
    paths: set<Path>,
    lead: seq<string>,
    blocks: map<Path, seq<string>>,
    inline: map<Path, string>,
    last: Option<Path>)

  const NO_METADATA := Metadata({}, [], map[], map[], None)

  function Block(m: Metadata, path: Path): seq<string> { if path in m.blocks then m.blocks[path] else [] }

  function AddLine(m: Metadata, line: string): Metadata {
    if IsComment(line) then
      match m.last
      case None => m.(lead := m.lead + [line])
      case Some(path) => m.(blocks := m.blocks[path := Block(m, path) + [line]])
    else
      var path := SeriesPath(line);
      Metadata(m.paths + {path}, m.lead, m.blocks,
               match InlineComment(line) case Some(c) => m.inline[path := c] case None => m.inline,
               Some(path))
  }

  function MetadataOf(lines: seq<string>): Metadata {
    if lines == [] then NO_METADATA else AddLine(MetadataOf(lines[..|lines| - 1]), lines[|lines| - 1])
  }

  /** _parse_series_metadata. */
  method ParseMetadata(lines: seq<string>) returns (m: Metadata)
    ensures m == MetadataOf(lines)
  {
    var paths: set<Path> := {};
    var lead: seq<string> := [];
    var blocks: map<Path, seq<string>> := map[];
    var inline: map<Path, string> := map[];
    var previous: Option<Path> := None;
    var i := 0;
    while i < |lines|
      invariant i <= |lines| && Metadata(paths, lead, blocks, inline, previous) == MetadataOf(lines[..i])
    {
      var line := lines[i];
      assert lines[..i + 1][..i] == lines[..i];
      if IsComment(line) {
        match previous {
          case None => lead := lead + [line];
          case Some(path) =>
            if path !in blocks { blocks := blocks[path := []]; }
            blocks := blocks[path := blocks[path] + [line]];
        }
      } else {
        previous := Some(SeriesPath(line));
        paths := paths + {SeriesPath(line)};
        var comment := InlineComment(line);
        if comment.Some? { inline := inline[SeriesPath(line) := comment.value]; }
      }
      i := i + 1;
    }
    assert lines[..i] == lines;
    m := Metadata(paths, lead, blocks, inline, previous);
  }

  // ---------- restoring ----------

  function RestoredLine(m: Metadata, element: string): string {
    var path := SeriesPath(element);
    if path in m.inline then path + " #" + m.inline[path] else element
  }

  function RestoredBlock(m: Metadata, path: Path): seq<string> {
    if path in m.blocks then [Join(m.blocks[path])] else []
  }

  /** What one series element becomes: its line, and the block after it. */
  function RestoreOne(m: Metadata, element: string): seq<string> {
    [RestoredLine(m, element)] + RestoredBlock(m, SeriesPath(element))
  }

  function RestoreAll(m: Metadata, series: seq<string>): seq<string> {
    if series == [] then [] else RestoreOne(m, series[0]) + RestoreAll(m, series[1..])
  }

  lemma {:induction false} RestoreSnoc(m: Metadata, series: seq<string>, x: string)
    ensures RestoreAll(m, series + [x]) == RestoreAll(m, series) + RestoreOne(m, x)
  {
    if series == [] {
      assert RestoreAll(m, [x]) == RestoreOne(m, x) + RestoreAll(m, []);
      assert [] + [x] == [x];
    } else {
      RestoreSnoc(m, series[1..], x);
      assert (series + [x])[1..] == series[1..] + [x];
      Associative(RestoreOne(m, series[0]), RestoreAll(m, series[1..]), RestoreOne(m, x));
    }
  }

  lemma RestoreLast(m: Metadata, series: seq<string>)
    requires series != []
    ensures RestoreAll(m, series) == RestoreAll(m, series[..|series| - 1]) + RestoreOne(m, series[|series| - 1])
  {
    assert series == series[..|series| - 1] + [series[|series| - 1]];
    RestoreSnoc(m, series[..|series| - 1], series[|series| - 1]);
  }

  /** One step of the restoring loop at `index`: the edited series, and the next index. */
  method RestoreAt(series: seq<string>, index: nat, m: Metadata, ghost rest: seq<string>)
    returns (edited: seq<string>, next: nat)
    requires index < |series| && series[index + 1..] == rest
    ensures edited == series[..index] + RestoreOne(m, series[index]) + rest
    ensures next == index + |RestoreOne(m, series[index])|
  {
    ghost var done := series[..index];
    var element := series[index];
    var path := SeriesPath(element);
    Around(series, index);
    OneOrTwo(m, element);
    edited, next := series, index;
    if path in m.inline {
      EditAt(done, element, rest, path + " #" + m.inline[path]);
      edited := edited[index := path + " #" + m.inline[path]];
    }
    ghost var line := RestoredLine(m, element);
    assert edited == done + [line] + rest;
    if path in m.blocks {
      InsertAfter(done, line, rest, Join(m.blocks[path]));
      edited := edited[..index + 1] + [Join(m.blocks[path])] + edited[index + 1..];
      next := next + 1;
    }
    next := next + 1;
  }

  lemma OneOrTwo(m: Metadata, element: string)
    ensures var line, path := RestoredLine(m, element), SeriesPath(element);
      RestoreOne(m, element) == if path in m.blocks then [line, Join(m.blocks[path])] else [line]
  {
  }

  lemma Around(series: seq<string>, index: nat)
    requires index < |series|
    ensures series == series[..index] + [series[index]] + series[index + 1..]
  {
  }

  /** _restore_series_metadata: the series is edited in place while the index steps
      over the blocks it inserts. */
  method RestoreMetadata(series: seq<string>, m: Metadata) returns (restored: seq<string>)
    ensures restored == RestoreAll(m, series)
  {
    restored := series;
    var index := 0;
    ghost var done, rest := [], series;
    while index < |restored|
      invariant restored == done + rest && index == |done|
      invariant done + RestoreAll(m, rest) == RestoreAll(m, series)
      decreases |rest|
    {
      ghost var one := RestoreOne(m, rest[0]);
      assert restored[..index] == done && restored[index] == rest[0] && restored[index + 1..] == rest[1..];
      restored, index := RestoreAt(restored, index, m, rest[1..]);
      Associative(done, one, RestoreAll(m, rest[1..]));
      done, rest := done + one, rest[1..];
    }
    assert rest == [] && done + [] == done;
  }

  lemma EditAt(done: seq<string>, element: string, rest: seq<string>, line: string)
    ensures (done + [element] + rest)[|done| := line] == done + [line] + rest
  {
  }

  lemma InsertAfter(done: seq<string>, line: string, rest: seq<string>, block: string)
    ensures var s := done + [line] + rest; s[..|done| + 1] + [block] + s[|done| + 1..] == done + [line, block] + rest
  {
    var s := done + [line] + rest;
    assert s[..|done| + 1] == done + [line] && s[|done| + 1..] == rest;
  }

  // ---------- what survives the way there and back ----------

  /** The path of the line is that of the line without surrounding blanks. */
  predicate Unpadded(line: string) { SeriesPath(Strip(line)) == SeriesPath(line) }

  predicate AllUnpadded(lines: seq<string>) {
    forall i :: 0 <= i < |lines| && !IsComment(lines[i]) ==> Unpadded(lines[i])
  }

  /** Lines as splitting a file gives them, whose patch lines name different patches. */
  predicate Named(lines: seq<string>) {
    && NoNewlines(lines)
    && forall i, j :: 0 <= i < j < |lines| && !IsComment(lines[i]) && !IsComment(lines[j]) ==>
         SeriesPath(lines[i]) != SeriesPath(lines[j])
  }

  /** Such lines without blanks around their paths. */
  predicate Orderly(lines: seq<string>) { Named(lines) && AllUnpadded(lines) }

  lemma OrderlyFront(lines: seq<string>)
    requires lines != [] && Orderly(lines)
    ensures Orderly(lines[..|lines| - 1])
  {
    var front := lines[..|lines| - 1];
    assert forall i :: 0 <= i < |front| ==> front[i] == lines[i];
  }

  lemma {:induction false} ParseSnoc(lines: seq<string>, x: string)
    ensures ParseSeries(lines + [x]) == if IsComment(x) then ParseSeries(lines)
                                        else ParseSeries(lines) + [SeriesPath(Strip(x))]
  {
    if lines == [] {
      assert [] + [x] == [x] && ParseSeries([x][1..]) == [];
    } else {
      assert (lines + [x])[1..] == lines[1..] + [x];
      ParseSnoc(lines[1..], x);
    }
  }

  /** Each parsed path is that of some patch line. */
  lemma {:induction false} ParsedFrom(lines: seq<string>, path: Path)
    requires Orderly(lines) && path in ParseSeries(lines)
    ensures exists i :: 0 <= i < |lines| && !IsComment(lines[i]) && SeriesPath(lines[i]) == path
  {
    OrderlySuffix(lines, 1);
    if IsComment(lines[0]) || path != SeriesPath(lines[0]) {
      ParsedFrom(lines[1..], path);
      var i :| 0 <= i < |lines[1..]| && !IsComment(lines[1..][i]) && SeriesPath(lines[1..][i]) == path;
      assert lines[i + 1] == lines[1..][i];
    }
  }

  /** The path of an orderly last line is new, and its blanks do not matter. */
  lemma PathIsNew(front: seq<string>, x: string)
    requires Orderly(front + [x]) && !IsComment(x)
    ensures Unpadded(x) && SeriesPath(x) !in ParseSeries(front)
  {
    var lines := front + [x];
    assert lines[|front|] == x && forall i :: 0 <= i < |front| ==> lines[i] == front[i];
    assert Orderly(front);
    if SeriesPath(x) in ParseSeries(front) {
      ParsedFrom(front, SeriesPath(x));
    }
  }

  /** Two metadata agree on what restoring these elements reads. */
  predicate AgreeOn(a: Metadata, b: Metadata, series: seq<Path>) {
    forall p :: p in series ==> RestoreOne(a, p) == RestoreOne(b, p)
  }

  lemma {:induction false} RestoreAgrees(a: Metadata, b: Metadata, series: seq<Path>)
    requires AgreeOn(a, b, series)
    ensures RestoreAll(a, series) == RestoreAll(b, series)
  {
    if series != [] {
      assert series[0] in series && forall p :: p in series[1..] ==> p in series;
      RestoreAgrees(a, b, series[1..]);
    }
  }

  /** What holds of the metadata and the paths of the lines read so far. */
  predicate Reads(lines: seq<string>) { Matched(MetadataOf(lines), ParseSeries(lines)) }

  predicate Matched(m: Metadata, ps: seq<Path>) {
    && ps != [] && m.last == Some(ps[|ps| - 1])
    && (forall p :: p in ps ==> p in m.paths && SeriesPath(p) == p)
    && (forall p :: p in m.paths ==> p in ps)
    && (forall p :: p in m.inline ==> p in ps)
    && (forall p :: p in m.blocks ==> p in ps && m.blocks[p] != [])
    && Distinct(ps)
  }

  /** The series rebuilt from bare paths and metadata. */
  function Rebuilt(lines: seq<string>): seq<string> { RestoreAll(MetadataOf(lines), ParseSeries(lines)) }

  /** A patch line with a new path leaves what is restored of the others alone. */
  lemma PatchLineApart(m: Metadata, x: string, ps: seq<Path>)
    requires !IsComment(x) && SeriesPath(x) !in ps && forall p :: p in ps ==> SeriesPath(p) == p
    ensures RestoreAll(AddLine(m, x), ps) == RestoreAll(m, ps)
  {
    forall p | p in ps ensures RestoreOne(AddLine(m, x), p) == RestoreOne(m, p) {
    }
    RestoreAgrees(AddLine(m, x), m, ps);
  }

  /** So does a comment line that belongs to another path. */
  lemma CommentLineApart(m: Metadata, x: string, ps: seq<Path>)
    requires IsComment(x) && m.last.Some? && m.last.value !in ps && forall p :: p in ps ==> SeriesPath(p) == p
    ensures RestoreAll(AddLine(m, x), ps) == RestoreAll(m, ps)
  {
    forall p | p in ps ensures RestoreOne(AddLine(m, x), p) == RestoreOne(m, p) {
    }
    RestoreAgrees(AddLine(m, x), m, ps);
  }

  /** A patch line is restored from its own path and inline comment. */
  lemma PatchLineRestored(m: Metadata, x: string)
    requires !IsComment(x) && SeriesPath(x) !in m.inline && SeriesPath(x) !in m.blocks
    ensures RestoreOne(AddLine(m, x), SeriesPath(x)) == [x]
  {
    SeriesPathIdempotent(x);
    var m', p := AddLine(m, x), SeriesPath(x);
    assert RestoredBlock(m', p) == [];
    assert RestoredLine(m', p) == x;
  }

  lemma PatchLineMatched(m: Metadata, ps: seq<Path>, x: string)
    requires !IsComment(x) && (Matched(m, ps) || (m == NO_METADATA && ps == [])) && SeriesPath(x) !in ps
    ensures Matched(AddLine(m, x), ps + [SeriesPath(x)])
  {
    SeriesPathIdempotent(x);
    assert forall q :: q in ps + [SeriesPath(x)] <==> q in ps || q == SeriesPath(x);
  }

  lemma PatchLineRebuilt(m: Metadata, ps: seq<Path>, x: string)
    requires !IsComment(x) && (Matched(m, ps) || (m == NO_METADATA && ps == [])) && SeriesPath(x) !in ps
    ensures RestoreAll(AddLine(m, x), ps + [SeriesPath(x)]) == RestoreAll(m, ps) + [x]
  {
    PatchLineApart(m, x, ps);
    PatchLineRestored(m, x);
    RestoreSnoc(AddLine(m, x), ps, SeriesPath(x));
  }

  /** One more patch line. */
  lemma ReadPatchLine(front: seq<string>, x: string)
    requires !IsComment(x) && Orderly(front + [x]) && (front == [] || Reads(front))
    ensures Reads(front + [x]) && Rebuilt(front + [x]) == Rebuilt(front) + [x]
  {
    PathIsNew(front, x);
    MetadataSnoc(front, x);
    ParseSnoc(front, x);
    PatchLineMatched(MetadataOf(front), ParseSeries(front), x);
    PatchLineRebuilt(MetadataOf(front), ParseSeries(front), x);
  }

  lemma CommentLineMatched(m: Metadata, ps: seq<Path>, x: string)
    requires IsComment(x) && Matched(m, ps)
    ensures Matched(AddLine(m, x), ps)
  {
  }

  lemma MetadataSnoc(front: seq<string>, x: string)
    ensures MetadataOf(front + [x]) == AddLine(MetadataOf(front), x)
  {
    assert (front + [x])[..|front|] == front;
  }

  /** One more comment or blank line. */
  lemma ReadCommentLine(front: seq<string>, x: string)
    requires IsComment(x) && Reads(front)
    ensures Reads(front + [x]) && Join(Rebuilt(front + [x])) == Join(Rebuilt(front)) + [NEWLINE] + x
  {
    var m, ps := MetadataOf(front), ParseSeries(front);
    MetadataSnoc(front, x);
    ParseSnoc(front, x);
    CommentLineMatched(m, ps, x);
    var before, q := ps[..|ps| - 1], ps[|ps| - 1];
    CommentLineApart(m, x, before);
    RestoreLast(AddLine(m, x), ps);
    RestoreLast(m, ps);
    BlockGrows(m, RestoreAll(m, before), q, x);
  }

  /** A joined block grows by a line where it stands. */
  lemma BlockJoins(done: seq<string>, block: seq<string>, x: string)
    requires done != []
    ensures Join(done + [Join(block + [x])]) == Join(done + (if block == [] then [] else [Join(block)])) + [NEWLINE] + x
  {
    JoinSnoc(block, x);
    JoinSnoc(done, Join(block + [x]));
    if block == [] {
      assert done + [] == done;
    } else {
      JoinSnoc(done, Join(block));
      Associative(Join(done) + [NEWLINE], Join(block) + [NEWLINE], x);
      Associative(Join(done) + [NEWLINE], Join(block), [NEWLINE]);
    }
  }

  lemma BlockGrows(m: Metadata, done: seq<string>, q: Path, x: string)
    requires SeriesPath(q) == q && m.last == Some(q) && IsComment(x) && (q in m.blocks ==> m.blocks[q] != [])
    ensures Join(done + RestoreOne(AddLine(m, x), q)) == Join(done + RestoreOne(m, q)) + [NEWLINE] + x
  {
    var line := RestoredLine(m, q);
    assert RestoredLine(AddLine(m, x), q) == line;
    Associative(done, [line], RestoredBlock(m, q));
    Associative(done, [line], RestoredBlock(AddLine(m, x), q));
    BlockJoins(done + [line], Block(m, q), x);
  }

  /** An orderly series that starts with a patch line is rebuilt, comments and blank
      lines included, from its bare paths and its metadata. */
  lemma {:induction false} OrderlyRebuilt(lines: seq<string>)
    requires lines != [] && !IsComment(lines[0]) && Orderly(lines)
    ensures Reads(lines) && Join(Rebuilt(lines)) == Join(lines)
  {
    var front, x := lines[..|lines| - 1], lines[|lines| - 1];
    assert lines == front + [x];
    JoinSnoc(front, x);
    OrderlyFront(lines);
    if front != [] { OrderlyRebuilt(front); }
    if IsComment(x) {
      ReadCommentLine(front, x);
    } else {
      ReadPatchLine(front, x);
      if front != [] { JoinSnoc(Rebuilt(front), x); }
    }
  }

  // ---------- the lines before the first patch ----------

  /** The series from its first patch line on. */
  function Body(lines: seq<string>): (r: seq<string>)
    ensures |r| <= |lines| && lines[|lines| - |r|..] == r
    ensures r != [] ==> !IsComment(r[0])
    ensures forall i :: 0 <= i < |lines| - |r| ==> IsComment(lines[i])
  {
    if lines == [] then []
    else if IsComment(lines[0]) then Body(lines[1..])
    else lines
  }

  /** Two metadata that differ at most in the block before the first patch. */
  predicate SameButLead(a: Metadata, b: Metadata) { a == b.(lead := a.lead) }

  lemma {:induction false} LeadOnly(lead: seq<string>)
    requires forall i :: 0 <= i < |lead| ==> IsComment(lead[i])
    ensures MetadataOf(lead) == NO_METADATA.(lead := lead)
  {
    if lead != [] { LeadOnly(lead[..|lead| - 1]); }
  }

  lemma AddedApart(a: Metadata, b: Metadata, x: string)
    requires SameButLead(a, b) && (IsComment(x) ==> b.last.Some?)
    ensures SameButLead(AddLine(a, x), AddLine(b, x)) && AddLine(b, x).last.Some?
  {
  }

  lemma {:induction false} LeadIgnored(lead: seq<string>, body: seq<string>)
    requires forall i :: 0 <= i < |lead| ==> IsComment(lead[i])
    requires body != [] ==> !IsComment(body[0])
    ensures SameButLead(MetadataOf(lead + body), MetadataOf(body))
    ensures body != [] ==> MetadataOf(body).last.Some?
    decreases |body|
  {
    var lines := lead + body;
    if body != [] {
      var front, x := body[..|body| - 1], body[|body| - 1];
      assert lines == lead + front + [x] && body == front + [x];
      MetadataSnoc(lead + front, x);
      MetadataSnoc(front, x);
      LeadIgnored(lead, front);
      assert front == [] ==> body[0] == x;
      AddedApart(MetadataOf(lead + front), MetadataOf(front), x);
    } else {
      assert lines == lead;
      LeadOnly(lead);
    }
  }

  lemma {:induction false} ParseSkipsLead(lines: seq<string>)
    ensures ParseSeries(lines) == ParseSeries(Body(lines))
  {
    if lines != [] && IsComment(lines[0]) { ParseSkipsLead(lines[1..]); }
  }

  /** Lines, split where the first patch line stands. */
  lemma SplitLead(lines: seq<string>) returns (lead: seq<string>)
    ensures lines == lead + Body(lines) && forall i :: 0 <= i < |lead| ==> IsComment(lead[i])
    ensures Orderly(lines) ==> Orderly(Body(lines))
  {
    var n := |lines| - |Body(lines)|;
    lead := lines[..n];
    assert lines[n..] == Body(lines) && lines == lines[..n] + lines[n..];
    if Orderly(lines) { OrderlySuffix(lines, n); }
  }

  /** Comments before the first patch are filed under no patch and never read. */
  lemma RebuiltBody(lines: seq<string>)
    ensures Rebuilt(lines) == Rebuilt(Body(lines)) && Body(Body(lines)) == Body(lines)
  {
    var body := Body(lines);
    var lead := SplitLead(lines);
    ParseSkipsLead(lines);
    LeadIgnored(lead, body);
    LeadApart(MetadataOf(lines), MetadataOf(body), ParseSeries(body));
  }

  /** The metadata knows exactly the parsed paths. */
  lemma KnownPaths(lines: seq<string>)
    requires Orderly(lines)
    ensures forall p :: p in MetadataOf(lines).paths <==> p in ParseSeries(lines)
    ensures forall p :: p in ParseSeries(lines) ==> SeriesPath(p) == p
  {
    var body := Body(lines);
    var lead := SplitLead(lines);
    ParseSkipsLead(lines);
    LeadIgnored(lead, body);
    if body != [] { OrderlyRebuilt(body); }
  }

  lemma LeadApart(a: Metadata, b: Metadata, ps: seq<Path>)
    requires SameButLead(a, b)
    ensures RestoreAll(a, ps) == RestoreAll(b, ps)
  {
    forall p | p in ps ensures RestoreOne(a, p) == RestoreOne(b, p) {
    }
    RestoreAgrees(a, b, ps);
  }

  lemma OrderlySuffix(lines: seq<string>, n: nat)
    requires Orderly(lines) && n <= |lines|
    ensures Orderly(lines[n..])
  {
    var tail := lines[n..];
    assert forall i :: 0 <= i < |tail| ==> tail[i] == lines[i + n];
  }

  /** The text comes back exactly when no comment precedes the first patch, the series
      of a single blank line aside. */
  lemma LeadLostExactly(lines: seq<string>)
    ensures Join(Body(lines)) == Join(lines) <==> Body(lines) == lines || lines == [""]
  {
    var body := Body(lines);
    var lead := lines[..|lines| - |body|];
    assert lines == lead + body;
    if lead != [] && body != [] {
      JoinAppend(lead, body);
    } else if lead != [] {
      assert lines == lead;
    }
  }

  // ---------- what blanks around paths cost ----------

  /** What a line weighs: its path and one more, or nothing for a comment. */
  function Weight(line: string): nat { if IsComment(line) then 0 else |SeriesPath(line)| + 1 }

  function LinesWeight(lines: seq<string>): nat {
    if lines == [] then 0 else Weight(lines[0]) + LinesWeight(lines[1..])
  }

  /** The most a line restored from a bare path can weigh. */
  function PathWeight(path: Path): nat { if path != "" && path[0] == '#' then 0 else |path| + 1 }

  function PathsWeight(paths: seq<Path>): nat {
    if paths == [] then 0 else PathWeight(paths[0]) + PathsWeight(paths[1..])
  }

  lemma {:induction false} LinesWeightAppend(a: seq<string>, b: seq<string>)
    ensures LinesWeight(a + b) == LinesWeight(a) + LinesWeight(b)
  {
    if a == [] {
      assert a + b == b;
    } else {
      LinesWeightAppend(a[1..], b);
      assert (a + b)[1..] == a[1..] + b;
    }
  }

  lemma {:induction false} PathsWeightAppend(a: seq<Path>, b: seq<Path>)
    ensures PathsWeight(a + b) == PathsWeight(a) + PathsWeight(b)
  {
    if a == [] {
      assert a + b == b;
    } else {
      PathsWeightAppend(a[1..], b);
      assert (a + b)[1..] == a[1..] + b;
    }
  }

  /** A last character that opens no comment leaves the path as it is, or ends it. */
  lemma {:induction false} PathOfFront(s: string)
    requires s != "" && s[|s| - 1] != '#'
    ensures var front := s[..|s| - 1]; SeriesPath(front) == if SeriesPath(s) == s then front else SeriesPath(s)
  {
    var front := s[..|s| - 1];
    if !(|s| >= 2 && s[0] == ' ' && s[1] == '#') && |s| > 1 {
      PathOfFront(s[1..]);
      assert front[1..] == s[1..][..|s| - 2];
      assert s == [s[0]] + s[1..] && front == [s[0]] + front[1..];
    }
  }

  lemma PathEndsEarly(s: string)
    requires SeriesPath(s) != s
    ensures |SeriesPath(s)| + 2 <= |s|
  {
    assert s[..|s|] == s;
    InlineSplit(s);
  }

  lemma {:induction false} PathStrippedRight(s: string)
    ensures SeriesPath(StripRight(s)) == if SeriesPath(s) == s then StripRight(s) else SeriesPath(s)
    ensures |StripRight(s)| == |s| ==> StripRight(s) == s
  {
    if s != "" && IsSpace(s[|s| - 1]) {
      PathOfFront(s);
      PathStrippedRight(s[..|s| - 1]);
      if SeriesPath(s) != s { PathEndsEarly(s); }
    }
  }

  /** Blanks in front of a text that is no comment count towards its path. */
  lemma {:induction false} PathStrippedLeft(s: string)
    requires s != "" && IsSpace(s[0]) && (StripLeft(s) != "" ==> StripLeft(s)[0] != '#')
    ensures |SeriesPath(StripLeft(s))| < |SeriesPath(s)|
  {
    if |s| > 1 && IsSpace(s[1]) { PathStrippedLeft(s[1..]); }
  }

  lemma {:induction false} StrippedLeftStart(s: string)
    ensures StripLeft(s) != "" ==> !IsSpace(StripLeft(s)[0])
  {
    if s != "" && IsSpace(s[0]) { StrippedLeftStart(s[1..]); }
  }

  lemma {:induction false} StripKeepsFirst(s: string)
    requires s != "" && !IsSpace(s[0])
    ensures StripRight(s) != "" && StripRight(s)[0] == s[0]
  {
    if IsSpace(s[|s| - 1]) { StripKeepsFirst(s[..|s| - 1]); }
  }

  /** Without blanks in front, stripping can only shorten the path at its end. */
  lemma StrippedNoLead(x: string)
    requires !IsComment(x) && !IsSpace(x[0])
    ensures PathWeight(SeriesPath(Strip(x))) <= Weight(x)
    ensures PathWeight(SeriesPath(Strip(x))) == Weight(x) <==> Unpadded(x)
  {
    PathStrippedRight(x);
    StripKeepsFirst(x);
  }

  /** With blanks in front the parsed path is always shorter, or a comment. */
  lemma StrippedLead(x: string)
    requires !IsComment(x) && IsSpace(x[0])
    ensures PathWeight(SeriesPath(Strip(x))) < Weight(x) && !Unpadded(x)
  {
    var y := StripLeft(x);
    StrippedLeftStart(x);
    PathStrippedRight(y);
    if y != "" { StripKeepsFirst(y); }
    if y == "" || y[0] != '#' { PathStrippedLeft(x); }
  }

  lemma {:induction false} ParsedWeight(lines: seq<string>)
    ensures PathsWeight(ParseSeries(lines)) <= LinesWeight(lines)
    ensures PathsWeight(ParseSeries(lines)) == LinesWeight(lines) <==> AllUnpadded(lines)
  {
    if lines != [] {
      var x, rest := lines[0], lines[1..];
      ParsedWeight(rest);
      assert lines == [x] + rest;
      assert AllUnpadded(lines) <==> (IsComment(x) || Unpadded(x)) && AllUnpadded(rest) by {
        assert forall i :: 0 < i < |lines| ==> lines[i] == rest[i - 1];
        assert forall i :: 0 <= i < |rest| ==> rest[i] == lines[i + 1];
      }
      if !IsComment(x) {
        if IsSpace(x[0]) { StrippedLead(x); } else { StrippedNoLead(x); }
      }
    }
  }

  /** Metadata as lines without newlines give it. */
  predicate Kept(m: Metadata) {
    && (forall p :: p in m.blocks ==> m.blocks[p] != [] && NoNewlines(m.blocks[p]) && AllComments(m.blocks[p]))
    && (forall p :: p in m.inline ==> NEWLINE !in m.inline[p])
  }

  predicate AllComments(lines: seq<string>) { forall i :: 0 <= i < |lines| ==> IsComment(lines[i]) }

  lemma {:induction false} LinesKept(lines: seq<string>)
    requires NoNewlines(lines)
    ensures Kept(MetadataOf(lines))
  {
    if lines != [] { LinesKept(lines[..|lines| - 1]); }
  }

  /** The restored series line by line, each block taken apart. */
  function Flat(m: Metadata, series: seq<Path>): seq<string> {
    if series == [] then [] else FlatOne(m, series[0]) + Flat(m, series[1..])
  }

  function FlatOne(m: Metadata, path: Path): seq<string> {
    [RestoredLine(m, path)] + Block(m, SeriesPath(path))
  }

  /** Bare paths, none of which holds a newline. */
  predicate AllBare(series: seq<Path>) {
    forall i :: 0 <= i < |series| ==> SeriesPath(series[i]) == series[i] && NEWLINE !in series[i]
  }

  lemma JoinsAlike(a: seq<string>, b: seq<string>, c: seq<string>, d: seq<string>)
    requires a != [] && b != [] && Join(a) == Join(b) && Join(c) == Join(d) && (c == [] <==> d == [])
    ensures Join(a + c) == Join(b + d)
  {
    if c == [] {
      assert a + c == a && b + d == b;
    } else {
      JoinAppend(a, c);
      JoinAppend(b, d);
    }
  }

  lemma {:induction false} FlatJoins(m: Metadata, series: seq<Path>)
    requires Kept(m)
    ensures Join(RestoreAll(m, series)) == Join(Flat(m, series))
  {
    if series != [] {
      var e := series[0];
      FlatJoins(m, series[1..]);
      FlatOneJoins(m, e);
      JoinsAlike(RestoreOne(m, e), FlatOne(m, e), RestoreAll(m, series[1..]), Flat(m, series[1..]));
    }
  }

  lemma FlatOneJoins(m: Metadata, e: Path)
    requires Kept(m)
    ensures Join(RestoreOne(m, e)) == Join(FlatOne(m, e))
  {
    var block := Block(m, SeriesPath(e));
    if SeriesPath(e) in m.blocks {
      JoinAppend([RestoredLine(m, e)], [Join(block)]);
      JoinAppend([RestoredLine(m, e)], block);
    }
  }

  /** A comment after a bare path ends it where it ends. */
  lemma {:induction false} PathBeforeComment(path: Path, comment: string)
    requires SeriesPath(path) == path
    ensures SeriesPath(path + " #" + comment) == path
  {
    var line := path + " #" + comment;
    if path == "" {
      assert line == " #" + comment;
    } else {
      var rest := path[1..];
      assert SeriesPath(rest) == rest by { assert path == [path[0]] + SeriesPath(rest); }
      PathBeforeComment(rest, comment);
      assert line[1..] == rest + " #" + comment;
      assert |path| >= 2 ==> line[1] == path[1];
      assert [path[0]] + rest == path;
    }
  }

  lemma {:induction false} CommentsWeighNothing(lines: seq<string>)
    requires AllComments(lines)
    ensures LinesWeight(lines) == 0
  {
    if lines != [] { CommentsWeighNothing(lines[1..]); }
  }

  lemma RestoredWeight(m: Metadata, e: Path)
    requires Kept(m) && SeriesPath(e) == e && NEWLINE !in e
    ensures LinesWeight(FlatOne(m, e)) <= PathWeight(e) && NoNewlines(FlatOne(m, e))
  {
    var line, block := RestoredLine(m, e), Block(m, e);
    if e in m.inline { PathBeforeComment(e, m.inline[e]); }
    CommentsWeighNothing(block);
    LinesWeightAppend([line], block);
    assert LinesWeight([line]) == Weight(line);
  }

  lemma {:induction false} FlatWeight(m: Metadata, series: seq<Path>)
    requires Kept(m) && AllBare(series)
    ensures LinesWeight(Flat(m, series)) <= PathsWeight(series) && NoNewlines(Flat(m, series))
  {
    if series != [] {
      assert AllBare(series[1..]);
      FlatWeight(m, series[1..]);
      RestoredWeight(m, series[0]);
      LinesWeightAppend(FlatOne(m, series[0]), Flat(m, series[1..]));
    }
  }

  /** Lines that start with a patch line can only come back from paths that weigh as much. */
  lemma WeightBack(m: Metadata, series: seq<Path>, body: seq<string>)
    requires Kept(m) && AllBare(series) && NoNewlines(body) && (body != [] ==> !IsComment(body[0]))
    requires Join(RestoreAll(m, series)) == Join(body)
    ensures LinesWeight(body) <= PathsWeight(series)
  {
    var flat := Flat(m, series);
    FlatJoins(m, series);
    FlatWeight(m, series);
    if body != [] {
      JoinTerminates(body);
      SplitTerminated(body);
      if flat != [] {
        JoinTerminates(flat);
        SplitTerminated(flat);
      }
    }
  }

  lemma {:induction false} StripHolds(s: string, c: char)
    requires c !in s
    ensures c !in StripLeft(s) && c !in StripRight(s)
  {
    if s != "" && IsSpace(s[0]) { StripHolds(s[1..], c); }
    if s != "" && IsSpace(s[|s| - 1]) { StripHolds(s[..|s| - 1], c); }
  }

  /** Parsed paths are bare, whatever blanks the lines held. */
  lemma {:induction false} ParsedBare(lines: seq<string>)
    requires NoNewlines(lines)
    ensures AllBare(ParseSeries(lines))
  {
    if lines != [] {
      ParsedBare(lines[1..]);
      var s := Strip(lines[0]);
      SeriesPathIdempotent(s);
      StripHolds(lines[0], NEWLINE);
      StripHolds(StripLeft(lines[0]), NEWLINE);
      assert NEWLINE !in s[..|SeriesPath(s)|];
    }
  }

  lemma BodyWeight(lines: seq<string>)
    ensures LinesWeight(Body(lines)) == LinesWeight(lines)
    ensures AllUnpadded(Body(lines)) <==> AllUnpadded(lines)
  {
    ParseSkipsLead(lines);
    ParsedWeight(lines);
    ParsedWeight(Body(lines));
    var lead := SplitLead(lines);
    CommentsWeighNothing(lead);
    LinesWeightAppend(lead, Body(lines));
  }

  /** What is rebuilt is the series from its first patch line on exactly if no path has
      blanks around it: the parsed path is stripped, the metadata is filed under the path
      as it stands. */
  lemma RebuiltExactly(lines: seq<string>)
    requires Named(lines)
    ensures Join(Rebuilt(lines)) == Join(Body(lines)) <==> AllUnpadded(lines)
  {
    if AllUnpadded(lines) { OrderlyBody(lines); }
    if Join(Rebuilt(lines)) == Join(Body(lines)) { OnlyUnpadded(lines); }
  }

  lemma OrderlyBody(lines: seq<string>)
    requires Orderly(lines)
    ensures Join(Rebuilt(lines)) == Join(Body(lines))
  {
    RebuiltBody(lines);
    var lead := SplitLead(lines);
    if Body(lines) != [] { OrderlyRebuilt(Body(lines)); }
  }

  /** Whatever names the lines have. */
  lemma OnlyUnpadded(lines: seq<string>)
    requires NoNewlines(lines) && Join(Rebuilt(lines)) == Join(Body(lines))
    ensures AllUnpadded(lines)
  {
    LinesKept(lines);
    ParsedBare(lines);
    NoNewlinesBody(lines);
    WeightBack(MetadataOf(lines), ParseSeries(lines), Body(lines));
    BodyWeight(lines);
    ParsedWeight(lines);
  }

  lemma NoNewlinesBody(lines: seq<string>)
    requires NoNewlines(lines)
    ensures NoNewlines(Body(lines))
  {
    var n := |lines| - |Body(lines)|;
    assert forall i :: 0 <= i < |Body(lines)| ==> lines[n..][i] == lines[n + i];
  }

  /** So a series that starts with a patch line is rebuilt, comments and blank lines
      included, exactly if no path has blanks around it. */
  lemma RebuiltText(lines: seq<string>)
    requires lines != [] && !IsComment(lines[0]) && Named(lines)
    ensures Join(Rebuilt(lines)) == Join(lines) <==> AllUnpadded(lines)
  {
    RebuiltExactly(lines);
  }

  lemma UnpaddedNonempty(line: string)
    requires !IsComment(line) && Unpadded(line)
    ensures SeriesPath(line) != ""
  {
    if |line| >= 2 && line[0] == ' ' && line[1] == '#' {
      assert StripLeft(line) == StripLeft(line[1..]) == line[1..];
      StripKeepsFirst(line[1..]);
    }
  }

  /** A single patch line comes back exactly if no blanks surround its path: the parsed
      path is stripped, the metadata is filed under the path as it stands. */
  lemma PatchLineBackExactly(x: string)
    requires !IsComment(x)
    ensures Rebuilt([x]) == [x] <==> Unpadded(x)
  {
    var m, path := AddLine(NO_METADATA, x), SeriesPath(Strip(x));
    assert [x][..0] == [] && MetadataOf([x]) == m;
    assert [x][1..] == [] && ParseSeries([x][1..]) == [] && ParseSeries([x]) == [path];
    RestoreSnoc(m, [], path);
    assert [] + [path] == [path] && RestoreAll(m, []) == [];
    assert Rebuilt([x]) == RestoreOne(m, path);
    SeriesPathIdempotent(Strip(x));
    if Unpadded(x) {
      PatchLineRestored(NO_METADATA, x);
    } else {
      assert RestoreOne(m, path) == [path];
      if path == x { SeriesPathIdempotent(x); }
    }
  }

  lemma PathsGrow(m: Metadata, x: string)
    ensures AddLine(m, x).paths == {} <==> m.paths == {} && IsComment(x)
  {
    if !IsComment(x) { assert SeriesPath(x) in AddLine(m, x).paths; }
  }

  /** There are paths exactly if some line names one. */
  lemma {:induction false} NoPaths(lines: seq<string>)
    ensures MetadataOf(lines).paths == {} <==> ParseSeries(lines) == []
  {
    if lines != [] {
      var front, x := lines[..|lines| - 1], lines[|lines| - 1];
      NoPaths(front);
      assert lines == front + [x];
      MetadataSnoc(front, x);
      ParseSnoc(front, x);
      PathsGrow(MetadataOf(front), x);
    }
  }
}
