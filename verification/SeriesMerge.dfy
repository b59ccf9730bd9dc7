/**
 * Merging the generic patch series into a platform's and taking the two apart again.
 * The merged series holds bare paths only; comments and blank lines come back from
 * metadata keyed by the patch they follow.
 */
module SeriesMerge {
  import opened Wrappers
  import opened Sequences
  import opened TextLines
  import opened SeriesMetadata

  // ---------- merging and taking apart ----------

  function Elements(ps: seq<Path>): set<Path> { set p | p in ps }

  /** The merged lines sorted into generic and platform patches: everything before the
      first platform patch counts as generic, and so does a known generic path. */
  function Sorted(merged: seq<string>, prepend: set<Path>, orig: set<Path>, inPlatform: bool)
    : (seq<string>, seq<string>)
    decreases |merged|
  {
    if merged == [] then ([], [])
    else
      var path := SeriesPath(merged[0]);
      var inside := inPlatform || path in orig;
      var (generic, platform) := Sorted(merged[1..], prepend, orig, inside);
      if path in prepend || !inside then ([merged[0]] + generic, platform) else (generic, [merged[0]] + platform)
  }

  /** Bare generic paths followed by bare platform paths, disjoint, sort back. */
  lemma {:induction false} SortedBack(generic: seq<Path>, platform: seq<Path>, prepend: set<Path>, orig: set<Path>,
                                      inPlatform: bool)
    requires prepend !! orig
    requires forall p :: p in generic ==> SeriesPath(p) == p && p in prepend
    requires forall p :: p in platform ==> SeriesPath(p) == p && p in orig
    ensures Sorted(generic + platform, prepend, orig, inPlatform) == (generic, platform)
    decreases |generic| + |platform|
  {
    var merged := generic + platform;
    if generic != [] {
      assert merged[1..] == generic[1..] + platform && merged[0] == generic[0];
      SortedBack(generic[1..], platform, prepend, orig, inPlatform);
      assert [generic[0]] + generic[1..] == generic;
    } else if platform != [] {
      assert merged[1..] == generic + platform[1..] && merged[0] == platform[0];
      SortedBack([], platform[1..], prepend, orig, true);
      assert [platform[0]] + platform[1..] == platform;
    }
  }

  lemma Disjointness(a: set<Path>, b: set<Path>)
    ensures a * b == {} <==> b !! a
  {
    if a * b == {} {
      forall x | x in b ensures x !in a {
        assert x in a ==> x in a * b;
      }
    }
    if b !! a {
      assert a * b == {};
    }
  }

  /** What taking a merged file apart writes to the generic and the platform series,
      given the lines of the series it was merged from. */
  function TakenApart(merged: string, generic: seq<string>, platform: seq<string>): (string, string) {
    var m, n := MetadataOf(generic), MetadataOf(platform);
    var (g, p) := Sorted(NonBlank(SplitLines(merged)), m.paths, n.paths, false);
    (Join(RestoreAll(m, g)) + [NEWLINE], Join(RestoreAll(n, p)) + [NEWLINE])
  }

  function MergedText(generic: seq<string>, platform: seq<string>): string {
    Join(ParseSeries(generic) + ParseSeries(platform))
  }

  datatype MergeExit = Merged | NoPlatformSeries | Conflict

  /** `NothingToMove` stands for the error that moving an empty list of patch files
      raises, before any series is written. */
  datatype UnmergeExit = Unmerged | Missing | NothingToMove

  /** No path is known from the generic series, and none is sorted into it. */
  predicate NothingMoves(merged: string, generic: seq<string>, platform: seq<string>) {
    && MetadataOf(generic).paths == {}
    && Sorted(NonBlank(SplitLines(merged)), {}, MetadataOf(platform).paths, false).0 == []
  }

  /** The series files of both directories, as texts. */
  class SeriesFiles {
    var generic: string
    var platform: Option<string>
    var orig: Option<string>
    var prepend: Option<string>
    var merged: Option<string>

    constructor (generic: string, platform: Option<string>)
      ensures this.generic == generic && this.platform == platform && orig == None && prepend == None && merged == None
    {
      this.generic, this.platform := generic, platform;
      orig, prepend, merged := None, None, None;
    }

    /** merge_platform_patches over merge_patches with one source, prepended. */
    method Merge() returns (exit: MergeExit)
      modifies this
      ensures generic == old(generic)
      ensures exit == NoPlatformSeries <==> old(platform) == None
      ensures old(platform) == None ==>
                platform == None && orig == old(orig) && prepend == old(prepend) && merged == old(merged)
      ensures old(platform).Some? ==>
                var g, p := SplitLines(generic), SplitLines(old(platform).value);
                && orig == old(platform) && prepend == Some(generic)
                && (exit == Conflict <==> !(Elements(ParseSeries(g)) !! Elements(ParseSeries(p))))
                && (exit == Conflict ==> platform == old(platform) && merged == old(merged))
                && (exit == Merged ==> platform == None && merged == Some(MergedText(g, p)))
    {
      if platform == None { return NoPlatformSeries; }
      orig, prepend := platform, Some(generic);
      var known := Elements(ParseSeries(SplitLines(platform.value)));
      var paths := ParseSeries(SplitLines(generic));
      Disjointness(known, Elements(paths));
      if known * Elements(paths) != {} { return Conflict; }
      var series := paths;
      series := series + ParseSeries(SplitLines(platform.value));
      platform, merged := None, Some(Join(series));
      return Merged;
    }

    /** unmerge_platform_patches, as far as the series files go. */
    method Unmerge() returns (exit: UnmergeExit)
      modifies this
      ensures exit == Missing <==> old(prepend == None || orig == None || merged == None)
      ensures exit == NothingToMove <==>
                && old(prepend.Some? && orig.Some? && merged.Some?)
                && NothingMoves(old(merged).value, SplitLines(old(prepend).value), SplitLines(old(orig).value))
      ensures exit != Unmerged ==> generic == old(generic) && platform == old(platform) && orig == old(orig)
                                   && prepend == old(prepend) && merged == old(merged)
      ensures exit == Unmerged ==>
                && platform.Some?
                && (generic, platform.value) ==
                     TakenApart(old(merged).value, SplitLines(old(prepend).value), SplitLines(old(orig).value))
                && orig == None && prepend == None && merged == None
    {
      if prepend == None || orig == None || merged == None { return Missing; }
      var moves, texts := Separate(merged.value, SplitLines(prepend.value), SplitLines(orig.value));
      if !moves { return NothingToMove; }
      generic, platform := texts.0, Some(texts.1);
      orig, prepend, merged := None, None, None;
      return Unmerged;
    }
  }

  /** The sorting loop of unmerge_platform_patches. */
  method Sort(lines: seq<string>, prependPaths: set<Path>, origPaths: set<Path>)
    returns (toGeneric: seq<string>, toPlatform: seq<string>)
    ensures (toGeneric, toPlatform) == Sorted(lines, prependPaths, origPaths, false)
  {
    toGeneric, toPlatform := [], [];
    var inPlatform := false;
    var i := 0;
    ghost var all := Sorted(lines, prependPaths, origPaths, false);
    assert lines[0..] == lines && [] + all.0 == all.0 && [] + all.1 == all.1;
    while i < |lines|
      invariant i <= |lines|
      invariant var rest := Sorted(lines[i..], prependPaths, origPaths, inPlatform);
        (toGeneric + rest.0, toPlatform + rest.1) == Sorted(lines, prependPaths, origPaths, false)
    {
      var line := lines[i];
      ghost var rest := Sorted(lines[i..], prependPaths, origPaths, inPlatform);
      assert lines[i..][0] == line && lines[i..][1..] == lines[i + 1..];
      var path := SeriesPath(line);
      if path in origPaths { inPlatform := true; }
      ghost var next := Sorted(lines[i + 1..], prependPaths, origPaths, inPlatform);
      if path in prependPaths || !inPlatform {
        Associative(toGeneric, [line], next.0);
        toGeneric := toGeneric + [line];
      } else {
        Associative(toPlatform, [line], next.1);
        toPlatform := toPlatform + [line];
      }
      i := i + 1;
    }
    assert lines[i..] == [] && toGeneric + [] == toGeneric && toPlatform + [] == toPlatform;
  }

  /** The part of it between reading the three files and writing two: sort the merged
      lines, move the patch files if there are any, and restore both series. */
  method Separate(merged: string, generic: seq<string>, platform: seq<string>)
    returns (moves: bool, texts: (string, string))
    ensures moves <==> !NothingMoves(merged, generic, platform)
    ensures moves ==> texts == TakenApart(merged, generic, platform)
  {
    var m := ParseMetadata(generic);
    var n := ParseMetadata(platform);
    var toGeneric, toPlatform := Sort(NonBlank(SplitLines(merged)), m.paths, n.paths);
    if m.paths == {} && toGeneric == [] { return false, ("", ""); }
    var restoredGeneric := RestoreMetadata(toGeneric, m);
    var restoredPlatform := RestoreMetadata(toPlatform, n);
    return true, (Join(restoredGeneric) + [NEWLINE], Join(restoredPlatform) + [NEWLINE]);
  }

  function NonBlank(lines: seq<string>): seq<string> {
    if lines == [] then []
    else if lines[0] == "" then NonBlank(lines[1..])
    else [lines[0]] + NonBlank(lines[1..])
  }

  lemma {:induction false} NonBlankAll(lines: seq<string>)
    requires forall i :: 0 <= i < |lines| ==> lines[i] != ""
    ensures NonBlank(lines) == lines
  {
    if lines != [] { NonBlankAll(lines[1..]); }
  }

  lemma {:induction false} NonBlankAppend(a: seq<string>, b: seq<string>)
    ensures NonBlank(a + b) == NonBlank(a) + NonBlank(b)
  {
    if a == [] {
      assert a + b == b && [] + NonBlank(b) == NonBlank(b);
    } else {
      NonBlankAppend(a[1..], b);
      assert (a + b)[1..] == a[1..] + b;
      Associative([a[0]], NonBlank(a[1..]), NonBlank(b));
    }
  }

  lemma BlankEndSplits(front: seq<string>)
    requires front != [] && NoNewlines(front)
    ensures SplitLines(Join(front + [""])) == front
  {
    JoinSnoc(front, "");
    assert Join(front) + [NEWLINE] + "" == Join(front) + [NEWLINE];
    JoinTerminates(front);
    SplitTerminated(front);
  }

  /** A joined text splits into the same lines, blank ones aside. */
  lemma NonBlankSplits(lines: seq<string>)
    requires NoNewlines(lines)
    ensures NonBlank(SplitLines(Join(lines))) == NonBlank(lines)
  {
    if lines == [] || lines[|lines| - 1] != "" {
      SplitJoined(lines);
    } else {
      var front := lines[..|lines| - 1];
      assert lines == front + [""];
      BlankAtEnd(front);
      if front != [] { BlankEndSplits(front); }
    }
  }

  lemma BlankAtEnd(front: seq<string>)
    ensures NonBlank(front + [""]) == NonBlank(front)
  {
    NonBlankAppend(front, [""]);
    assert NonBlank([""]) == [] && NonBlank(front) + [] == NonBlank(front);
  }

  /** The merged file, which has no final newline, splits back into the bare paths, but
      for those that stripping left blank. */
  lemma MergedSplits(a: seq<string>, b: seq<string>)
    requires NoNewlines(a) && NoNewlines(b)
    ensures NonBlank(SplitLines(MergedText(a, b))) == NonBlank(ParseSeries(a) + ParseSeries(b))
    ensures AllBare(NonBlank(ParseSeries(a) + ParseSeries(b)))
  {
    ParsedBare(a);
    ParsedBare(b);
    var series := ParseSeries(a) + ParseSeries(b);
    NonBlankSplits(series);
    NonBlankBare(series);
  }

  lemma {:induction false} NonBlankBare(series: seq<Path>)
    requires AllBare(series)
    ensures AllBare(NonBlank(series)) && PathsWeight(NonBlank(series)) <= PathsWeight(series)
  {
    if series != [] {
      assert AllBare(series[1..]);
      NonBlankBare(series[1..]);
    }
  }

  /** Without blanks around paths none is left blank. */
  lemma {:induction false} ParsedNonBlank(lines: seq<string>)
    requires AllUnpadded(lines)
    ensures NonBlank(ParseSeries(lines)) == ParseSeries(lines)
  {
    if lines != [] {
      var rest := lines[1..];
      assert forall i :: 0 <= i < |rest| ==> rest[i] == lines[i + 1];
      ParsedNonBlank(rest);
      if !IsComment(lines[0]) { UnpaddedNonempty(lines[0]); }
    }
  }

  lemma OrderlySplits(a: seq<string>, b: seq<string>)
    requires Orderly(a) && Orderly(b)
    ensures NonBlank(SplitLines(MergedText(a, b))) == ParseSeries(a) + ParseSeries(b)
  {
    MergedSplits(a, b);
    ParsedNonBlank(a);
    ParsedNonBlank(b);
    NonBlankAppend(ParseSeries(a), ParseSeries(b));
  }

  /** The known paths tell the merged lines apart, so both orderly series are rebuilt
      from their first patch line on. */
  lemma OrderlyApart(a: seq<string>, b: seq<string>)
    requires Orderly(a) && Orderly(b) && Elements(ParseSeries(a)) !! Elements(ParseSeries(b))
    ensures Separated(a, b) == Bodies(a, b)
  {
    KnownPaths(a);
    KnownPaths(b);
    OrderlySplits(a, b);
    var p, q := MetadataOf(a).paths, MetadataOf(b).paths;
    forall x | x in p ensures x !in q {
      assert x in Elements(ParseSeries(a)) && (x in q ==> x in Elements(ParseSeries(b)));
    }
    SortedBack(ParseSeries(a), ParseSeries(b), p, q, false);
    RebuiltExactly(a);
    RebuiltExactly(b);
  }

  lemma WeightAhead(path: Path, rest: seq<Path>)
    requires AllBare(rest) && AllBare([path])
    ensures AllBare([path] + rest) && PathsWeight([path] + rest) == PathWeight(path) + PathsWeight(rest)
  {
    assert ([path] + rest)[1..] == rest;
  }

  /** Sorting neither loses nor makes up a path. */
  lemma {:induction false} SortedWeight(merged: seq<Path>, prepend: set<Path>, orig: set<Path>, inPlatform: bool)
    requires AllBare(merged)
    ensures var (g, p) := Sorted(merged, prepend, orig, inPlatform);
      AllBare(g) && AllBare(p) && PathsWeight(g) + PathsWeight(p) == PathsWeight(merged)
    decreases |merged|
  {
    if merged != [] {
      assert AllBare(merged[1..]) && AllBare([merged[0]]);
      var inside := inPlatform || SeriesPath(merged[0]) in orig;
      SortedWeight(merged[1..], prepend, orig, inside);
      var (g, p) := Sorted(merged[1..], prepend, orig, inside);
      WeightAhead(merged[0], g);
      WeightAhead(merged[0], p);
    }
  }

  /** Both series written back from their first patch line on. */
  function Bodies(a: seq<string>, b: seq<string>): (string, string) {
    (Join(Body(a)) + [NEWLINE], Join(Body(b)) + [NEWLINE])
  }

  /** Paths that both come back weigh as much as the lines they were parsed from. */
  lemma OnlyUnpaddedApart(a: seq<string>, b: seq<string>)
    requires NoNewlines(a) && NoNewlines(b) && Separated(a, b) == Bodies(a, b)
    ensures AllUnpadded(a) && AllUnpadded(b)
  {
    var m, n := MetadataOf(a), MetadataOf(b);
    var merged := NonBlank(ParseSeries(a) + ParseSeries(b));
    MergedSplits(a, b);
    MergedWeight(a, b);
    SortedWeight(merged, m.paths, n.paths, false);
    var (g, p) := Sorted(merged, m.paths, n.paths, false);
    SameBeforeNewline(Join(RestoreAll(m, g)), Join(Body(a)));
    SameBeforeNewline(Join(RestoreAll(n, p)), Join(Body(b)));
    BackWeight(a, g);
    BackWeight(b, p);
    ParsedWeight(a);
    ParsedWeight(b);
  }

  lemma SameBeforeNewline(s: string, t: string)
    requires s + [NEWLINE] == t + [NEWLINE]
    ensures s == t
  {
    assert (s + [NEWLINE])[..|s|] == s && (t + [NEWLINE])[..|t|] == t;
  }

  lemma MergedWeight(a: seq<string>, b: seq<string>)
    requires NoNewlines(a) && NoNewlines(b)
    ensures PathsWeight(NonBlank(ParseSeries(a) + ParseSeries(b))) <= PathsWeight(ParseSeries(a))
              + PathsWeight(ParseSeries(b))
  {
    ParsedBare(a);
    ParsedBare(b);
    NonBlankBare(ParseSeries(a) + ParseSeries(b));
    PathsWeightAppend(ParseSeries(a), ParseSeries(b));
  }

  lemma BackWeight(lines: seq<string>, series: seq<Path>)
    requires NoNewlines(lines) && AllBare(series) && Join(RestoreAll(MetadataOf(lines), series)) == Join(Body(lines))
    ensures LinesWeight(lines) <= PathsWeight(series)
  {
    LinesKept(lines);
    NoNewlinesBody(lines);
    WeightBack(MetadataOf(lines), series, Body(lines));
    BodyWeight(lines);
  }

  /** Two series that can be merged: each of different patches, none of them in both. */
  ghost predicate Mergeable(generic: seq<string>, platform: seq<string>) {
    Named(generic) && Named(platform) && Elements(ParseSeries(generic)) !! Elements(ParseSeries(platform))
  }

  /** Taking the merged text apart gives both series from their first patch line on
      exactly if no path in either has blanks around it. */
  lemma ApartAgain(a: seq<string>, b: seq<string>)
    requires Mergeable(a, b)
    ensures Separated(a, b) == Bodies(a, b) <==> AllUnpadded(a) && AllUnpadded(b)
  {
    if AllUnpadded(a) && AllUnpadded(b) { OrderlyApart(a, b); }
    if Separated(a, b) == Bodies(a, b) { OnlyUnpaddedApart(a, b); }
  }

  /** Merging and taking apart, whatever the lines are. */
  method Through(files: SeriesFiles) returns (exit: UnmergeExit)
    requires files.platform.Some?
    requires Elements(ParseSeries(SplitLines(files.generic))) !! Elements(ParseSeries(SplitLines(files.platform.value)))
    modifies files
    ensures exit == if Stays(SplitLines(old(files.generic)), SplitLines(old(files.platform.value))) then NothingToMove
                    else Unmerged
    ensures exit == NothingToMove ==> Stuck(files, old(files.generic), old(files.platform.value))
    ensures exit == Unmerged ==>
              Apart(files, Separated(SplitLines(old(files.generic)), SplitLines(old(files.platform.value))))
  {
    var merged := files.Merge();
    exit := files.Unmerge();
  }

  /** Merged, and not taken apart again: the platform has no series file. */
  ghost predicate Stuck(files: SeriesFiles, generic: string, platform: string)
    reads files
  {
    && files.generic == generic && files.platform == None && files.prepend == Some(generic)
    && files.orig == Some(platform)
    && files.merged == Some(MergedText(SplitLines(generic), SplitLines(platform)))
  }

  /** Taken apart, without intermediate files. */
  ghost predicate Apart(files: SeriesFiles, texts: (string, string))
    reads files
  {
    && files.generic == texts.0 && files.platform == Some(texts.1)
    && files.orig == None && files.prepend == None && files.merged == None
  }

  /** Both texts after merging and taking apart. */
  function Separated(generic: seq<string>, platform: seq<string>): (string, string) {
    TakenApart(MergedText(generic, platform), generic, platform)
  }

  /** After merging, nothing would move. */
  predicate Stays(generic: seq<string>, platform: seq<string>) {
    NothingMoves(MergedText(generic, platform), generic, platform)
  }

  lemma {:induction false} AllPlatform(merged: seq<string>, orig: set<Path>)
    ensures Sorted(merged, {}, orig, true).0 == []
  {
    if merged != [] { AllPlatform(merged[1..], orig); }
  }

  /** Nothing precedes the platform's patches in the merged file: none is read back, or
      the first is one that the platform's metadata knows. */
  predicate StartsKnown(platform: seq<string>) {
    var paths := NonBlank(ParseSeries(platform));
    paths == [] || paths[0] in MetadataOf(platform).paths
  }

  /** Nothing moves exactly if the generic series names no patch and nothing precedes the
      platform's. */
  lemma NothingMovesExactly(generic: seq<string>, platform: seq<string>)
    requires NoNewlines(generic) && NoNewlines(platform)
    ensures Stays(generic, platform) <==> ParseSeries(generic) == [] && StartsKnown(platform)
  {
    NoPaths(generic);
    if ParseSeries(generic) == [] {
      MergedSplits(generic, platform);
      assert [] + ParseSeries(platform) == ParseSeries(platform);
      var merged := NonBlank(ParseSeries(platform));
      if merged != [] { AllPlatform(merged[1..], MetadataOf(platform).paths); }
    }
  }

  /** Without blanks around its paths a platform always starts so. */
  lemma OrderlyStartsKnown(platform: seq<string>)
    requires Orderly(platform)
    ensures StartsKnown(platform)
  {
    KnownPaths(platform);
    ParsedNonBlank(platform);
  }

  /** Merging two series of different patches and taking them apart again raises and
      leaves the series merged exactly if the generic one names no patch and nothing
      precedes the platform's. Otherwise it leaves no intermediate file, and writes both
      series back from their first patch line on, whatever comments and blank lines they
      hold, exactly if no path in either has blanks around it. */
  method MergeThenUnmerge(files: SeriesFiles, ghost generic: seq<string>, ghost platform: seq<string>)
    returns (exit: UnmergeExit)
    requires files.platform.Some?
    requires generic == SplitLines(files.generic) && platform == SplitLines(files.platform.value)
    requires Mergeable(generic, platform)
    modifies files
    ensures exit == if ParseSeries(generic) == [] && StartsKnown(platform) then NothingToMove else Unmerged
    ensures exit == NothingToMove ==> Stuck(files, old(files.generic), old(files.platform.value))
    ensures exit == Unmerged ==> Apart(files, Separated(generic, platform))
    ensures exit == Unmerged ==>
              (Apart(files, Bodies(generic, platform)) <==> AllUnpadded(generic) && AllUnpadded(platform))
  {
    ApartAgain(generic, platform);
    NothingMovesExactly(generic, platform);
    exit := Through(files);
  }

  const PADDED := ["a ", "# note"]
  const PLAIN := ["b"]

  lemma PaddedPaths()
    ensures SeriesPath("a ") == "a " && SeriesPath("a") == "a" && SeriesPath("b") == "b"
    ensures Strip("a ") == "a" && Strip("b") == "b"
    ensures ParseSeries(PADDED) == ["a"] && ParseSeries(PLAIN) == ["b"]
  {
    PaddedNames();
    PaddedStripped();
    assert PADDED[1..] == ["# note"] && ["# note"][1..] == [] && ParseSeries(["# note"]) == [];
    assert PLAIN[1..] == [];
  }

  lemma PaddedNames()
    ensures SeriesPath("a ") == "a " && SeriesPath("a") == "a" && SeriesPath("b") == "b"
  {
    assert "a "[1..] == " " && " "[1..] == "" && SeriesPath(" ") == " ";
  }

  lemma PaddedStripped()
    ensures Strip("a ") == "a" && Strip("b") == "b"
  {
    assert StripLeft("a ") == "a " && "a "[..1] == "a" && StripRight("a") == "a";
    assert StripLeft("b") == "b" && StripRight("b") == "b";
  }

  lemma PaddedMetadata()
    ensures MetadataOf(PADDED) == Metadata({"a "}, [], map["a " := ["# note"]], map[], Some("a "))
    ensures MetadataOf(PLAIN) == Metadata({"b"}, [], map[], map[], Some("b"))
  {
    PaddedPaths();
    assert PADDED[..1] == ["a "] && ["a "][..0] == [] && PLAIN[..0] == [];
    var first := Metadata({"a "}, [], map[], map[], Some("a "));
    assert {} + {"a "} == {"a "} && {} + {"b"} == {"b"} && [] + ["# note"] == ["# note"];
    assert MetadataOf(["a "]) == AddLine(NO_METADATA, "a ") == first;
    assert MetadataOf(PADDED) == AddLine(first, "# note");
  }

  lemma PaddedSorted()
    ensures Sorted(["a", "b"], {"a "}, {"b"}, false) == (["a"], ["b"])
  {
    PaddedPaths();
    assert ["a", "b"][1..] == ["b"] && ["b"][1..] == [];
    assert Sorted(["b"], {"a "}, {"b"}, false) == ([], ["b"]);
  }

  lemma PaddedRestored()
    ensures Join(RestoreAll(MetadataOf(PADDED), ["a"])) == "a" && Join(RestoreAll(MetadataOf(PLAIN), ["b"])) == "b"
  {
    PaddedPaths();
    PaddedMetadata();
    assert ["a"][1..] == [] && ["b"][1..] == [];
    assert RestoreAll(MetadataOf(PADDED), ["a"]) == ["a"] && RestoreAll(MetadataOf(PLAIN), ["b"]) == ["b"];
  }

  lemma PaddedMergeable()
    ensures Mergeable(PADDED, PLAIN) && !AllUnpadded(PADDED)
  {
    PaddedPaths();
    assert !Unpadded(PADDED[0]);
  }

  lemma PaddedMerged()
    ensures NonBlank(SplitLines(MergedText(PADDED, PLAIN))) == ["a", "b"]
  {
    PaddedPaths();
    MergedSplits(PADDED, PLAIN);
    assert ["a"] + ["b"] == ["a", "b"] && ["a", "b"][1..] == ["b"] && ["b"][1..] == [];
  }

  /** A blank behind a path costs the patch its comments: the path comes back without the
      blank, and its block is filed under the path that has it. */
  lemma PaddedLosesComments()
    ensures Mergeable(PADDED, PLAIN)
    ensures Separated(PADDED, PLAIN) == ("a" + [NEWLINE], "b" + [NEWLINE])
    ensures Separated(PADDED, PLAIN) != Bodies(PADDED, PLAIN)
  {
    PaddedMetadata();
    PaddedMerged();
    PaddedSorted();
    PaddedRestored();
    PaddedMergeable();
    ApartAgain(PADDED, PLAIN);
  }

  /** A newline-terminated text that starts with a patch line is what is written. */
  lemma TextComesBack(lines: seq<string>)
    requires lines != [] && NoNewlines(lines) && !IsComment(lines[0])
    ensures SplitLines(Terminated(lines)) == lines && Join(Body(lines)) + [NEWLINE] == Terminated(lines)
  {
    SplitTerminated(lines);
    JoinTerminates(lines);
  }
}
