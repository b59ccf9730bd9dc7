/**
 * Safe extraction of a release archive: every member is checked first, then real
 * directories are made, then files are written, and symbolic links come last.
 */
module ArchiveExtraction {
  import opened Wrappers

  type Path = seq<string>
  type Bytes = seq<bv8>

  const MAX_MEMBERS := 2_000
  const MAX_MEMBER_BYTES := 64 * 1024 * 1024
  const MAX_EXPANDED_BYTES := 256 * 1024 * 1024

  // ---------- member names ----------

  predicate Control(c: char) { c < ' ' }

  /** The text up to the first slash, and what follows the slash. */
  function Cut(raw: string): (r: (string, Option<string>))
    ensures '/' !in r.0
    ensures r.1.Some? ==> raw == r.0 + ['/'] + r.1.value
    ensures r.1 == None ==> raw == r.0
  {
    if raw == "" then ("", None)
    else if raw[0] == '/' then ("", Some(raw[1..]))
    else
      var (head, rest) := Cut(raw[1..]);
      ([raw[0]] + head, rest)
  }

  /** The parts of a pure POSIX path: empty and "." components are dropped. */
  function Parts(raw: string): (r: Path)
    ensures forall i :: 0 <= i < |r| ==> r[i] != "" && r[i] != "." && '/' !in r[i]
    decreases |raw|
  {
    var (head, rest) := Cut(raw);
    var tail := if rest == None then [] else Parts(rest.value);
    if head == "" || head == "." then tail else [head] + tail
  }

  function StripDots(raw: string): (r: string)
    ensures !(|r| >= 2 && r[0] == '.' && r[1] == '/')
  {
    if |raw| >= 2 && raw[0] == '.' && raw[1] == '/' then StripDots(raw[2..]) else raw
  }

  predicate DoubleSlash(raw: string) { |raw| >= 2 && ((raw[0] == '/' && raw[1] == '/') || DoubleSlash(raw[1..])) }

  predicate SafePart(part: string) {
    part != "" && part != "." && part != ".." && '/' !in part && forall i :: 0 <= i < |part| ==> !Control(part[i])
  }

  predicate SafePath(path: Path) { forall i :: 0 <= i < |path| ==> SafePart(path[i]) }

  /** _normal_member_name. */
  function NormalName(raw: string): (r: Option<Path>)
    ensures r.Some? ==> SafePath(r.value)
  {
    if raw == "" || '\\' in raw || '\0' in raw then None
    else
      var name := StripDots(raw);
      if name == "" || name[0] == '/' || DoubleSlash(name) then None
      else if SafePath(Parts(name)) then Some(Parts(name)) else None
  }

  function Spelled(path: Path): string {
    if path == [] then "" else if |path| == 1 then path[0] else path[0] + ['/'] + Spelled(path[1..])
  }

  lemma {:induction false} CutSpelled(head: string, rest: string)
    requires '/' !in head
    ensures Cut(head + ['/'] + rest) == (head, Some(rest)) && Cut(head) == (head, None)
  {
    if head != "" {
      CutSpelled(head[1..], rest);
      assert (head + ['/'] + rest)[1..] == head[1..] + ['/'] + rest;
      assert [head[0]] + head[1..] == head;
    }
  }

  // ---------- exactly which names are accepted ----------

  predicate SlashFree(components: Path) { forall i :: 0 <= i < |components| ==> '/' !in components[i] }

  /** The components of any name: the pieces between its slashes. */
  function Pieces(raw: string): (r: Path)
    ensures r != []
    decreases |raw|
  {
    var (head, rest) := Cut(raw);
    if rest == None then [head] else [head] + Pieces(rest.value)
  }

  /** Every name is spelled by its pieces. */
  lemma {:induction false} EveryName(raw: string)
    ensures SlashFree(Pieces(raw)) && Spelled(Pieces(raw)) == raw
    decreases |raw|
  {
    var (head, rest) := Cut(raw);
    if rest.Some? {
      EveryName(rest.value);
      assert ([head] + Pieces(rest.value))[1..] == Pieces(rest.value);
    }
  }

  predicate Dull(component: string) { component == "" || component == "." }

  /** What is left without the components that say nothing. */
  function Named(components: Path): Path {
    if components == [] then []
    else (if Dull(components[0]) then [] else [components[0]]) + Named(components[1..])
  }

  predicate Harmless(component: string) {
    component != ".." && '\\' !in component && forall k :: 0 <= k < |component| ==> !Control(component[k])
  }

  /** A name without "..", control characters and backslashes, in which an empty component
      stands only at the end, behind one that is not ".": so it neither starts with a slash,
      leading "./" aside, nor has two slashes in a row. */
  predicate Acceptable(components: Path) {
    && (forall i :: 0 <= i < |components| ==> Harmless(components[i]))
    && (forall i :: 0 <= i < |components| && components[i] == "" ==>
          i == |components| - 1 && exists j :: 0 <= j < i && components[j] != ".")
  }

  function Undotted(components: Path): (r: Path)
    ensures components != [] ==> r != []
    ensures |r| >= 2 ==> r[0] != "."
  {
    if |components| >= 2 && components[0] == "." then Undotted(components[1..]) else components
  }

  lemma {:induction false} PartsAre(components: Path)
    requires components != [] && SlashFree(components)
    ensures Parts(Spelled(components)) == Named(components)
  {
    var rest := components[1..];
    CutSpelled(components[0], Spelled(rest));
    if rest != [] { PartsAre(rest); }
  }

  lemma StartsWithSlash(components: Path)
    requires components != [] && SlashFree(components)
    ensures Spelled(components) == "" <==> components == [""]
    ensures Spelled(components) != "" ==> (Spelled(components)[0] == '/' <==> components[0] == "")
    ensures |Spelled(components)| >= 2 && Spelled(components)[0] == '.' && Spelled(components)[1] == '/' <==>
              |components| >= 2 && components[0] == "."
  {
    var head := components[0];
    assert head == "." <==> |head| == 1 && head[0] == '.';
    assert |components| >= 2 ==> Spelled(components) == head + ['/'] + Spelled(components[1..]);
  }

  lemma {:induction false} DotsAreStripped(components: Path)
    requires components != [] && SlashFree(components)
    ensures StripDots(Spelled(components)) == Spelled(Undotted(components)) && SlashFree(Undotted(components))
    ensures Named(Undotted(components)) == Named(components)
    ensures Acceptable(components) <==> Acceptable(Undotted(components))
  {
    StartsWithSlash(components);
    if |components| >= 2 && components[0] == "." {
      var rest := components[1..];
      assert Spelled(components)[2..] == Spelled(rest);
      DotsAreStripped(rest);
      DotInFront(components);
    }
  }

  lemma DotInFront(components: Path)
    requires |components| >= 2 && components[0] == "."
    ensures Acceptable(components) <==> Acceptable(components[1..])
  {
    var rest := components[1..];
    assert forall i :: 0 <= i < |rest| ==> rest[i] == components[i + 1];
    if Acceptable(components) {
      forall i | 0 <= i < |rest| && rest[i] == ""
        ensures i == |rest| - 1 && exists j :: 0 <= j < i && rest[j] != "."
      {
        assert components[i + 1] == "";
        var j :| 0 <= j < i + 1 && components[j] != ".";
        assert rest[j - 1] != ".";
      }
      forall i | 0 <= i < |rest| ensures Harmless(rest[i]) { assert Harmless(components[i + 1]); }
    }
    if Acceptable(rest) {
      forall i | 0 <= i < |components| && components[i] == ""
        ensures i == |components| - 1 && exists j :: 0 <= j < i && components[j] != "."
      {
        assert rest[i - 1] == "";
        var j :| 0 <= j < i - 1 && rest[j] != ".";
        assert components[j + 1] != ".";
      }
      forall i | 0 <= i < |components| ensures Harmless(components[i]) {
        assert i > 0 ==> Harmless(rest[i - 1]);
      }
    }
  }

  lemma {:induction false} DoubleSlashAt(head: string, rest: string)
    requires '/' !in head
    ensures DoubleSlash(head + ['/'] + rest) <==> (rest != "" && rest[0] == '/') || DoubleSlash(rest)
    ensures !DoubleSlash(head)
  {
    if head == "" {
      assert (head + ['/'] + rest)[1..] == rest;
    } else {
      DoubleSlashAt(head[1..], rest);
      assert (head + ['/'] + rest)[1..] == head[1..] + ['/'] + rest;
    }
  }

  predicate EmptyInside(components: Path) { exists i :: 0 < i < |components| - 1 && components[i] == "" }

  lemma {:induction false} DoubleSlashExactly(components: Path)
    requires components != [] && SlashFree(components)
    ensures DoubleSlash(Spelled(components)) <==> EmptyInside(components)
  {
    var rest := components[1..];
    DoubleSlashAt(components[0], Spelled(rest));
    if rest != [] {
      StartsWithSlash(rest);
      DoubleSlashExactly(rest);
      assert forall i :: 0 <= i < |rest| ==> rest[i] == components[i + 1];
      if EmptyInside(rest) {
        var i :| 0 < i < |rest| - 1 && rest[i] == "";
        assert components[i + 1] == "";
      }
    }
  }

  lemma {:induction false} SafeExactly(components: Path)
    requires SlashFree(components)
    ensures '\\' !in Spelled(components) && '\0' !in Spelled(components) && SafePath(Named(components)) <==>
              forall i :: 0 <= i < |components| ==> Harmless(components[i])
  {
    if components != [] {
      var head, rest := components[0], components[1..];
      SafeExactly(rest);
      assert forall i :: 0 <= i < |rest| ==> rest[i] == components[i + 1];
      SafeHead(head, rest);
      assert (forall i :: 0 <= i < |components| ==> Harmless(components[i])) <==>
               Harmless(head) && forall i :: 0 <= i < |rest| ==> Harmless(rest[i]);
    }
  }

  lemma SafeHead(head: string, rest: Path)
    requires '/' !in head
    ensures var all := [head] + rest;
      '\\' !in Spelled(all) && '\0' !in Spelled(all) && SafePath(Named(all)) <==>
        Harmless(head) && '\\' !in Spelled(rest) && '\0' !in Spelled(rest) && SafePath(Named(rest))
  {
    var all := [head] + rest;
    assert all[1..] == rest;
    assert Spelled(all) == if rest == [] then head else head + ['/'] + Spelled(rest);
    var front: Path := if Dull(head) then [] else [head];
    assert Named(all) == front + Named(rest);
    assert SafePath(front + Named(rest)) <==> SafePath(front) && SafePath(Named(rest)) by {
      assert forall i :: 0 <= i < |front| ==> (front + Named(rest))[i] == front[i];
      assert forall i :: 0 <= i < |Named(rest)| ==> (front + Named(rest))[|front| + i] == Named(rest)[i];
    }
    assert Control('\0');
    if '\0' in head { assert exists k :: 0 <= k < |head| && head[k] == '\0'; }
    if Dull(head) { assert Harmless(head); } else { assert SafePath(front) <==> SafePart(head); }
  }

  /** A name is accepted exactly if its components are acceptable, and then its path consists
      of the components other than "" and ".". */
  lemma NormalNameExactly(components: Path)
    requires components != [] && SlashFree(components)
    ensures NormalName(Spelled(components)) == if Acceptable(components) then Some(Named(components)) else None
  {
    var raw, bare := Spelled(components), Undotted(components);
    DotsAreStripped(components);
    StartsWithSlash(components);
    StartsWithSlash(bare);
    DoubleSlashExactly(bare);
    SafeExactly(components);
    PartsAre(bare);
    EmptyComponents(bare);
    AcceptableIsHarmless(components, bare);
  }

  lemma AcceptableIsHarmless(components: Path, bare: Path)
    requires bare == Undotted(components)
    ensures Acceptable(components) ==> forall i :: 0 <= i < |components| ==> Harmless(components[i])
  {
  }

  /** Behind the leading "./", an empty component is out of place exactly if it is the first
      one or an inner one. */
  lemma EmptyComponents(bare: Path)
    requires bare != [] && (|bare| >= 2 ==> bare[0] != ".")
    ensures (forall i :: 0 <= i < |bare| && bare[i] == "" ==>
               i == |bare| - 1 && exists j :: 0 <= j < i && bare[j] != ".")
            <==> bare[0] != "" && !EmptyInside(bare)
  {
    if bare[0] != "" && !EmptyInside(bare) {
      forall i | 0 <= i < |bare| && bare[i] == ""
        ensures i == |bare| - 1 && exists j :: 0 <= j < i && bare[j] != "."
      {
        assert bare[0] != ".";
      }
    }
  }

  function Dots(k: nat): Path { if k == 0 then [] else ["."] + Dots(k - 1) }

  /** However often "./" stands in front of a safe path, and with a slash behind it or without,
      it is read as that path. */
  lemma {:induction false} DotsAndSlashIgnored(k: nat, path: Path, slash: bool)
    requires SafePath(path) && path != [] && forall i :: 0 <= i < |path| ==> '\\' !in path[i]
    ensures NormalName(Spelled(Dots(k) + path + (if slash then [""] else []))) == Some(path)
  {
    var behind: Path := path + (if slash then [""] else []);
    assert Dots(k) + path + (if slash then [""] else []) == Dots(k) + behind;
    DotsHarmless(k, behind, path);
    forall i | 0 <= i < |behind| && behind[i] == ""
      ensures i == |behind| - 1 && exists j :: 0 <= j < i && behind[j] != "."
    {
      assert i == |path|;
      assert behind[0] == path[0] != ".";
    }
    forall i | 0 <= i < |behind| ensures Harmless(behind[i]) && '/' !in behind[i] {
      assert i < |path| ==> SafePart(path[i]);
    }
    DotsAcceptable(k, behind);
    NormalNameExactly(Dots(k) + behind);
  }

  lemma {:induction false} DotsHarmless(k: nat, behind: Path, path: Path)
    requires SafePath(path) && (behind == path || behind == path + [""])
    ensures Named(Dots(k) + behind) == path
  {
    if k > 0 {
      DotsHarmless(k - 1, behind, path);
      assert (Dots(k) + behind)[1..] == Dots(k - 1) + behind;
    } else {
      assert Dots(k) + behind == behind;
      NamedSafe(path, if behind == path then [] else [""]);
      assert path + [] == path;
    }
  }

  lemma {:induction false} NamedSafe(path: Path, tail: Path)
    requires SafePath(path) && (tail == [] || tail == [""])
    ensures Named(path + tail) == path
  {
    if path != [] {
      NamedSafe(path[1..], tail);
      assert (path + tail)[1..] == path[1..] + tail && path == [path[0]] + path[1..];
      assert SafePart(path[0]);
    } else {
      assert path + tail == tail;
    }
  }

  lemma {:induction false} DotsAcceptable(k: nat, behind: Path)
    requires behind != [] && Acceptable(behind) && SlashFree(behind)
    ensures Acceptable(Dots(k) + behind) && SlashFree(Dots(k) + behind)
  {
    if k > 0 {
      DotsAcceptable(k - 1, behind);
      var all := Dots(k) + behind;
      assert all[1..] == Dots(k - 1) + behind;
      DotInFront(all);
      forall i | 0 <= i < |all| ensures '/' !in all[i] { assert i > 0 ==> all[i] == all[1..][i - 1]; }
    } else {
      assert Dots(k) + behind == behind;
    }
  }

  // ---------- symbolic link targets ----------

  /** Height above the root after some components, starting at `depth`; None once the
      walk has gone above the root. */
  function Height(depth: nat, components: Path): Option<nat> {
    if components == [] then Some(depth)
    else
      match Height(depth, components[..|components| - 1])
      case None => None
      case Some(h) =>
        if components[|components| - 1] != ".." then Some(h + 1)
        else if h == 0 then None
        else Some(h - 1)
  }

  predicate PlainTarget(raw: string) { raw != "" && '\\' !in raw && '\0' !in raw && raw[0] != '/' }

  predicate ControlFree(component: string) {
    component == ".." || forall k :: 0 <= k < |component| ==> !Control(component[k])
  }

  predicate AllControlFree(components: Path) { forall i :: 0 <= i < |components| ==> ControlFree(components[i]) }

  function ParentDepth(member: Path): nat { if member == [] then 0 else |member| - 1 }

  /** A target that a link in a directory `depth` levels down may have: read component
      by component it never leaves the root, and it does not end at the root. */
  predicate SafeTarget(depth: nat, raw: string) {
    && PlainTarget(raw) && AllControlFree(Parts(raw))
    && Height(depth, Parts(raw)).Some? && Height(depth, Parts(raw)).value > 0
  }

  /** Names seen minus `..` seen. */
  function Balance(components: Path): int {
    if components == [] then 0
    else Balance(components[..|components| - 1]) + (if components[|components| - 1] == ".." then -1 else 1)
  }

  /** A walk stays inside exactly when no prefix of it has gone up more often than the
      start is deep and than it has gone down. */
  lemma {:induction false} InsideExactly(depth: nat, components: Path)
    ensures Height(depth, components).Some? <==>
              forall k :: 0 <= k <= |components| ==> depth + Balance(components[..k]) >= 0
    ensures Height(depth, components).Some? ==> Height(depth, components).value == depth + Balance(components)
  {
    assert components[..|components|] == components;
    if components != [] {
      var front := components[..|components| - 1];
      InsideExactly(depth, front);
      assert forall k :: 0 <= k <= |front| ==> front[..k] == components[..k];
    }
  }

  lemma HeightNext(depth: nat, components: Path, i: nat)
    requires i < |components|
    ensures Height(depth, components[..i + 1]) ==
      match Height(depth, components[..i])
      case None => None
      case Some(h) => if components[i] != ".." then Some(h + 1) else if h == 0 then None else Some(h - 1)
  {
    assert components[..i + 1][..i] == components[..i];
  }

  lemma {:induction false} OutForGood(depth: nat, components: Path, i: nat)
    requires i <= |components| && Height(depth, components[..i]) == None
    ensures Height(depth, components) == None
  {
    if i == |components| {
      assert components[..i] == components;
    } else {
      HeightNext(depth, components, |components| - 1);
      assert components[..|components| - 1][..i] == components[..i] && components[..|components|] == components;
      OutForGood(depth, components[..|components| - 1], i);
    }
  }

  /** One component applied to the stack of directories. */
  method PushOrPop(collapsed: Path, component: string) returns (next: Option<Path>)
    ensures next.Some? <==> ControlFree(component) && (component == ".." ==> collapsed != [])
    ensures next.Some? ==> |next.value| == if component == ".." then |collapsed| - 1 else |collapsed| + 1
  {
    if component == ".." { return if collapsed == [] then None else Some(collapsed[..|collapsed| - 1]); }
    if exists k :: 0 <= k < |component| && Control(component[k]) { return None; }
    return Some(collapsed + [component]);
  }

  /** _validate_symlink_target. */
  method ValidateTarget(member: Path, raw: string) returns (ok: bool)
    ensures ok <==> SafeTarget(ParentDepth(member), raw)
  {
    if raw == "" || '\\' in raw || '\0' in raw { return false; }
    if raw[0] == '/' { return false; }
    var depth := ParentDepth(member);
    var collapsed := member[..depth];
    var components := Parts(raw);
    var i := 0;
    while i < |components|
      invariant i <= |components|
      invariant Height(depth, components[..i]) == Some(|collapsed|)
      invariant forall j :: 0 <= j < i ==> ControlFree(components[j])
    {
      HeightNext(depth, components, i);
      var next := PushOrPop(collapsed, components[i]);
      if next == None {
        if ControlFree(components[i]) { OutForGood(depth, components, i + 1); }
        return false;
      }
      collapsed := next.value;
      i := i + 1;
    }
    assert components[..i] == components;
    return collapsed != [];
  }

  // ---------- members ----------

  datatype Kind = Directory | Regular | Symlink | Other

  /** An archive member: header fields, and the bytes that reading it yields. */
  datatype Member = Member(name: string, kind: Kind, size: int, link: string, specialBits: bool, content: Bytes)

  /** A member with its normal path. */
  datatype Entry = Entry(member: Member, path: Path)

  function Tools(): set<Path> {
    {["bin", "BinaryDelta"], ["bin", "generate_appcast"], ["bin", "generate_keys"], ["bin", "sign_update"]}
  }

  predicate Selected(path: Path) {
    path == ["LICENSE"] || (|path| >= 2 && path[0] == "Sparkle.framework") || path in Tools()
  }

  function ToolNames(): set<string> {
    {"bin/" + "BinaryDelta", "bin/" + "generate_appcast", "bin/" + "generate_keys", "bin/" + "sign_update"}
  }

  predicate StartsWith(text: string, prefix: string) { |prefix| <= |text| && text[..|prefix|] == prefix }

  /** In terms of the spelled name: the license, whatever lies in the framework, the tools. */
  lemma SelectedByName(path: Path)
    requires SafePath(path) && path != []
    ensures Selected(path) <==>
              || Spelled(path) == "LICENSE" || StartsWith(Spelled(path), "Sparkle.framework/")
              || Spelled(path) in ToolNames()
  {
    Flat(path, "LICENSE");
    InFolder(path, "Sparkle.framework");
    ToolsByName(path);
  }

  lemma ToolsByName(path: Path)
    requires SafePath(path) && path != []
    ensures path in Tools() <==> Spelled(path) in ToolNames()
  {
    ToolByName(path, "BinaryDelta");
    ToolByName(path, "generate_appcast");
    ToolByName(path, "generate_keys");
    ToolByName(path, "sign_update");
  }

  lemma ToolByName(path: Path, name: string)
    requires SafePath(path) && path != [] && '/' !in name
    ensures path == ["bin", name] <==> Spelled(path) == "bin/" + name
  {
    InFolder(path, "bin");
    if |path| >= 2 {
      Flat(path[1..], name);
      assert path == ["bin", name] <==> path[0] == "bin" && path[1..] == [name];
      assert path[0] == "bin" ==> Spelled(path)[4..] == Spelled(path[1..]);
      assert ("bin/" + name)[4..] == name;
    }
  }

  /** A spelling without slashes is that of a single component. */
  lemma Flat(path: Path, name: string)
    requires SafePath(path) && path != [] && '/' !in name
    ensures path == [name] <==> Spelled(path) == name
  {
    if |path| >= 2 { assert Spelled(path)[|path[0]|] == '/'; }
  }

  lemma InFolder(path: Path, folder: string)
    requires SafePath(path) && path != [] && '/' !in folder
    ensures StartsWith(Spelled(path), folder + "/") <==> |path| >= 2 && path[0] == folder
  {
    var text := Spelled(path);
    CutSpelled(path[0], Spelled(path[1..]));
    if StartsWith(text, folder + "/") {
      var rest := text[|folder| + 1..];
      assert text == (folder + "/") + rest == folder + ['/'] + rest;
      CutSpelled(folder, rest);
    }
    if |path| >= 2 && path[0] == folder {
      assert text == (folder + "/") + Spelled(path[1..]);
    }
  }

  function SelectedOf(entries: seq<Entry>): seq<Entry> {
    if entries == [] then []
    else SelectedOf(entries[..|entries| - 1]) +
         (if Selected(entries[|entries| - 1].path) then [entries[|entries| - 1]] else [])
  }

  function Normalized(members: seq<Member>): seq<Entry> {
    if members == [] then []
    else
      var m := members[|members| - 1];
      Normalized(members[..|members| - 1]) + (match NormalName(m.name) case Some(p) => [Entry(m, p)] case None => [])
  }

  function PathsOf(entries: seq<Entry>): set<Path> { set e | e in entries :: e.path }

  function LinksOf(entries: seq<Entry>): set<Path> { set e | e in entries && e.member.kind == Symlink :: e.path }

  function SizeOf(members: seq<Member>): int {
    if members == [] then 0
    else
      var m := members[|members| - 1];
      SizeOf(members[..|members| - 1]) + (if m.kind == Regular then m.size else 0)
  }

  /** What the first pass asks of one member on its own. */
  predicate MemberOk(m: Member) {
    && NormalName(m.name).Some?
    && m.kind != Other && !m.specialBits
    && (m.kind == Regular ==> 0 <= m.size <= MAX_MEMBER_BYTES)
    && (m.kind == Symlink ==> SafeTarget(ParentDepth(NormalName(m.name).value), m.link))
  }

  /** What the first pass asks of all of them: each in order, no path twice, and not too
      much data. */
  predicate FirstPass(members: seq<Member>) {
    members == [] ||
    var front, m := members[..|members| - 1], members[|members| - 1];
    && FirstPass(front) && MemberOk(m)
    && NormalName(m.name).value !in PathsOf(Normalized(front))
    && (m.kind == Regular ==> SizeOf(members) <= MAX_EXPANDED_BYTES)
  }

  /** No path is listed twice. */
  ghost predicate DistinctPaths(entries: seq<Entry>) {
    forall i, j :: 0 <= i < j < |entries| ==> entries[i].path != entries[j].path
  }

  ghost predicate AllOk(members: seq<Member>) { forall i :: 0 <= i < |members| ==> MemberOk(members[i]) }

  lemma AllOkNext(members: seq<Member>)
    requires members != []
    ensures AllOk(members) <==> AllOk(members[..|members| - 1]) && MemberOk(members[|members| - 1])
  {
    var front := members[..|members| - 1];
    assert forall i :: 0 <= i < |front| ==> front[i] == members[i];
  }

  lemma DistinctNext(entries: seq<Entry>, e: Entry)
    ensures DistinctPaths(entries + [e]) <==> DistinctPaths(entries) && e.path !in PathsOf(entries)
  {
    var all := entries + [e];
    assert forall i :: 0 <= i < |entries| ==> all[i] == entries[i];
    if e.path in PathsOf(entries) {
      var i :| 0 <= i < |entries| && entries[i].path == e.path;
      assert all[i].path == all[|entries|].path;
    } else {
      assert forall i :: 0 <= i < |entries| ==> entries[i] in entries;
    }
  }

  lemma {:induction false} SizesGrow(members: seq<Member>)
    requires AllOk(members)
    ensures SizeOf(members) >= 0
    ensures members != [] ==> SizeOf(members[..|members| - 1]) <= SizeOf(members)
  {
    if members != [] {
      AllOkNext(members);
      SizesGrow(members[..|members| - 1]);
    }
  }

  /** The member-by-member checks come to this, whatever the order of the members: each
      is acceptable alone, their paths differ, and together they are not too large. */
  lemma {:induction false} FirstPassExactly(members: seq<Member>)
    ensures FirstPass(members) <==>
              AllOk(members) && DistinctPaths(Normalized(members)) && SizeOf(members) <= MAX_EXPANDED_BYTES
  {
    if members != [] {
      var front, m := members[..|members| - 1], members[|members| - 1];
      FirstPassExactly(front);
      AllOkNext(members);
      if AllOk(members) {
        SizesGrow(members);
        DistinctNext(Normalized(front), Entry(m, NormalName(m.name).value));
      }
    }
  }

  /** No proper prefix of the path is among the links. */
  predicate NotBelow(path: Path, links: set<Path>) { forall d :: 1 <= d < |path| ==> path[..d] !in links }

  predicate NoneBelowLinks(entries: seq<Entry>, links: set<Path>) {
    forall i :: 0 <= i < |entries| && entries[i].member.kind != Symlink ==> NotBelow(entries[i].path, links)
  }

  predicate ArchiveOk(members: seq<Member>, required: set<Path>) {
    && |members| <= MAX_MEMBERS && FirstPass(members)
    && NoneBelowLinks(Normalized(members), LinksOf(Normalized(members)))
    && required <= PathsOf(SelectedOf(Normalized(members)))
  }

  lemma NormalizedNext(members: seq<Member>, i: nat)
    requires i < |members| && NormalName(members[i].name).Some?
    ensures Normalized(members[..i + 1]) == Normalized(members[..i])
              + [Entry(members[i], NormalName(members[i].name).value)]
    ensures SizeOf(members[..i + 1]) == SizeOf(members[..i])
              + (if members[i].kind == Regular then members[i].size else 0)
  {
    assert members[..i + 1][..i] == members[..i];
  }

  lemma FirstPassNext(members: seq<Member>, i: nat)
    requires i < |members|
    ensures FirstPass(members[..i + 1]) <==>
      && FirstPass(members[..i]) && MemberOk(members[i])
      && NormalName(members[i].name).value !in PathsOf(Normalized(members[..i]))
      && (members[i].kind == Regular ==> SizeOf(members[..i + 1]) <= MAX_EXPANDED_BYTES)
  {
    assert members[..i + 1][..i] == members[..i];
  }

  lemma {:induction false} FirstPassPrefix(members: seq<Member>, i: nat)
    requires i <= |members| && !FirstPass(members[..i])
    ensures !FirstPass(members)
  {
    if i == |members| {
      assert members[..i] == members;
    } else {
      assert members[..|members| - 1][..i] == members[..i];
      FirstPassPrefix(members[..|members| - 1], i);
    }
  }

  /** The checks on one member once its path is known to be new. */
  method CheckMember(m: Member, path: Path, expanded: int) returns (ok: bool, total: int)
    requires NormalName(m.name) == Some(path)
    ensures total == expanded + if m.kind == Regular then m.size else 0
    ensures ok <==> MemberOk(m) && (m.kind == Regular ==> total <= MAX_EXPANDED_BYTES)
  {
    total := if m.kind == Regular then expanded + m.size else expanded;
    ok := false;
    match m.kind {
      case Directory =>
      case Regular =>
        if m.size < 0 || m.size > MAX_MEMBER_BYTES { return; }
        if total > MAX_EXPANDED_BYTES { return; }
      case Symlink =>
        var safe := ValidateTarget(path, m.link);
        if !safe { return; }
      case Other => return;
    }
    ok := !m.specialBits;
  }

  /** What the first loop keeps: the normalized members, their paths, the links among
      them and the bytes announced. */
  datatype Tally = Tally(normalized: seq<Entry>, seen: set<Path>, symlinks: set<Path>, expanded: int)

  ghost function TallyOf(members: seq<Member>): Tally {
    var entries := Normalized(members);
    Tally(entries, PathsOf(entries), LinksOf(entries), SizeOf(members))
  }

  lemma TallyNext(members: seq<Member>, i: nat)
    requires i < |members| && NormalName(members[i].name).Some?
    ensures var t, m, path := TallyOf(members[..i]), members[i], NormalName(members[i].name).value;
      TallyOf(members[..i + 1]) ==
        Tally(t.normalized + [Entry(m, path)], t.seen + {path}, t.symlinks + (if m.kind == Symlink then {path} else {}),
              t.expanded + if m.kind == Regular then m.size else 0)
  {
    NormalizedNext(members, i);
    SetsGrow(Normalized(members[..i]), Entry(members[i], NormalName(members[i].name).value));
  }

  /** One pass through the first loop. */
  method AddMember(members: seq<Member>, i: nat, tally: Tally) returns (next: Option<Tally>)
    requires i < |members| && tally == TallyOf(members[..i]) && FirstPass(members[..i])
    ensures next.Some? <==> FirstPass(members[..i + 1])
    ensures next.Some? ==> next.value == TallyOf(members[..i + 1])
  {
    var m := members[i];
    FirstPassNext(members, i);
    var name := NormalName(m.name);
    if name == None { return None; }
    var path := name.value;
    TallyNext(members, i);
    if path in tally.seen { return None; }
    var ok, expanded := CheckMember(m, path, tally.expanded);
    if !ok { return None; }
    var symlinks := if m.kind == Symlink then {path} else {};
    return Some(Tally(tally.normalized + [Entry(m, path)], tally.seen + {path}, tally.symlinks + symlinks, expanded));
  }

  lemma NothingTallied(members: seq<Member>)
    ensures FirstPass(members[..0]) && TallyOf(members[..0]) == Tally([], {}, {}, 0)
  {
    assert members[..0] == [];
  }

  /** The first loop of validated_archive_members. */
  method Normalize(members: seq<Member>) returns (result: Option<Tally>)
    ensures result.Some? <==> FirstPass(members)
    ensures result.Some? ==> result.value == TallyOf(members)
  {
    var tally := Tally([], {}, {}, 0);
    NothingTallied(members);
    var i := 0;
    while i < |members|
      invariant i <= |members| && FirstPass(members[..i])
      invariant tally == TallyOf(members[..i])
    {
      var next := AddMember(members, i, tally);
      if next == None {
        FirstPassPrefix(members, i + 1);
        return None;
      }
      tally := next.value;
      i := i + 1;
    }
    assert members[..i] == members;
    return Some(tally);
  }

  lemma SetsGrow(entries: seq<Entry>, e: Entry)
    ensures PathsOf(entries + [e]) == PathsOf(entries) + {e.path}
    ensures LinksOf(entries + [e]) == LinksOf(entries) + if e.member.kind == Symlink then {e.path} else {}
  {
  }

  method CheckNotBelow(path: Path, symlinks: set<Path>) returns (ok: bool)
    ensures ok <==> NotBelow(path, symlinks)
  {
    var depth := 1;
    while depth < |path|
      invariant forall d :: 1 <= d < depth && d < |path| ==> path[..d] !in symlinks
    {
      if path[..depth] in symlinks { return false; }
      depth := depth + 1;
    }
    return true;
  }

  method CheckNesting(entries: seq<Entry>, symlinks: set<Path>) returns (ok: bool)
    ensures ok <==> NoneBelowLinks(entries, symlinks)
  {
    var i := 0;
    while i < |entries|
      invariant i <= |entries|
      invariant forall j :: 0 <= j < i && entries[j].member.kind != Symlink ==> NotBelow(entries[j].path, symlinks)
    {
      if entries[i].member.kind != Symlink {
        var apart := CheckNotBelow(entries[i].path, symlinks);
        if !apart { return false; }
      }
      i := i + 1;
    }
    return true;
  }

  /** validated_archive_members, over already opened headers. */
  method ValidateMembers(members: seq<Member>, required: set<Path>) returns (selected: Option<seq<Entry>>)
    ensures selected.Some? <==> ArchiveOk(members, required)
    ensures selected.Some? ==> selected.value == SelectedOf(Normalized(members))
  {
    if |members| > MAX_MEMBERS { return None; }
    var tally := Normalize(members);
    if tally == None { return None; }
    var ok := CheckNesting(tally.value.normalized, tally.value.symlinks);
    if !ok { return None; }
    var chosen := SelectedOf(tally.value.normalized);
    if !(required <= PathsOf(chosen)) { return None; }
    return Some(chosen);
  }
}
