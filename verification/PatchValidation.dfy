/**
 * Validation of a whole patch series against files held in memory: which files it
 * needs, what each file operation does to them, and the search of a commit log for
 * the fallback repository.
 */
module PatchValidation {
  import opened Wrappers
  import opened PatchEngine

  type Path = string
  datatype OperationKind = AddFile | RemoveFile | ModifyFile

  /** One patched file of a patch. */
  datatype Operation = Operation(kind: OperationKind, path: Path, hunks: seq<Hunk>)

  /** `None` marks a file that a patch removed. */
  type Files = map<Path, Option<seq<Text>>>

  datatype Applied = Applied(files: Files, ok: bool)

  function Texts(body: seq<Line>): (r: seq<Text>)
    ensures |r| == |body| && forall i :: 0 <= i < |r| ==> r[i] == body[i].text
  {
    if body == [] then [] else [body[0].text] + Texts(body[1..])
  }

  predicate RemovesNothing(h: Hunk) { forall i :: 0 <= i < |h.body| ==> !h.body[i].kind.Removed? }

  /** Hunks that never look at the lines they are applied to. */
  predicate AllIdle(hunks: seq<Hunk>) {
    forall i :: 0 <= i < |hunks| ==>
      IsValid(hunks[i]) && forall k :: 0 <= k < |hunks[i].body| ==> hunks[i].body[k].kind.Note?
  }

  /** What _apply_file_unidiff makes of the files; a failed operation leaves the lines
      as far as it got. */
  function ApplyOperation(files: Files, op: Operation): Applied {
    if op.kind.AddFile? then
      if (op.path in files && files[op.path].Some?) || |op.hunks| != 1 || !RemovesNothing(op.hunks[0])
         || op.hunks[0].targetStart != 1
      then Applied(files, false)
      else Applied(files[op.path := Some(Texts(op.hunks[0].body))], true)
    else if op.path !in files then Applied(files, false)
    else if files[op.path] == None then Applied(files, AllIdle(op.hunks))
    else
      var r := Apply(files[op.path].value, op.hunks);
      if r.error.Some? then Applied(files[op.path := Some(r.lines)], false)
      else Applied(files[op.path := if op.kind.RemoveFile? then None else Some(r.lines)], true)
  }

  /** The operations in order, up to the first that fails. */
  function ApplyAll(files: Files, ops: seq<Operation>): Applied
    decreases |ops|
  {
    if ops == [] then Applied(files, true)
    else
      var a := ApplyOperation(files, ops[0]);
      if !a.ok then a else ApplyAll(a.files, ops[1..])
  }

  class FilesUnderTest {
    var files: Files

    constructor (files: Files)
      ensures this.files == files
    {
      this.files := files;
    }

    /** _apply_file_unidiff. */
    method ApplyFile(op: Operation) returns (ok: bool)
      modifies this
      ensures Applied(files, ok) == ApplyOperation(old(files), op)
    {
      if op.kind.AddFile? {
        if op.path in files && files[op.path].Some? { return false; }
        if |op.hunks| != 1 || !RemovesNothing(op.hunks[0]) || op.hunks[0].targetStart != 1 { return false; }
        files := files[op.path := Some(Texts(op.hunks[0].body))];
        return true;
      }
      if op.path !in files { return false; }
      if files[op.path] == None {
        ok := Pass(op.hunks);
        return;
      }
      var content := new FileLines(files[op.path].value);
      var error := content.Modify(op.hunks);
      files := files[op.path := Some(content.lines)];
      if error.Some? { return false; }
      if op.kind.RemoveFile? { files := files[op.path := None]; }
      return true;
    }

    /** The hunks on a removed file, which has no lines to look at. */
    method Pass(hunks: seq<Hunk>) returns (ok: bool)
      ensures ok <==> AllIdle(hunks)
    {
      for i := 0 to |hunks|
        invariant AllIdle(hunks[..i])
      {
        if !IsValid(hunks[i]) { return false; }
        var body := hunks[i].body;
        for k := 0 to |body|
          invariant forall j :: 0 <= j < k ==> body[j].kind.Note?
        {
          if !body[k].kind.Note? { return false; }
        }
      }
      assert hunks[..|hunks|] == hunks;
      return true;
    }

    /** _test_patches: true when some operation failed. */
    method TestPatches(ops: seq<Operation>) returns (failed: bool)
      modifies this
      ensures Applied(files, !failed) == ApplyAll(old(files), ops)
    {
      var i := 0;
      while i < |ops|
        invariant i <= |ops|
        invariant ApplyAll(files, ops[i..]) == ApplyAll(old(files), ops)
      {
        assert ops[i..][0] == ops[i] && ops[i..][1..] == ops[i + 1..];
        var ok := ApplyFile(ops[i]);
        if !ok { return true; }
        i := i + 1;
      }
      assert ops[i..] == [];
      return false;
    }
  }

  // ---------- what a series leaves behind ----------

  /** A file operation touches its own file only, and passes exactly if it can be made:
      an addition of one hunk without removals, from the first line on, to a name that is
      free; any other on a file that is there and that its hunks fit. */
  lemma OperationPasses(files: Files, op: Operation)
    ensures var after := ApplyOperation(files, op).files;
      forall p :: p != op.path ==> (p in after <==> p in files) && (p in files ==> after[p] == files[p])
    ensures op.kind.AddFile? ==>
              (ApplyOperation(files, op).ok <==>
                && (op.path in files ==> files[op.path] == None)
                && |op.hunks| == 1 && op.hunks[0].targetStart == 1
                && forall k :: 0 <= k < |op.hunks[0].body| ==> !op.hunks[0].body[k].kind.Removed?)
    ensures !op.kind.AddFile? && op.path in files && files[op.path].Some? ==>
              (ApplyOperation(files, op).ok <==> Apply(files[op.path].value, op.hunks).error == None)
    ensures !op.kind.AddFile? && op.path !in files ==> ApplyOperation(files, op) == Applied(files, false)
  {
  }

  /** What a passed operation leaves of its file: an added one has the lines of its hunk, a
      removed one is gone, and a modified one has what its hunks make of it. */
  lemma OperationLeaves(files: Files, op: Operation)
    requires ApplyOperation(files, op).ok
    ensures var after := ApplyOperation(files, op).files;
      && op.path in after
      && (op.kind.AddFile? ==>
            && op.hunks != [] && after[op.path].Some? && |after[op.path].value| == |op.hunks[0].body|
            && forall k :: 0 <= k < |op.hunks[0].body| ==> after[op.path].value[k] == op.hunks[0].body[k].text)
      && (op.kind.RemoveFile? ==> after[op.path] == None)
      && (op.kind.ModifyFile? ==>
            after[op.path] ==
              if files[op.path] == None then None else Some(Apply(files[op.path].value, op.hunks).lines))
  {
  }

  lemma {:induction false} UntouchedStays(files: Files, ops: seq<Operation>, path: Path)
    requires forall i :: 0 <= i < |ops| ==> ops[i].path != path
    ensures var after := ApplyAll(files, ops).files;
      (path in after <==> path in files) && (path in files ==> after[path] == files[path])
    decreases |ops|
  {
    if ops != [] {
      OperationPasses(files, ops[0]);
      UntouchedStays(ApplyOperation(files, ops[0]).files, ops[1..], path);
    }
  }

  /** Of a series that runs to its end, the last operation on a file decides what is left
      of it. */
  lemma {:induction false} LastOperationDecides(files: Files, ops: seq<Operation>, i: nat)
    requires ApplyAll(files, ops).ok && i < |ops|
    requires forall j :: i < j < |ops| ==> ops[j].path != ops[i].path
    ensures var after, op := ApplyAll(files, ops).files, ops[i];
      && op.path in after
      && (op.kind.RemoveFile? ==> after[op.path] == None)
      && (op.kind.AddFile? ==>
            && op.hunks != [] && after[op.path].Some? && |after[op.path].value| == |op.hunks[0].body|
            && forall k :: 0 <= k < |op.hunks[0].body| ==> after[op.path].value[k] == op.hunks[0].body[k].text)
    decreases |ops|
  {
    var next := ApplyOperation(files, ops[0]).files;
    if i == 0 {
      OperationLeaves(files, ops[0]);
      UntouchedStays(next, ops[1..], ops[0].path);
    } else {
      assert ops[1..][i - 1] == ops[i];
      LastOperationDecides(next, ops[1..], i - 1);
    }
  }

  // ---------- which files the series needs ----------

  /** The operation at `i` needs the file: it adds none, and none before it does. */
  ghost predicate NeedsAt(ops: seq<Operation>, i: nat, path: Path) {
    && i < |ops| && ops[i].path == path && !ops[i].kind.AddFile?
    && forall j :: 0 <= j < i ==> !(ops[j].path == path && ops[j].kind.AddFile?)
  }

  /** The first operation on the path, if any, is not an addition. */
  ghost predicate NeedsFirst(ops: seq<Operation>, path: Path) { exists i: nat :: NeedsAt(ops, i, path) }

  lemma NeedsAtPrefix(ops: seq<Operation>, n: nat, i: nat, path: Path)
    requires i < n <= |ops|
    ensures NeedsAt(ops[..n], i, path) <==> NeedsAt(ops, i, path)
  {
    assert forall j :: 0 <= j < n ==> ops[..n][j] == ops[j];
  }

  lemma NeedsAtTail(ops: seq<Operation>, i: nat, path: Path)
    requires ops != [] && !(ops[0].path == path && ops[0].kind.AddFile?)
    ensures NeedsAt(ops[1..], i, path) <==> NeedsAt(ops, i + 1, path)
  {
    assert forall j :: 0 < j < |ops| ==> ops[j] == ops[1..][j - 1];
    if NeedsAt(ops, i + 1, path) {
      forall j | 0 <= j < i ensures !(ops[1..][j].path == path && ops[1..][j].kind.AddFile?) {
        assert ops[1..][j] == ops[j + 1];
      }
    }
  }

  /** _get_required_files. */
  method RequiredFiles(ops: seq<Operation>) returns (required: set<Path>)
    ensures forall path :: path in required <==> NeedsFirst(ops, path)
  {
    var added: set<Path> := {};
    required := {};
    var i := 0;
    while i < |ops|
      invariant i <= |ops|
      invariant forall path :: path in added <==> exists j :: 0 <= j < i && ops[j].path == path && ops[j].kind.AddFile?
      invariant forall path :: path in required <==> NeedsFirst(ops[..i], path)
    {
      ghost var before := required;
      if ops[i].kind.AddFile? {
        added := added + {ops[i].path};
      } else if ops[i].path !in added {
        required := required + {ops[i].path};
      }
      NeedsFirstGrows(ops, i);
      i := i + 1;
    }
    assert ops[..i] == ops;
  }

  lemma NeedsFirstGrows(ops: seq<Operation>, i: nat)
    requires i < |ops|
    ensures forall path :: NeedsFirst(ops[..i + 1], path) <==> NeedsFirst(ops[..i], path) || NeedsAt(ops, i, path)
  {
    forall path
      ensures NeedsFirst(ops[..i + 1], path) <==> NeedsFirst(ops[..i], path) || NeedsAt(ops, i, path)
    {
      if NeedsFirst(ops[..i], path) {
        var k: nat :| NeedsAt(ops[..i], k, path);
        NeedsAtPrefix(ops, i, k, path);
        NeedsAtPrefix(ops, i + 1, k, path);
      }
      if NeedsFirst(ops[..i + 1], path) {
        var k: nat :| NeedsAt(ops[..i + 1], k, path);
        NeedsAtPrefix(ops, i + 1, k, path);
        if k < i { NeedsAtPrefix(ops, i, k, path); }
      }
      NeedsAtPrefix(ops, i + 1, i, path);
    }
  }

  /** No operation that is reached looks for a file that was never provided. */
  predicate NeverMissing(files: Files, ops: seq<Operation>)
    decreases |ops|
  {
    ops != [] ==>
      && (ops[0].kind.AddFile? || ops[0].path in files)
      && (ApplyOperation(files, ops[0]).ok ==> NeverMissing(ApplyOperation(files, ops[0]).files, ops[1..]))
  }

  lemma NeedsFirstTail(ops: seq<Operation>, path: Path)
    requires ops != []
    ensures NeedsFirst(ops, path) <==>
              || (ops[0].path == path && !ops[0].kind.AddFile?)
              || (!(ops[0].path == path && ops[0].kind.AddFile?) && NeedsFirst(ops[1..], path))
  {
    if ops[0].path == path && !ops[0].kind.AddFile? { assert NeedsAt(ops, 0, path); }
    if NeedsFirst(ops[1..], path) && !(ops[0].path == path && ops[0].kind.AddFile?) {
      var k: nat :| NeedsAt(ops[1..], k, path);
      NeedsAtTail(ops, k, path);
    }
    if NeedsFirst(ops, path) {
      var k: nat :| NeedsAt(ops, k, path);
      if k > 0 { NeedsAtTail(ops, k - 1, path); }
    }
  }

  /** Providing the required files suffices for every prefix the validation reaches. */
  lemma {:induction false} RequiredSuffices(files: Files, ops: seq<Operation>)
    requires forall path :: NeedsFirst(ops, path) ==> path in files
    ensures NeverMissing(files, ops)
    decreases |ops|
  {
    if ops != [] {
      NeedsFirstTail(ops, ops[0].path);
      var a := ApplyOperation(files, ops[0]);
      if a.ok {
        forall path | NeedsFirst(ops[1..], path)
          ensures path in a.files
        {
          NeedsFirstTail(ops, path);
        }
        RequiredSuffices(a.files, ops[1..]);
      }
    }
  }

  /** The first operation on the path is no addition and looks at no line. */
  predicate FirstIdle(ops: seq<Operation>, path: Path)
    decreases |ops|
  {
    ops != [] &&
    if ops[0].path == path then !ops[0].kind.AddFile? && AllIdle(ops[0].hunks) else FirstIdle(ops[1..], path)
  }

  /** And none of them is superfluous: a series that runs to its end needed them all,
      and with their lines, unless its first operation on the file looks at none. */
  lemma {:induction false} RequiredNecessary(files: Files, ops: seq<Operation>, path: Path)
    requires ApplyAll(files, ops).ok && NeedsFirst(ops, path)
    ensures path in files && (files[path] == None ==> FirstIdle(ops, path))
    decreases |ops|
  {
    if ops != [] {
      NeedsFirstTail(ops, path);
      if !(ops[0].path == path && !ops[0].kind.AddFile?) {
        RequiredNecessary(ApplyOperation(files, ops[0]).files, ops[1..], path);
      }
    }
  }

  // ---------- the commit log ----------

  /** Commit dates, newest first. */
  predicate NewestFirst(dates: seq<int>) { forall i, j :: 0 <= i <= j < |dates| ==> dates[i] >= dates[j] }

  /** `best` is the newest commit that is not after the target. */
  predicate IsNewestBefore(dates: seq<int>, target: int, best: nat) {
    best < |dates| && dates[best] <= target && forall i :: 0 <= i < best ==> dates[i] > target
  }

  /** The last index probed when the bounds of the search meet. */
  function LastProbe(dates: seq<int>, target: int, low: nat, high: nat, probed: nat): nat
    requires low <= high < |dates|
    decreases high - low
  {
    if low == high then probed
    else
      var middle := low + (high - low) / 2;
      if dates[middle] > target then LastProbe(dates, target, middle + 1, high, middle)
      else LastProbe(dates, target, low, middle, middle)
  }

  /** Whether halving `low..high` towards `best` probes just before `best` last. */
  predicate LastProbeBefore(low: nat, high: nat, best: nat)
    requires low <= best <= high
    decreases high - low
  {
    low < high &&
    var middle := low + (high - low) / 2;
    if best > middle then middle + 1 == high || LastProbeBefore(middle + 1, high, best)
    else low < middle && LastProbeBefore(low, middle, best)
  }

  /** The search answers with its last probe rather than with where its bounds met:
      the right commit exactly when the halving does not end just before it. */
  lemma {:induction false} LastProbeExactly(dates: seq<int>, target: int, low: nat, high: nat, probed: nat, best: nat)
    requires NewestFirst(dates) && low < high < |dates| && low <= best <= high && IsNewestBefore(dates, target, best)
    ensures LastProbe(dates, target, low, high, probed) == if LastProbeBefore(low, high, best) then best - 1 else best
    decreases high - low
  {
    var middle := low + (high - low) / 2;
    if best > middle {
      if middle + 1 < high { LastProbeExactly(dates, target, middle + 1, high, middle, best); }
    } else {
      assert dates[middle] <= target;
      if low < middle { LastProbeExactly(dates, target, low, middle, middle, best); }
    }
  }

  /** Two commits suffice to get one that is after the target. */
  lemma LastProbeOvershoots()
    ensures NewestFirst([3, 1]) && IsNewestBefore([3, 1], 2, 1) && LastProbe([3, 1], 2, 0, 1, 1) == 0
  {
    assert LastProbe([3, 1], 2, 1, 1, 0) == 0;
  }

  /** _get_gitiles_commit_before_date, as an index into the log, whatever the order of
      its dates; what the answer means in a log with the newest date first. */
  method CommitBeforeDate(dates: seq<int>, target: int) returns (r: nat)
    requires dates != []
    ensures r < |dates|
    ensures r == if dates[0] < target then 0
                 else if dates[|dates| - 1] > target then |dates| - 1
                 else LastProbe(dates, target, 0, |dates| - 1, |dates| - 1)
    ensures dates[0] < target ==> IsNewestBefore(dates, target, r)
    ensures NewestFirst(dates) ==>
              forall best: nat :: IsNewestBefore(dates, target, best) && dates[0] >= target ==>
                r == if LastProbeBefore(0, |dates| - 1, best) then best - 1 else best
  {
    if dates[0] < target { return 0; }
    if dates[|dates| - 1] > target {
      assert NewestFirst(dates) ==> forall best: nat :: best < |dates| ==> dates[best] >= dates[|dates| - 1];
      return |dates| - 1;
    }
    var low, high := 0, |dates| - 1;
    r := high;
    while low != high
      invariant 0 <= low <= high < |dates| && r < |dates|
      invariant LastProbe(dates, target, low, high, r) == LastProbe(dates, target, 0, |dates| - 1, |dates| - 1)
    {
      r := low + (high - low) / 2;
      if dates[r] > target { low := r + 1; } else { high := r; }
    }
    forall best: nat | NewestFirst(dates) && IsNewestBefore(dates, target, best)
      ensures r == if LastProbeBefore(0, |dates| - 1, best) then best - 1 else best
    {
      if |dates| > 1 { LastProbeExactly(dates, target, 0, |dates| - 1, |dates| - 1, best); }
    }
  }
}
