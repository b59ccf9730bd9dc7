/**
 * The live process tree of an owned run: seven processes with fixed parents, and any
 * number of helpers that must descend from Ninja.
 */
module ProcessSpine {
  import opened Wrappers
  import opened Sequences

  datatype Role =
    | Leader | AutoninjaShell | Tee | Launcher | Python | Ninja | Caffeinate
    | Dynamic
    | Unknown

  const EXPECTED_ROLES := {Leader, AutoninjaShell, Tee, Launcher, Python, Ninja, Caffeinate}

  datatype Process = Process(role: Role, pid: int, ppid: int, pgid: int)

  type ByPid = map<int, Process>

  // ---------- dictionaries over a list ----------

  /** {key: item for ...}: a later item replaces an earlier one with its key. */
  function Keyed<K(==,!new)>(keys: seq<K>, items: seq<Process>): (m: map<K, Process>)
    requires |keys| == |items|
    ensures |m| <= |keys| && forall k :: k in m <==> k in keys
  {
    if keys == [] then map[]
    else
      var last := |keys| - 1;
      var m := Keyed(keys[..last], items[..last]);
      assert m[keys[last] := items[last]].Keys == m.Keys + {keys[last]};
      m[keys[last] := items[last]]
  }

  /** The dictionary is as large as the list exactly when no key repeats. */
  lemma {:induction false} KeyedExactly<K(!new)>(keys: seq<K>, items: seq<Process>)
    requires |keys| == |items|
    ensures |Keyed(keys, items)| == |keys| <==> Distinct(keys)
  {
    if keys != [] {
      var last := |keys| - 1;
      var m := Keyed(keys[..last], items[..last]);
      KeyedExactly(keys[..last], items[..last]);
      DistinctLast(keys);
      assert Keyed(keys, items).Keys == m.Keys + {keys[last]};
      assert |Keyed(keys, items)| == |m.Keys + {keys[last]}| && |m| == |m.Keys|;
    }
  }

  lemma KeyedLast<K(!new)>(keys: seq<K>, items: seq<Process>)
    requires |keys| == |items| && keys != []
    ensures var last := |keys| - 1; Keyed(keys, items) == Keyed(keys[..last], items[..last])[keys[last] := items[last]]
  {
  }

  /** Of keys that do not repeat each leads to its own item. */
  lemma {:induction false} KeyedAt<K(!new)>(keys: seq<K>, items: seq<Process>, i: nat)
    requires |keys| == |items| && i < |keys| && Distinct(keys)
    ensures Keyed(keys, items)[keys[i]] == items[i]
  {
    var last := |keys| - 1;
    KeyedLast(keys, items);
    if i < last {
      assert keys[..last][i] == keys[i] && keys[i] != keys[last] && items[..last][i] == items[i];
      DistinctLast(keys);
      KeyedAt(keys[..last], items[..last], i);
    }
  }

  // ---------- roles ----------

  function Count(members: seq<Process>, role: Role): nat {
    if members == [] then 0 else (if members[0].role == role then 1 else 0) + Count(members[1..], role)
  }

  /** The first member with a role. */
  function Find(members: seq<Process>, role: Role): (p: Process)
    requires Count(members, role) > 0
    ensures p in members && p.role == role
  {
    if members[0].role == role then members[0] else Find(members[1..], role)
  }

  /** Every expected role is there exactly once. */
  ghost predicate RolesComplete(members: seq<Process>) { forall r :: r in EXPECTED_ROLES ==> Count(members, r) == 1 }

  ghost predicate RolesKnown(members: seq<Process>) { forall i :: 0 <= i < |members| ==> members[i].role != Unknown }

  /** The members with an expected role, or those that are dynamic. */
  function Select(members: seq<Process>, dynamic: bool): (r: seq<Process>)
    ensures |r| <= |members|
  {
    if members == [] then []
    else if (if dynamic then members[0].role == Dynamic else members[0].role in EXPECTED_ROLES)
    then [members[0]] + Select(members[1..], dynamic)
    else Select(members[1..], dynamic)
  }

  function Roles(members: seq<Process>): (r: seq<Role>)
    ensures |r| == |members| && forall i :: 0 <= i < |r| ==> r[i] == members[i].role
  {
    seq(|members|, i requires 0 <= i < |members| => members[i].role)
  }

  function Pids(members: seq<Process>): (r: seq<int>)
    ensures |r| == |members| && forall i :: 0 <= i < |r| ==> r[i] == members[i].pid
  {
    seq(|members|, i requires 0 <= i < |members| => members[i].pid)
  }

  lemma {:induction false} SelectSizes(members: seq<Process>)
    ensures |Select(members, false)| + |Select(members, true)| == |members| <==> RolesKnown(members)
    ensures |Select(members, false)| + |Select(members, true)| <= |members|
  {
    if members != [] {
      var rest := members[1..];
      SelectSizes(rest);
      assert RolesKnown(members) <==> members[0].role != Unknown && RolesKnown(rest) by {
        assert forall i :: 0 <= i < |rest| ==> rest[i] == members[i + 1];
        assert forall i :: 0 < i < |members| ==> members[i] == rest[i - 1];
      }
    }
  }

  lemma {:induction false} SelectCounts(members: seq<Process>, role: Role)
    requires role in EXPECTED_ROLES
    ensures Count(Select(members, false), role) == Count(members, role)
    ensures Count(members, role) > 0 ==> Find(Select(members, false), role) == Find(members, role)
  {
    if members != [] {
      SelectCounts(members[1..], role);
      var s := Select(members[1..], false);
      assert ([members[0]] + s)[1..] == s;
    }
  }

  lemma {:induction false} SelectRoles(members: seq<Process>)
    ensures forall p :: p in Select(members, false) ==> p.role in EXPECTED_ROLES
    ensures forall p :: p in Select(members, true) <==> p in members && p.role == Dynamic
  {
    if members != [] { SelectRoles(members[1..]); }
  }

  /** The position of the only member with a role. */
  lemma {:induction false} CountedAt(members: seq<Process>, role: Role) returns (i: nat)
    requires Count(members, role) > 0
    ensures i < |members| && members[i] == Find(members, role)
    ensures forall j :: 0 <= j < i ==> members[j].role != role
    ensures Count(members, role) == 1 <==> forall j :: i < j < |members| ==> members[j].role != role
  {
    var rest := members[1..];
    if members[0].role == role {
      i := 0;
      NoneCounted(rest, role);
      assert forall j :: 0 < j < |members| ==> members[j] == rest[j - 1];
    } else {
      var k := CountedAt(rest, role);
      i := k + 1;
      assert forall j :: 0 < j < |members| ==> members[j] == rest[j - 1];
    }
  }

  lemma {:induction false} NoneCounted(members: seq<Process>, role: Role)
    ensures Count(members, role) == 0 <==> forall j :: 0 <= j < |members| ==> members[j].role != role
  {
    if members != [] {
      NoneCounted(members[1..], role);
      assert forall j :: 0 < j < |members| ==> members[j] == members[1..][j - 1];
    }
  }

  // ---------- ancestry ----------

  /** The pid `n` parents up, as long as the chain stays among the members. */
  function Ancestor(tree: ByPid, pid: int, n: nat): (r: Option<int>)
    ensures r.Some? ==> r.value in tree
    decreases n
  {
    if pid !in tree then None
    else if n == 0 then Some(pid)
    else Ancestor(tree, tree[pid].ppid, n - 1)
  }

  lemma {:induction false} AncestorPlus(tree: ByPid, pid: int, m: nat, n: nat)
    requires Ancestor(tree, pid, m).Some?
    ensures Ancestor(tree, pid, m + n) == Ancestor(tree, Ancestor(tree, pid, m).value, n)
    decreases m
  {
    if m > 0 { AncestorPlus(tree, tree[pid].ppid, m - 1, n); }
  }

  ghost predicate Reaches(tree: ByPid, pid: int, goal: int) { exists n :: Ancestor(tree, pid, n) == Some(goal) }

  /** The chain gets to a process that is no member before it gets to the goal. */
  ghost predicate Leaves(tree: ByPid, pid: int, goal: int) {
    !Reaches(tree, pid, goal) && exists n :: Ancestor(tree, pid, n) == None
  }

  /** The chain goes on among the members for ever without getting to the goal. */
  ghost predicate Circles(tree: ByPid, pid: int, goal: int) {
    forall n :: Ancestor(tree, pid, n).Some? && Ancestor(tree, pid, n) != Some(goal)
  }

  /** A chain that comes back somewhere never gets anywhere new. */
  lemma {:induction false} ChainRepeats(tree: ByPid, pid: int, i: nat, j: nat, n: nat) returns (k: nat)
    requires i < j && Ancestor(tree, pid, i).Some? && Ancestor(tree, pid, i) == Ancestor(tree, pid, j)
    ensures k < j && Ancestor(tree, pid, n) == Ancestor(tree, pid, k)
    decreases n
  {
    if n < j {
      k := n;
    } else {
      AncestorPlus(tree, pid, j, n - j);
      AncestorPlus(tree, pid, i, n - j);
      k := ChainRepeats(tree, pid, i, j, n - (j - i));
    }
  }

  lemma CycleCircles(tree: ByPid, pid: int, goal: int, i: nat, j: nat)
    requires i < j && Ancestor(tree, pid, i) == Ancestor(tree, pid, j)
    requires forall k :: 0 <= k <= j ==> Ancestor(tree, pid, k).Some? && Ancestor(tree, pid, k) != Some(goal)
    ensures Circles(tree, pid, goal)
  {
    forall n: nat ensures Ancestor(tree, pid, n).Some? && Ancestor(tree, pid, n) != Some(goal) {
      var k := ChainRepeats(tree, pid, i, j, n);
    }
  }

  lemma LeftForGood(tree: ByPid, pid: int, goal: int, n: nat)
    requires Ancestor(tree, pid, n) == None
    requires forall k :: 0 <= k < n ==> Ancestor(tree, pid, k) != Some(goal)
    ensures Leaves(tree, pid, goal)
  {
    if k: nat :| Ancestor(tree, pid, k) == Some(goal) {
      AncestorStays(tree, pid, n, k);
    }
  }

  lemma {:induction false} AncestorStays(tree: ByPid, pid: int, n: nat, k: nat)
    requires n <= k && Ancestor(tree, pid, n) == None
    ensures Ancestor(tree, pid, k) == None
    decreases n
  {
    if pid in tree { AncestorStays(tree, tree[pid].ppid, n - 1, k - 1); }
  }

  datatype Walk = AtGoal | InCycle | Outside

  predicate Indexed(tree: ByPid) { forall p :: p in tree ==> tree[p].pid == p }

  /** The cursor loop. It ends, and how it ends says exactly what the whole chain does. */
  method WalkUp(tree: ByPid, item: Process, goal: int) returns (walk: Walk)
    requires Indexed(tree) && item.pid in tree && tree[item.pid] == item
    ensures walk == AtGoal <==> Reaches(tree, item.pid, goal)
    ensures walk == Outside <==> Leaves(tree, item.pid, goal)
    ensures walk == InCycle <==> Circles(tree, item.pid, goal)
  {
    var cursor := item;
    var visited: set<int> := {};
    ghost var n: nat := 0;
    while cursor.pid != goal
      invariant Ancestor(tree, item.pid, n) == Some(cursor.pid) && tree[cursor.pid] == cursor
      invariant visited <= tree.Keys
      invariant forall k :: 0 <= k < n ==>
                  Ancestor(tree, item.pid, k).Some? && Ancestor(tree, item.pid, k) != Some(goal)
      invariant forall p :: p in visited ==> exists k :: 0 <= k < n && Ancestor(tree, item.pid, k) == Some(p)
      decreases |tree.Keys - visited|
    {
      if cursor.pid in visited {
        ghost var i :| 0 <= i < n && Ancestor(tree, item.pid, i) == Some(cursor.pid);
        CycleCircles(tree, item.pid, goal, i, n);
        return InCycle;
      }
      Shrinks(tree.Keys, visited, cursor.pid);
      visited := visited + {cursor.pid};
      AncestorPlus(tree, item.pid, n, 1);
      if cursor.ppid !in tree {
        LeftForGood(tree, item.pid, goal, n + 1);
        return Outside;
      }
      assert forall p :: p in visited ==> exists k :: 0 <= k < n + 1 && Ancestor(tree, item.pid, k) == Some(p);
      cursor := tree[cursor.ppid];
      n := n + 1;
    }
    return AtGoal;
  }

  lemma Shrinks(all: set<int>, visited: set<int>, p: int)
    requires p in all && p !in visited
    ensures |all - (visited + {p})| < |all - visited|
  {
    assert all - visited == (all - (visited + {p})) + {p};
  }

  // ---------- the spine ----------

  /** The fixed parents and the process group. */
  ghost predicate ChainHolds(members: seq<Process>, leaderPid: int)
    requires RolesComplete(members)
  {
    && Find(members, Leader).pid == leaderPid
    && Find(members, AutoninjaShell).ppid == leaderPid
    && Find(members, Tee).ppid == leaderPid
    && Find(members, Launcher).ppid == Find(members, AutoninjaShell).pid
    && Find(members, Python).ppid == Find(members, Launcher).pid
    && Find(members, Ninja).ppid == Find(members, Python).pid
    && Find(members, Caffeinate).ppid == Find(members, Ninja).pid
    && forall i :: 0 <= i < |members| ==> members[i].pgid == leaderPid
  }

  function MembersByPid(members: seq<Process>): ByPid { Keyed(Pids(members), members) }

  lemma MembersIndexed(members: seq<Process>)
    requires Distinct(Pids(members))
    ensures Indexed(MembersByPid(members))
    ensures forall p :: p in members ==> p.pid in MembersByPid(members) && MembersByPid(members)[p.pid] == p
  {
    forall i | 0 <= i < |members| ensures members[i].pid in Pids(members)
                                          && MembersByPid(members)[members[i].pid] == members[i] {
      assert Pids(members)[i] == members[i].pid;
      KeyedAt(Pids(members), members, i);
    }
    forall q | q in MembersByPid(members) ensures MembersByPid(members)[q].pid == q {
      var i :| 0 <= i < |members| && Pids(members)[i] == q;
    }
  }

  /** What everything but the helpers' ancestry comes to. */
  ghost predicate Framed(members: seq<Process>, leaderPid: int) {
    && RolesKnown(members) && RolesComplete(members) && ChainHolds(members, leaderPid) && Distinct(Pids(members))
  }

  ghost predicate AllReachNinja(members: seq<Process>)
    requires RolesComplete(members)
  {
    forall p :: p in members && p.role == Dynamic ==> Reaches(MembersByPid(members), p.pid, Find(members, Ninja).pid)
  }

  lemma ParentReaches(tree: ByPid, pid: int, goal: int)
    requires pid in tree && Reaches(tree, tree[pid].ppid, goal)
    ensures Reaches(tree, pid, goal)
  {
    var n: nat :| Ancestor(tree, tree[pid].ppid, n) == Some(goal);
    assert Ancestor(tree, pid, n + 1) == Some(goal);
  }

  lemma ReachesOn(tree: ByPid, pid: int, middle: int, goal: int)
    requires Reaches(tree, pid, middle) && Reaches(tree, middle, goal)
    ensures Reaches(tree, pid, goal)
  {
    var m: nat :| Ancestor(tree, pid, m) == Some(middle);
    var n: nat :| Ancestor(tree, middle, n) == Some(goal);
    AncestorPlus(tree, pid, m, n);
  }

  /** The role of the fixed parent of a fixed process. */
  function ParentRole(role: Role): Role {
    match role
    case Launcher => AutoninjaShell
    case Python => Launcher
    case Ninja => Python
    case Caffeinate => Ninja
    case _ => Leader
  }

  lemma MemberIndexed(members: seq<Process>, p: Process)
    requires Distinct(Pids(members)) && p in members
    ensures p.pid in MembersByPid(members) && MembersByPid(members)[p.pid] == p
  {
    MembersIndexed(members);
  }

  lemma FixedParent(members: seq<Process>, leaderPid: int, role: Role)
    requires Framed(members, leaderPid) && role in EXPECTED_ROLES && role != Leader
    ensures Find(members, role).ppid == Find(members, ParentRole(role)).pid
  {
  }

  /** The chain, role by role: the leader is the one that is asked for, every other fixed
      process hangs below its fixed parent, and every member, helpers included, is in the
      leader's group. */
  lemma ChainExactly(members: seq<Process>, leaderPid: int)
    requires RolesComplete(members)
    ensures ChainHolds(members, leaderPid) <==>
              && Find(members, Leader).pid == leaderPid
              && (forall r :: r in EXPECTED_ROLES && r != Leader ==>
                    Find(members, r).ppid == Find(members, ParentRole(r)).pid)
              && (forall p :: p in members ==> p.pgid == leaderPid)
  {
    GroupExactly(members, leaderPid);
    ParentsExactly(members);
  }

  lemma GroupExactly(members: seq<Process>, leaderPid: int)
    ensures (forall p :: p in members ==> p.pgid == leaderPid) <==>
              forall i :: 0 <= i < |members| ==> members[i].pgid == leaderPid
  {
  }

  lemma ParentsExactly(members: seq<Process>)
    requires RolesComplete(members)
    ensures (forall r :: r in EXPECTED_ROLES && r != Leader ==>
               Find(members, r).ppid == Find(members, ParentRole(r)).pid)
            <==>
            && Find(members, AutoninjaShell).ppid == Find(members, Leader).pid
            && Find(members, Tee).ppid == Find(members, Leader).pid
            && Find(members, Launcher).ppid == Find(members, AutoninjaShell).pid
            && Find(members, Python).ppid == Find(members, Launcher).pid
            && Find(members, Ninja).ppid == Find(members, Python).pid
            && Find(members, Caffeinate).ppid == Find(members, Ninja).pid
  {
  }

  /** The tree that the fixed processes form. */
  lemma ParentsSpelledOut()
    ensures ParentRole(AutoninjaShell) == Leader && ParentRole(Tee) == Leader
    ensures ParentRole(Launcher) == AutoninjaShell && ParentRole(Python) == Launcher
    ensures ParentRole(Ninja) == Python && ParentRole(Caffeinate) == Ninja
  {
  }

  function Depth(role: Role): nat {
    match role
    case Leader => 0
    case Launcher => 2
    case Python => 3
    case Ninja => 4
    case Caffeinate => 5
    case _ => 1
  }

  lemma LeaderReaches(members: seq<Process>, leaderPid: int)
    requires Framed(members, leaderPid)
    ensures Reaches(MembersByPid(members), Find(members, Leader).pid, leaderPid)
  {
    var tree, p := MembersByPid(members), Find(members, Leader);
    MemberIndexed(members, p);
    assert Ancestor(tree, p.pid, 0) == Some(leaderPid);
  }

  lemma FixedFollows(members: seq<Process>, leaderPid: int, role: Role)
    requires Framed(members, leaderPid) && role in EXPECTED_ROLES && role != Leader
    requires Reaches(MembersByPid(members), Find(members, ParentRole(role)).pid, leaderPid)
    ensures Reaches(MembersByPid(members), Find(members, role).pid, leaderPid)
  {
    MemberIndexed(members, Find(members, role));
    FixedParent(members, leaderPid, role);
    ParentReaches(MembersByPid(members), Find(members, role).pid, leaderPid);
  }

  /** In a framed spine the seven fixed processes descend from the leader. */
  lemma {:induction false} FixedReachLeader(members: seq<Process>, leaderPid: int, role: Role)
    requires Framed(members, leaderPid) && role in EXPECTED_ROLES
    ensures Reaches(MembersByPid(members), Find(members, role).pid, leaderPid)
    decreases Depth(role)
  {
    if role == Leader {
      LeaderReaches(members, leaderPid);
    } else {
      FixedReachLeader(members, leaderPid, ParentRole(role));
      FixedFollows(members, leaderPid, role);
    }
  }

  /** An accepted spine is one tree: every member's chain of parents ends at the group
      leader. */
  lemma AcceptedReachLeader(members: seq<Process>, leaderPid: int, p: Process)
    requires Framed(members, leaderPid) && AllReachNinja(members) && p in members
    ensures Reaches(MembersByPid(members), p.pid, leaderPid)
  {
    if p.role == Dynamic {
      FixedReachLeader(members, leaderPid, Ninja);
      ReachesOn(MembersByPid(members), p.pid, Find(members, Ninja).pid, leaderPid);
    } else {
      var i := CountedAt(members, p.role);
      FixedReachLeader(members, leaderPid, p.role);
    }
  }

  datatype SpineExit = Accepted | UnknownRole | RolesIncomplete | ChainMismatch | DuplicatePids | Cycle | Detached

  /** The dictionary of roles has the seven expected keys and as many entries as there
      are stable members exactly when every role is there once. */
  lemma RoleTable(members: seq<Process>)
    ensures var stable := Select(members, false); var table := Keyed(Roles(stable), stable);
      && (|table| == |stable| && table.Keys == EXPECTED_ROLES <==> RolesComplete(members))
      && (RolesComplete(members) ==> forall r :: r in EXPECTED_ROLES ==> r in table && table[r] == Find(members, r))
  {
    var stable := Select(members, false);
    var table := Keyed(Roles(stable), stable);
    KeyedExactly(Roles(stable), stable);
    if Distinct(Roles(stable)) && table.Keys == EXPECTED_ROLES {
      forall r | r in EXPECTED_ROLES ensures Count(members, r) == 1 { OnceEach(members, r); }
    }
    if RolesComplete(members) { TableComplete(members); }
  }

  lemma OnceEach(members: seq<Process>, r: Role)
    requires r in EXPECTED_ROLES && r in Roles(Select(members, false)) && Distinct(Roles(Select(members, false)))
    ensures Count(members, r) == 1
  {
    var stable := Select(members, false);
    SelectCounts(members, r);
    NoneCounted(stable, r);
    var i := CountedAt(stable, r);
    assert forall j :: i < j < |stable| ==> Roles(stable)[i] != Roles(stable)[j];
  }

  lemma StableRole(members: seq<Process>, i: nat)
    requires i < |Select(members, false)|
    ensures Select(members, false)[i].role in EXPECTED_ROLES
  {
    SelectRoles(members);
    assert Select(members, false)[i] in Select(members, false);
  }

  lemma RolesDiffer(members: seq<Process>, i: nat, j: nat)
    requires RolesComplete(members) && i < j < |Select(members, false)|
    ensures Select(members, false)[i].role != Select(members, false)[j].role
  {
    var stable := Select(members, false);
    var r := stable[i].role;
    StableRole(members, i);
    SelectCounts(members, r);
    var k := CountedAt(stable, r);
  }

  lemma RoleListed(members: seq<Process>, r: Role)
    requires RolesComplete(members) && r in EXPECTED_ROLES && Distinct(Roles(Select(members, false)))
    ensures var stable := Select(members, false);
      r in Roles(stable) && Keyed(Roles(stable), stable)[r] == Find(members, r)
  {
    var stable := Select(members, false);
    SelectCounts(members, r);
    var k := CountedAt(stable, r);
    assert Roles(stable)[k] == r;
    KeyedAt(Roles(stable), stable, k);
  }

  lemma RolesDistinct(members: seq<Process>)
    requires RolesComplete(members)
    ensures Distinct(Roles(Select(members, false)))
  {
    var stable := Select(members, false);
    forall i, j | 0 <= i < j < |stable| ensures Roles(stable)[i] != Roles(stable)[j] { RolesDiffer(members, i, j); }
  }

  lemma RolesExpected(members: seq<Process>, r: Role)
    requires r in Roles(Select(members, false))
    ensures r in EXPECTED_ROLES
  {
    var i :| 0 <= i < |Select(members, false)| && Roles(Select(members, false))[i] == r;
    StableRole(members, i);
  }

  lemma TableComplete(members: seq<Process>)
    requires RolesComplete(members)
    ensures var stable := Select(members, false); var table := Keyed(Roles(stable), stable);
      && Distinct(Roles(stable)) && table.Keys == EXPECTED_ROLES
      && forall r :: r in EXPECTED_ROLES ==> r in table && table[r] == Find(members, r)
  {
    var stable := Select(members, false);
    RolesDistinct(members);
    var table := Keyed(Roles(stable), stable);
    forall r | r in EXPECTED_ROLES ensures r in table && table[r] == Find(members, r) { RoleListed(members, r); }
    forall r | r in table ensures r in EXPECTED_ROLES { RolesExpected(members, r); }
  }

  method ChainMatches(members: seq<Process>, leaderPid: int, table: map<Role, Process>) returns (holds: bool)
    requires RolesComplete(members) && forall r :: r in EXPECTED_ROLES ==> r in table && table[r] == Find(members, r)
    ensures holds <==> ChainHolds(members, leaderPid)
  {
    var leader, shell, tee, launcher := table[Leader], table[AutoninjaShell], table[Tee], table[Launcher];
    var python, ninja, caffeinate := table[Python], table[Ninja], table[Caffeinate];
    holds := !(leader.pid != leaderPid || leader.pgid != leaderPid || shell.ppid != leaderPid || tee.ppid != leaderPid
            || launcher.ppid != shell.pid || python.ppid != launcher.pid || ninja.ppid != python.pid
            || caffeinate.ppid != ninja.pid || exists i :: 0 <= i < |members| && members[i].pgid != leaderPid);
  }

  /** The first helper that does not reach the goal, and why it does not. */
  ghost predicate Astray(tree: ByPid, dynamic: seq<Process>, i: int, goal: int, exit: SpineExit) {
    && 0 <= i < |dynamic| && !Reaches(tree, dynamic[i].pid, goal)
    && (forall j :: 0 <= j < i ==> Reaches(tree, dynamic[j].pid, goal))
    && (exit == Cycle <==> Circles(tree, dynamic[i].pid, goal))
    && (exit == Detached <==> Leaves(tree, dynamic[i].pid, goal))
  }

  /** The loop over the dynamic members. */
  method CheckAncestry(dynamic: seq<Process>, tree: ByPid, goal: int) returns (exit: SpineExit)
    requires Indexed(tree) && forall i :: 0 <= i < |dynamic| ==>
               dynamic[i].pid in tree && tree[dynamic[i].pid] == dynamic[i]
    ensures exit == Accepted <==> forall p :: p in dynamic ==> Reaches(tree, p.pid, goal)
    ensures exit != Accepted ==> (exit == Cycle || exit == Detached) && exists i :: Astray(tree, dynamic, i, goal, exit)
  {
    var i := 0;
    while i < |dynamic|
      invariant i <= |dynamic| && forall j :: 0 <= j < i ==> Reaches(tree, dynamic[j].pid, goal)
    {
      var walk := WalkUp(tree, dynamic[i], goal);
      if walk != AtGoal {
        exit := if walk == InCycle then Cycle else Detached;
        assert Astray(tree, dynamic, i, goal, exit);
        return;
      }
      i := i + 1;
    }
    return Accepted;
  }

  /** _validate_spine up to the ancestry of the helpers. */
  method ValidateSpine(members: seq<Process>, leaderPid: int) returns (exit: SpineExit)
    ensures exit == UnknownRole <==> !RolesKnown(members)
    ensures exit == RolesIncomplete <==> RolesKnown(members) && !RolesComplete(members)
    ensures exit == ChainMismatch <==> RolesKnown(members) && RolesComplete(members) && !ChainHolds(members, leaderPid)
    ensures exit == DuplicatePids <==> RolesKnown(members) && RolesComplete(members) && ChainHolds(members, leaderPid)
                                       && !Distinct(Pids(members))
    ensures exit == Accepted <==> Framed(members, leaderPid) && AllReachNinja(members)
    ensures exit == Accepted ==>
              forall p :: p in members ==> p.pgid == leaderPid && Reaches(MembersByPid(members), p.pid, leaderPid)
    ensures exit == Cycle || exit == Detached ==>
              && Framed(members, leaderPid)
              && exists i :: Astray(MembersByPid(members), Select(members, true), i, Find(members, Ninja).pid, exit)
  {
    var stable, dynamic := Select(members, false), Select(members, true);
    SelectSizes(members);
    if |stable| + |dynamic| != |members| { return UnknownRole; }
    var byRole := Keyed(Roles(stable), stable);
    RoleTable(members);
    if |byRole| != |stable| || byRole.Keys != EXPECTED_ROLES { return RolesIncomplete; }
    var matches := ChainMatches(members, leaderPid, byRole);
    if !matches { return ChainMismatch; }
    var byPid := Keyed(Pids(members), members);
    KeyedExactly(Pids(members), members);
    if |byPid| != |members| { return DuplicatePids; }
    HelpersIndexed(members);
    exit := CheckAncestry(dynamic, byPid, byRole[Ninja].pid);
    SelectRoles(members);
    assert exit == Accepted <==> AllReachNinja(members);
    if exit == Accepted {
      AllReachLeader(members, leaderPid);
      ChainExactly(members, leaderPid);
    }
  }

  lemma HelpersIndexed(members: seq<Process>)
    requires Distinct(Pids(members))
    ensures var tree, dynamic := MembersByPid(members), Select(members, true);
      && Indexed(tree) && forall i :: 0 <= i < |dynamic| ==>
           dynamic[i].pid in tree && tree[dynamic[i].pid] == dynamic[i]
  {
    MembersIndexed(members);
    SelectRoles(members);
  }

  lemma AllReachLeader(members: seq<Process>, leaderPid: int)
    requires Framed(members, leaderPid) && AllReachNinja(members)
    ensures forall p :: p in members ==> Reaches(MembersByPid(members), p.pid, leaderPid)
  {
    forall p | p in members ensures Reaches(MembersByPid(members), p.pid, leaderPid) {
      AcceptedReachLeader(members, leaderPid, p);
    }
  }
}
