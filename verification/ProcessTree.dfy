/** kernel/fork.c and kernel/exit.c, as far as they touch the process tree.  get_free_page and
    copy_page_tables may sleep in the middle of a fork; `env` says what happens then. */
module ProcessTree {
  import opened TreeModel
  import opened TreeSteps
  import opened TreeRuns

  const MAX_PID: int := 0x7FFF_FFFF
  const EAGAIN: int := 11
  const ECHILD: int := 10
  const ERESTARTSYS: int := 512

  // ---- process numbers ------------------------------------------------------------------------------

  /** The numbers that the task in a slot uses, as its own or as its group's. */
  function UsedBy(s: Tree, i: nat): set<int>
    requires i < |s.task|
  {
    if s.task[i] in s.t then {s.t[s.task[i]].pid, s.t[s.task[i]].pgrp} else {}
  }

  function UsedUpTo(s: Tree, n: nat): set<int>
    requires n <= |s.task|
  {
    if n == 0 then {} else UsedUpTo(s, n - 1) + UsedBy(s, n - 1)
  }

  lemma {:induction false} UsedIsSmall(s: Tree, n: nat)
    requires n <= |s.task|
    ensures |UsedUpTo(s, n)| <= 2 * n
  {
    if n > 0 {
      UsedIsSmall(s, n - 1);
      UnionSize(UsedUpTo(s, n - 1), UsedBy(s, n - 1));
    }
  }

  lemma UnionSize(a: set<int>, b: set<int>)
    ensures |a + b| <= |a| + |b|
  {
    assert a + b == a + (b - a);
    assert b == (b - a) + (a * b);
  }

  lemma {:induction false} UsedMeans(s: Tree, n: nat, x: int)
    requires n <= |s.task|
    ensures x in UsedUpTo(s, n) <==> exists i :: 0 <= i < n && x in UsedBy(s, i)
  {
    if n > 0 {
      UsedMeans(s, n - 1, x);
      if x in UsedUpTo(s, n - 1) {
        var i :| 0 <= i < n - 1 && x in UsedBy(s, i);
        assert x in UsedBy(s, i);
      }
    }
  }

  /** The k-th number tried after `from`; past the largest it starts again at 1. */
  function Nth(from: int, k: nat): int { if k == 0 then from else (from + k - 1) % MAX_PID + 1 }

  lemma NthStep(from: int, k: nat)
    requires 0 <= from <= MAX_PID && k <= 128
    ensures 0 <= Nth(from, k) <= MAX_PID && Nth(from, k + 1) == if Nth(from, k) + 1 > MAX_PID then 1 else Nth(from, k) + 1
  {
  }

  /** The numbers from `from` up to `to`, around the largest one. */
  ghost predicate Passed(from: int, q: int, to: int) { if from < to then from < q < to else from < q <= MAX_PID || 1 <= q < to }

  lemma PassedIsNth(from: int, n: nat, q: int) returns (k: nat)
    requires 0 <= from <= MAX_PID && 1 <= n <= 129 && Passed(from, q, Nth(from, n))
    ensures 1 <= k < n && Nth(from, k) == q
  {
    k := if from < q then q - from else q - from + MAX_PID;
  }

  /** Some task has the number, or belongs to the group of that number. */
  ghost predicate InUse(t: map<nat, Proc>, q: int) { exists u :: u in t && (t[u].pid == q || t[u].pgrp == q) }

  lemma {:induction false} NthDistinct(from: int, n: nat, used: set<int>)
    requires 0 <= from <= MAX_PID && n <= 129
    requires forall k | 1 <= k <= n :: Nth(from, k) in used
    ensures |used| >= n
    decreases n
  {
    if n > 0 {
      var rest := used - {Nth(from, n)};
      forall k | 1 <= k <= n - 1
        ensures Nth(from, k) in rest
      {
        assert Nth(from, k) != Nth(from, n);
      }
      NthDistinct(from, n - 1, rest);
    }
  }

  /** What the others leave, and what the call that slept returns: a page (0: none), or
      whether it failed. */
  datatype Outcome = Outcome(tree: Tree, lastPid: int, page: nat, failed: bool)

  ghost predicate Relied(s: Tree, l: Lay, cur: nat, p: nat, out: Outcome, m: Lay) {
    Kept(s, l, out.tree, m, cur, p) && 0 <= out.lastPid <= MAX_PID && out.page !in out.tree.t
  }

  ghost predicate Harmless(s: Tree, l: Lay, cur: nat, p: nat, out: Outcome) { exists m :: Relied(s, l, cur, p, out, m) }

  ghost predicate Lawful(env: (nat, Tree, int, nat, nat) -> Outcome) {
    forall n, s, l, last, cur, p {:trigger Harmless(s, l, cur, p, env(n, s, last, cur, p))} |
      Inv(s, l) && Kept(s, l, s, l, cur, p) && 0 <= last <= MAX_PID :: Harmless(s, l, cur, p, env(n, s, last, cur, p))
  }

  /** Any run of the others' forks, exits, reaps and signals is harmless in this sense. */
  lemma EveryRunIsHarmless(s: Tree, l: Lay, cur: nat, p: nat, deeds: seq<Deed>, g: Tree, m: Lay, out: Outcome)
    requires Kept(s, l, s, l, cur, p) && Leads(s, l, deeds, cur, p, g, m)
    requires out.tree == g && 0 <= out.lastPid <= MAX_PID && out.page !in g.t
    ensures Harmless(s, l, cur, p, out)
  {
    OthersKeep(s, l, deeds, cur, p, g, m);
    assert Relied(s, l, cur, p, out, m);
  }

  /** An environment that does nothing at all is one of those allowed. */
  lemma IdleIsLawful(env: (nat, Tree, int, nat, nat) -> Outcome)
    requires forall n, s, last, cur, p :: env(n, s, last, cur, p) == Outcome(s, last, 0, false)
    ensures Lawful(env)
  {
    forall n, s, l, last, cur, p | Inv(s, l) && Kept(s, l, s, l, cur, p) && 0 <= last <= MAX_PID
      ensures Harmless(s, l, cur, p, env(n, s, last, cur, p))
    {
      assert Relied(s, l, cur, p, env(n, s, last, cur, p), l);
    }
  }

  /** Init's fork has made its child 4 with number 3 and sleeps in copy_page_tables; task 3
      forks too, gets number 4 from find_empty_process and makes its child 5.  Init goes on,
      links its child in, and is told last_pid: the number of another task's child. */
  lemma ForkReturnsWrongNumber() returns (s: Tree, l: Lay, out: Outcome, m: Lay, f: Tree)
    ensures Inv(s, l) && 4 in l.making && 4 in s.t && s.t[4].pid == 3 && Kept(s, l, s, l, 2, 4)
    ensures Nth(3, 1) == 4 && forall u | u in s.t :: s.t[u].pid != 4 && s.t[u].pgrp != 4
    ensures Relied(s, l, 2, 4, out, m) && out.lastPid == 4 && CanLink(out.tree, m, 4, 2)
    ensures f == Joined(out.tree, 4, 2) && 4 in f.t && f.t[4].p == 2 && f.t[4].pid == 3
    ensures 5 in f.t && f.t[5].pid == out.lastPid
  {
    var g;
    s, l, g, m := TwoForks();
    out := Outcome(g, 4, 0, false);
    f := Joined(g, 4, 2);
    assert KidsOk(g, m, 2);
    assert m.kids[2] != [] ==> ChildOk(g, m, 2, 0);
  }

  lemma AdoptMore(t: map<nat, Proc>, kids: seq<nat>, w: nat, i: nat)
    requires i < |kids| && kids[i] in t
    ensures Adopted(t, kids[..i], w)[kids[i] := Adopted(t, kids[..i], w)[kids[i]].(p := w)] == Adopted(t, kids[..i + 1], w)
  {
    assert forall u :: u in kids[..i + 1] <==> u in kids[..i] || u == kids[i];
  }

  /** But for p, everybody has the children they had. */
  ghost predicate SameChildren(l: Lay, m: Lay, p: nat) {
    m.kids.Keys == l.kids.Keys - {p} && forall u | u in m.kids :: Without(l.kids[u], m.kids[u], p)
  }

  ghost predicate Without(ks: seq<nat>, ms: seq<nat>, p: nat) {
    if p in ks then exists i :: 0 <= i < |ks| && ks[i] == p && ms == ks[..i] + ks[i + 1..] else ms == ks
  }

  /** Number, group, state and exit code of everybody but p are as before. */
  ghost predicate SameFolk(t: map<nat, Proc>, g: map<nat, Proc>, p: nat) {
    forall u | u in g && u != p :: u in t && Alike(t[u], g[u])
  }

  ghost predicate AllAlike(t: map<nat, Proc>, g: map<nat, Proc>) {
    g.Keys == t.Keys && forall u | u in g :: Alike(t[u], g[u])
  }

  lemma ExitedFolk(s: Tree, cur: nat, kids: seq<nat>)
    requires |s.task| == NR_TASKS && cur in s.t
    ensures SameFolk(s.t, Exited(s, cur, kids).t, cur) && cur in Exited(s, cur, kids).t
    ensures Alike(s.t[cur].(state := Zombie), Exited(s, cur, kids).t[cur])
  {
    var t0 := s.t[cur := s.t[cur].(state := Zombie)];
    if kids != [] {
      assert AllAlike(t0, Adopted(t0, kids, Init(s)));
      JointFolk(Adopted(t0, kids, Init(s)), kids[|kids| - 1], cur, Init(s));
    }
  }

  lemma JointFolk(t: map<nat, Proc>, last: nat, cur: nat, w: nat)
    requires cur in t
    ensures AllAlike(t, Joint(t, last, cur, w))
  {
  }

  lemma JoinedFolk(s: Tree, p: nat, cur: nat)
    requires p in s.t && cur in s.t
    ensures SameFolk(s.t, Joined(s, p, cur).t, p)
  {
  }

  lemma ReapedFolk(s: Tree, nr: nat, p: nat)
    requires nr < |s.task| && p in s.t
    ensures SameFolk(s.t, Reaped(s, nr, p).t, p)
  {
  }

  lemma ParentOf(s: Tree, l: Lay, u: nat, v: nat)
    requires Inv(s, l) && u in l.kids && v in l.kids[u]
    ensures v in s.t && s.t[v].p == u
  {
    var j :| 0 <= j < |l.kids[u]| && l.kids[u][j] == v;
    assert KidsOk(s, l, u) && ChildOk(s, l, u, j);
  }

  ghost predicate Alike(a: Proc, b: Proc) { b.pid == a.pid && b.pgrp == a.pgrp && b.state == a.state && b.code == a.code }

  /** The call is about this child: its number is the one asked for, or its group is the
      caller's or the one asked for, or any child will do. */
  ghost predicate Asked(t: map<nat, Proc>, pid: int, u: nat, cur: nat)
    requires u in t && cur in t
  {
    && (pid > 0 ==> t[u].pid == pid)
    && (pid == 0 ==> t[u].pgrp == t[cur].pgrp)
    && (pid < -1 ==> t[u].pgrp == -pid)
  }

  /** A child that waitpid reports: a dead one, or with WUNTRACED a stopped one that was not
      reported yet. */
  ghost predicate Reportable(t: map<nat, Proc>, u: nat, untraced: bool)
    requires u in t
  {
    t[u].state.Zombie? || (t[u].state.Stopped? && untraced && t[u].code != 0)
  }

  /** The call has something to report; or at least somebody to wait for. */
  ghost predicate CanReport(s: Tree, l: Lay, cur: nat, pid: int, untraced: bool)
    requires Linked(l, cur) && cur in s.t
  {
    exists u :: u in l.kids[cur] && u in s.t && Asked(s.t, pid, u, cur) && Reportable(s.t, u, untraced)
  }

  /** One scan: the first n children have nothing to report that was asked for; the next one,
      who, has, or there is none. */
  ghost predicate Scanned(s: Tree, l: Lay, g: Tree, m: Lay, cur: nat, pid: int, untraced: bool, r: int, status: nat, who: nat, n: nat) {
    && Linked(l, cur) && cur in s.t && n <= |l.kids[cur]|
    && (forall k | 0 <= k < n :: l.kids[cur][k] in s.t && !(Reportable(s.t, l.kids[cur][k], untraced) && Asked(s.t, pid, l.kids[cur][k], cur)))
    && (who == 0 <==> n == |l.kids[cur]|)
    && (if who != 0 then Reported(s, l, g, m, cur, pid, untraced, r, status, who, n)
        else g == s && m == l && r == if LivingAsked(s, l, cur, pid) then 0 else -ECHILD)
  }

  /** What one scan says, in the fields of the tasks: the child reported is one that was asked
      for, dead or newly stopped; there is none exactly if no child asked for is so; and the
      error is given exactly if no child asked for is alive or to be reported. */
  ghost predicate Told(s: Tree, l: Lay, cur: nat, pid: int, untraced: bool, r: int, who: nat)
    requires Linked(l, cur) && cur in s.t
  {
    && (who != 0 ==> who in s.t && who in l.kids[cur] && s.t[who].p == cur && r == s.t[who].pid)
    && (who != 0 && pid > 0 ==> r == pid)
    && (who != 0 && pid == 0 ==> s.t[who].pgrp == s.t[cur].pgrp)
    && (who != 0 && pid < -1 ==> s.t[who].pgrp == -pid)
    && (who != 0 ==> s.t[who].state.Zombie? || (s.t[who].state.Stopped? && untraced && s.t[who].code != 0))
    && (who == 0 ==> r == 0 || r == -ECHILD)
    && (who == 0 ==> forall u | u in l.kids[cur] && u in s.t && (pid > 0 ==> s.t[u].pid == pid)
          && (pid == 0 ==> s.t[u].pgrp == s.t[cur].pgrp) && (pid < -1 ==> s.t[u].pgrp == -pid) ::
          !s.t[u].state.Zombie? && (s.t[u].state.Stopped? ==> !untraced || s.t[u].code == 0))
    && (who == 0 ==> (r == -ECHILD <==> forall u | u in l.kids[cur] && u in s.t && (pid > 0 ==> s.t[u].pid == pid)
          && (pid == 0 ==> s.t[u].pgrp == s.t[cur].pgrp) && (pid < -1 ==> s.t[u].pgrp == -pid) :: s.t[u].state.Stopped?))
  }

  lemma ScanSays(s: Tree, l: Lay, g: Tree, m: Lay, cur: nat, pid: int, untraced: bool, r: int, status: nat, who: nat, n: nat)
    requires Inv(s, l) && Scanned(s, l, g, m, cur, pid, untraced, r, status, who, n)
    ensures Told(s, l, cur, pid, untraced, r, who)
    ensures (who != 0 <==> CanReport(s, l, cur, pid, untraced)) && (who == 0 ==> (r == 0 <==> LivingAsked(s, l, cur, pid)))
  {
    var ks := l.kids[cur];
    if who != 0 {
      assert KidsOk(s, l, cur) && ChildOk(s, l, cur, n);
    } else {
      forall u | u in ks && u in s.t
        ensures !(Reportable(s.t, u, untraced) && Asked(s.t, pid, u, cur))
      {
        var k :| 0 <= k < |ks| && ks[k] == u;
      }
    }
  }

  ghost predicate LivingAsked(s: Tree, l: Lay, cur: nat, pid: int)
    requires Linked(l, cur) && cur in s.t
  {
    exists u :: u in l.kids[cur] && u in s.t && Asked(s.t, pid, u, cur) && !s.t[u].state.Stopped?
  }

  /** A dead child is reaped; a stopped one is marked as reported. */
  ghost predicate Reported(s: Tree, l: Lay, g: Tree, m: Lay, cur: nat, pid: int, untraced: bool, r: int, status: nat, who: nat, n: nat)
    requires Linked(l, cur) && cur in s.t
  {
    && n < |l.kids[cur]| && l.kids[cur][n] == who && who in s.t && Reportable(s.t, who, untraced) && Asked(s.t, pid, who, cur)
    && r == s.t[who].pid
    && (if s.t[who].state.Zombie? then status == s.t[who].code && g.t.Keys == s.t.Keys - {who} && SameChildren(l, m, who) && SameFolk(s.t, g.t, who)
        else status == 256 * s.t[who].code + 127 && m == l && g == s.(t := s.t[who := s.t[who].(code := 0)]))
  }

  /** The task has been kept since then, and can sleep. */
  ghost predicate Stays(s0: Tree, l0: Lay, s: Tree, l: Lay, cur: nat) { Kept(s0, l0, s, l, cur, 0) && Kept(s, l, s, l, cur, 0) }

  /** The sleep at that moment ended with a signal. */
  ghost predicate Signalled(env: (nat, Tree, int, nat, nat) -> Outcome, n: nat, cur: nat) {
    exists s, last {:trigger env(n, s, last, cur, 0)} :: env(n, s, last, cur, 0).failed
  }

  /** waitpid has a reason to sleep: nothing to report, but somebody to wait for. */
  ghost predicate MustWait(s: Tree, l: Lay, cur: nat, pid: int, untraced: bool, nohang: bool) {
    Linked(l, cur) && cur in s.t && !nohang && !CanReport(s, l, cur, pid, untraced) && LivingAsked(s, l, cur, pid)
  }

  /** The scan ends the call. */
  ghost predicate Answered(s: Tree, l: Lay, g: Tree, m: Lay, cur: nat, pid: int, untraced: bool, nohang: bool, r: int, status: nat, who: nat, n: nat) {
    && Scanned(s, l, g, m, cur, pid, untraced, r, status, who, n) && Told(s, l, cur, pid, untraced, r, who)
    && !MustWait(s, l, cur, pid, untraced, nohang)
  }

  /** How the call ends: by a scan, by a signal, or by running out of sleeps. */
  ghost predicate WaitEnds(s: Tree, l: Lay, g: Tree, m: Lay, cur: nat, pid: int, untraced: bool, nohang: bool, ok: bool, r: int, status: nat, who: nat, n: nat) {
    if ok && !Interrupted(r, who) then Answered(s, l, g, m, cur, pid, untraced, nohang, r, status, who, n)
    else g == s && m == l && who == 0 && (!ok ==> MustWait(s, l, cur, pid, untraced, nohang))
  }

  /** The call was ended by the signal, not by a scan. */
  ghost predicate Interrupted(r: int, who: nat) { who == 0 && r == -ERESTARTSYS }

  lemma KeptTransitive(s: Tree, l: Lay, s1: Tree, l1: Lay, s2: Tree, l2: Lay, cur: nat)
    requires Kept(s, l, s1, l1, cur, 0) && Kept(s1, l1, s2, l2, cur, 0)
    ensures Kept(s, l, s2, l2, cur, 0)
  {
  }

  class Kernel {
    const task: array<nat>
    var t: map<nat, Proc>
    var lastPid: int
    var clock: nat
    const env: (nat, Tree, int, nat, nat) -> Outcome
    ghost var lay: Lay

    function Snap(): Tree
      reads this, task
    {
      Tree(task[..], t)
    }

    ghost predicate Valid()
      reads this, task
    {
      task.Length == NR_TASKS && Inv(Snap(), lay) && Lawful(env) && 0 <= lastPid <= MAX_PID
    }

    /** Whether a slot holds a task with this number. */
    method Taken(pid: int) returns (yes: bool)
      requires task.Length == NR_TASKS && SlotsOk(Snap())
      ensures yes <==> pid in UsedUpTo(Snap(), NR_TASKS)
    {
      UsedMeans(Snap(), NR_TASKS, pid);
      var i := 0;
      while i < NR_TASKS
        invariant 0 <= i <= NR_TASKS && forall k | 0 <= k < i :: pid !in UsedBy(Snap(), k)
      {
        if task[i] != 0 && (t[task[i]].pid == pid || t[task[i]].pgrp == pid) {
          assert pid in UsedBy(Snap(), i);
          return true;
        }
        i := i + 1;
      }
      yes := false;
    }

    // fork.c:216-226
    method NextPid()
      requires task.Length == NR_TASKS && SlotsOk(Snap()) && 0 <= lastPid <= MAX_PID
      modifies this`lastPid
      ensures 1 <= lastPid <= MAX_PID && lastPid !in UsedUpTo(Snap(), NR_TASKS)
      ensures forall q | Passed(old(lastPid), q, lastPid) :: InUse(t, q)
    {
      var from := lastPid;
      ghost var n := 0;
      ghost var used := UsedUpTo(Snap(), NR_TASKS);
      UsedIsSmall(Snap(), NR_TASKS);
      var taken := true;
      while taken
        invariant 0 <= n <= 129 && lastPid == Nth(from, n) && 0 <= lastPid <= MAX_PID && (n > 0 ==> lastPid > 0)
        invariant forall k | 1 <= k < n :: Nth(from, k) in used
        invariant if n == 0 then taken else taken <==> lastPid in used
        decreases 129 - n, taken
      {
        if n == 129 {
          NthDistinct(from, 129, used);
        }
        NthStep(from, n);
        lastPid := lastPid + 1;
        if lastPid > MAX_PID {        // below zero in 32 bits
          lastPid := 1;
        }
        n := n + 1;
        taken := Taken(lastPid);
      }
      forall q | Passed(from, q, lastPid)
        ensures InUse(t, q)
      {
        var k := PassedIsNth(from, n, q);
        UsedMeans(Snap(), NR_TASKS, q);
      }
    }

    /** find_empty_process: the retry loop ends, with a number that no task and no group
        has, and the first empty slot. */
    method FindEmptyProcess() returns (nr: int)
      requires Valid()
      modifies this`lastPid
      ensures Valid() && 1 <= lastPid <= MAX_PID
      ensures forall u | u in t :: t[u].pid != lastPid && t[u].pgrp != lastPid
      ensures forall q | Passed(old(lastPid), q, lastPid) :: InUse(t, q)
      ensures nr == -EAGAIN || (1 < nr < NR_TASKS && task[nr] == 0 && forall k | 0 <= k < nr :: task[k] != 0)
      ensures nr == -EAGAIN ==> forall k | 0 <= k < NR_TASKS :: task[k] != 0
    {
      NextPid();
      forall u | u in t
        ensures t[u].pid != lastPid && t[u].pgrp != lastPid
      {
        var k :| 0 <= k < NR_TASKS && Snap().task[k] == u;
        UsedMeans(Snap(), NR_TASKS, lastPid);
        assert lastPid !in UsedBy(Snap(), k);
      }
      nr := FirstEmptySlot();
    }

    // fork.c:227-232
    method FirstEmptySlot() returns (nr: int)
      requires task.Length == NR_TASKS && task[0] != 0 && task[1] != 0
      ensures nr == -EAGAIN || (1 < nr < NR_TASKS && task[nr] == 0 && forall k | 0 <= k < nr :: task[k] != 0)
      ensures nr == -EAGAIN ==> forall k | 0 <= k < NR_TASKS :: task[k] != 0
    {
      nr := 1;
      while nr < NR_TASKS
        invariant 1 <= nr <= NR_TASKS && forall k | 0 <= k < nr :: task[k] != 0
      {
        if task[nr] == 0 {
          return;
        }
        nr := nr + 1;
      }
      return -EAGAIN;
    }

    method SetTree(g: Tree)
      requires task.Length == NR_TASKS == |g.task|
      modifies this`t, task
      ensures Snap() == g
    {
      t := g.t;
      forall i | 0 <= i < NR_TASKS {
        task[i] := g.task[i];
      }
      assert task[..] == g.task;
    }

    /** The others run while this fork waits. */
    method Sleep(cur: nat, p: nat) returns (page: nat, failed: bool)
      requires Valid() && Kept(Snap(), lay, Snap(), lay, cur, p)
      modifies this, task
      ensures Valid() && Kept(old(Snap()), old(lay), Snap(), lay, cur, p) && page !in t && clock == old(clock) + 1
      ensures var out := env(old(clock), old(Snap()), old(lastPid), cur, p);
        Snap() == out.tree && lastPid == out.lastPid && page == out.page && failed == out.failed
    {
      ghost var s := Snap();
      assert Harmless(s, lay, cur, p, env(clock, s, lastPid, cur, p));
      var out := env(clock, Snap(), lastPid, cur, p);
      ghost var m :| Relied(s, lay, cur, p, out, m);
      assert Relied(s, lay, cur, p, out, m);
      SetTree(out.tree);
      lastPid, lay, clock := out.lastPid, m, clock + 1;
      page, failed := out.page, out.failed;
    }

    /** copy_process, for a slot that find_empty_process chose.  If another fork took the
        slot while this one waited for memory, that fork's task drops out of task[] (clash),
        and the tree is not one any more; woke and pid are the state and the number that the
        new task was made with.  The parent is told last_pid as it is at the end: the child's
        number exactly if no other fork changed it while the memory was copied. */
    method CopyProcess(nr: nat, cur: nat) returns (r: int, clash: bool, ghost woke: Tree, ghost pid: int, ghost child: nat)
      requires Valid() && 1 < nr < NR_TASKS && Linked(lay, cur) && cur in t && cur != Idle(Snap()) && !t[cur].state.Zombie?
      modifies this, task
      ensures |woke.task| == NR_TASKS && (!clash ==> Valid())
      ensures woke == env(old(clock), old(Snap()), old(lastPid), cur, 0).tree && pid == env(old(clock), old(Snap()), old(lastPid), cur, 0).lastPid
      ensures child == env(old(clock), old(Snap()), old(lastPid), cur, 0).page && cur in woke.t
      ensures child == 0 ==> r == -EAGAIN && Snap() == woke
      ensures child != 0 && woke.task[nr] == 0 ==> (r == -EAGAIN <==> env(old(clock) + 1, Made(woke, nr, child, cur, pid), pid, cur, child).failed)
      ensures child != 0 && woke.task[nr] == 0 && r != -EAGAIN ==> child in t && t[child].state.Running? && t[child].pgrp == woke.t[cur].pgrp
      ensures child != 0 && woke.task[nr] == 0 && r != -EAGAIN ==>
        SameFolk(env(old(clock) + 1, Made(woke, nr, child, cur, pid), pid, cur, child).tree.t, t, child)
      ensures (clash <==> child != 0 && woke.task[nr] != 0) && (clash ==> r != -EAGAIN)
      ensures clash ==> cur in woke.t && Snap() == Made(woke, nr, child, cur, pid) && !Inv(Snap(), lay)
      ensures r == -EAGAIN ==> child !in t
      ensures r == -EAGAIN || clash || (r == lastPid && Linked(lay, child) && child in t && t[child].p == cur && t[child].pid == pid
        && !t[child].state.Zombie? && child !in woke.t && Linked(lay, cur) && lay.kids[cur] != [] && lay.kids[cur][0] == child)
    {
      clash, pid, child := false, 0, 0;
      var p, failed := Sleep(cur, 0);
      woke, pid := Snap(), lastPid;
      if p == 0 {
        return -EAGAIN, false, woke, pid, 0;
      }
      child := p;
      var mine := lastPid;
      if task[nr] != 0 {
        MakeOkIff(Snap(), lay, nr, p, cur, mine);
        task[nr] := p;
        t := t[p := t[cur].(pid := mine, state := Sleeping)];
        lay := MadeLay(lay, p);
        assert Snap() == Made(woke, nr, p, cur, mine);
        return 0, true, woke, pid, child;
      }
      r, failed := Half(nr, cur, p, mine);
    }

    lemma KeptCanLink(s: Tree, l: Lay, g: Tree, m: Lay, nr: nat, cur: nat, p: nat)
      requires Kept(s, l, g, m, cur, p) && p != 0 && nr < NR_TASKS && s.task[nr] == p && cur != Idle(s) && l.born[cur] < l.born[p]
      ensures CanLink(g, m, p, cur) && g.task[nr] == p
    {
    }

    // fork.c:117-191
    method Half(nr: nat, cur: nat, p: nat, pid: int) returns (r: int, failed: bool)
      requires Valid() && 1 < nr < NR_TASKS && Linked(lay, cur) && cur in t && cur != Idle(Snap()) && !t[cur].state.Zombie?
      requires task[nr] == 0 && p != 0 && p !in t && pid == lastPid
      modifies this, task
      ensures Valid() && (failed ==> r == -EAGAIN)
      ensures failed <==> env(old(clock), Made(old(Snap()), nr, p, cur, pid), pid, cur, p).failed
      ensures failed ==> p !in t
      ensures !failed ==> r == lastPid && Linked(lay, p) && p in t && t[p].p == cur && t[p].pid == pid && !t[p].state.Zombie?
      ensures !failed ==> t[p].state.Running? && t[p].pgrp == old(t)[cur].pgrp
      ensures !failed ==> SameFolk(env(old(clock), Made(old(Snap()), nr, p, cur, pid), pid, cur, p).tree.t, t, p)
      ensures !failed ==> Linked(lay, cur) && lay.kids[cur] != [] && lay.kids[cur][0] == p
    {
      Make(nr, cur, p, pid);
      ghost var s1, l1 := Snap(), lay;
      var unused;
      unused, failed := Sleep(cur, p);            // copy_mem
      KeptCanLink(s1, l1, Snap(), lay, nr, cur, p);
      if failed {
        Abort(nr, p);
        return -EAGAIN, true;
      }
      LinkIn(p, cur);
      r := lastPid;
    }

    // fork.c:156-158
    method Abort(nr: nat, p: nat)
      requires Valid() && nr < NR_TASKS && task[nr] == p && p in lay.making
      modifies this`t, this`lay, task
      ensures Valid() && Snap() == Unmade(old(Snap()), nr) && lay == UnmadeLay(old(lay), p)
    {
      ghost var s, l := Snap(), lay;
      UnmakeOk(s, l, nr);
      task[nr] := 0;
      t := t - {p};
      lay := UnmadeLay(l, p);
      assert Snap() == Unmade(s, nr);
    }

    // fork.c:117-125
    method Make(nr: nat, cur: nat, p: nat, pid: int)
      requires Valid() && 1 < nr < NR_TASKS && Linked(lay, cur) && cur in t && cur != Idle(Snap()) && !t[cur].state.Zombie?
      requires task[nr] == 0 && p != 0 && p !in t
      modifies this`t, this`lay, task
      ensures Valid() && Snap() == Made(old(Snap()), nr, p, cur, pid) && lay == MadeLay(old(lay), p)
      ensures t == old(t)[p := old(t)[cur].(pid := pid, state := Sleeping)] && task[..] == old(task[..])[nr := p]
      ensures lastPid == old(lastPid) && clock == old(clock)
      ensures Kept(Snap(), lay, Snap(), lay, cur, p) && lay.born[cur] < lay.born[p]
    {
      ghost var s, l := Snap(), lay;
      task[nr] := p;
      t := t[p := t[cur].(pid := pid, state := Sleeping)];
      lay := MadeLay(l, p);
      assert Snap() == Made(s, nr, p, cur, pid);
      MakeOk(s, l, nr, p, cur, pid);
      assert KidsOk(s, l, cur);
    }

    // fork.c:193-202
    method LinkIn(p: nat, cur: nat)
      requires Valid() && CanLink(Snap(), lay, p, cur)
      modifies this`t, this`lay
      ensures Valid() && Linked(lay, p) && p in t && t[p].p == cur && t[p].pid == old(t[p].pid) && t[p].state.Running? && t[p].pgrp == old(t[p].pgrp) && lastPid == old(lastPid)
      ensures Linked(lay, cur) && lay.kids[cur] != [] && lay.kids[cur][0] == p
      ensures SameFolk(old(t), t, p)
      ensures Snap() == Joined(old(Snap()), p, cur) && lay == JoinedLay(old(lay), p, cur)
    {
      ghost var s, l := Snap(), lay;
      assert KidsOk(s, l, cur);
      if l.kids[cur] != [] { assert ChildOk(s, l, cur, 0); }
      MakingApart(s, l, p);
      t := t[p := t[p].(p := cur, c := 0, y := 0, o := t[cur].c)];
      if t[p].o != 0 {
        t := t[t[p].o := t[t[p].o].(y := p)];
      }
      t := t[cur := t[cur].(c := p)];
      t := t[p := t[p].(state := Running)];
      lay := JoinedLay(l, p, cur);
      assert Snap() == Joined(s, p, cur);
      JoinedFolk(s, p, cur);
      JoinOk(s, l, p, cur);
    }

    // ---- exit.c -----------------------------------------------------------------------------------------

    /** do_exit by a task other than the idle one: it is dead, with its exit code.  Unless it
        is init, it has no children any more, and init has them all, before its own.  Init
        puts its children in front of themselves.  warnings tells whether audit_ptree prints
        anything at the end. */
    method DoExit(cur: nat, code: nat) returns (warnings: bool)
      requires Valid() && CanDie(Snap(), lay, cur)
      modifies this`t, this`lay
      ensures cur in t && t[cur].state.Zombie? && t[cur].code == code && t.Keys == old(t.Keys) && task[..] == old(task[..])
      ensures SameFolk(old(t), t, cur) && t[cur].pid == old(t)[cur].pid && t[cur].pgrp == old(t)[cur].pgrp
      ensures old(cur != task[1]) ==> Valid() && lay.making == old(lay).making && (lay.making == {} ==> !warnings)
      ensures old(cur != task[1]) ==>
        lay.kids == old(lay).kids[Init(Snap()) := old(lay).kids[cur] + old(lay).kids[Init(Snap())]][cur := []]
      ensures old(cur == task[1]) ==> !Inv(Snap(), lay) && lay == old(lay)
      ensures old(cur == task[1]) && lay.kids[cur] != [] ==> forall n: nat :: |Siblings(Snap(), lay.kids[cur][0], n)| == n
    {
      ChangeOk(Snap(), lay, cur, t[cur].state, t[cur].pgrp, code);
      t := t[cur := t[cur].(code := code)];
      LeaveTree(cur);
      warnings := AuditPtree();
    }

    method LeaveTree(cur: nat)
      requires Valid() && CanDie(Snap(), lay, cur)
      modifies this`t, this`lay
      ensures SlotsOk(Snap()) && cur in t && t[cur].state.Zombie? && t[cur].code == old(t)[cur].code && t.Keys == old(t.Keys)
      ensures SameFolk(old(t), t, cur) && Alike(old(t)[cur].(state := Zombie), t[cur])
      ensures old(cur != task[1]) ==> Valid() && lay == ExitedLay(old(Snap()), old(lay), cur)
      ensures old(cur == task[1]) ==> !Inv(Snap(), lay) && lay == old(lay)
      ensures old(cur == task[1]) && lay.kids[cur] != [] ==> forall n: nat :: |Siblings(Snap(), lay.kids[cur][0], n)| == n
    {
      ghost var s, l := Snap(), lay;
      Die(cur);
      if cur == Init(s) {
        if l.kids[cur] != [] { InitExitBreaks(s, l); }
      } else {
        ExitOk(s, l, cur);
        lay := ExitedLay(s, l, cur);
      }
    }

    // exit.c:295-356
    method Die(cur: nat)
      requires Valid() && CanDie(Snap(), lay, cur)
      modifies this`t
      ensures Snap() == Exited(old(Snap()), cur, lay.kids[cur])
      ensures cur in t && t[cur].state.Zombie? && t[cur].code == old(t)[cur].code && t.Keys == old(t.Keys)
      ensures SameFolk(old(t), t, cur) && Alike(old(t)[cur].(state := Zombie), t[cur])
    {
      ghost var s, l := Snap(), lay;
      ExitedBasics(s, l, cur);
      ExitedFolk(s, cur, l.kids[cur]);
      t := t[cur := t[cur].(state := Zombie)];
      if t[cur].c != 0 {
        GiveAway(cur, s, l);
      }
    }

    lemma ExitedBasics(s: Tree, l: Lay, cur: nat)
      requires CanDie(s, l, cur)
      ensures var g := Exited(s, cur, l.kids[cur]);
        g.t.Keys == s.t.Keys && g.t[cur].state.Zombie? && g.t[cur].code == s.t[cur].code && g.task == s.task
      ensures s.t[cur].c != 0 <==> l.kids[cur] != []
    {
      assert KidsOk(s, l, cur);
      if l.kids[cur] != [] {
        assert ChildOk(s, l, cur, 0);
        FamilyThere(s, l, cur);
      }
    }

    lemma NoWarnings(s: Tree, l: Lay)
      requires Inv(s, l) && l.making == {}
      ensures forall i | 1 <= i < NR_TASKS && s.task[i] != 0 :: Quiet(s, s.task[i])
    {
      forall i | 1 <= i < NR_TASKS && s.task[i] != 0
        ensures Quiet(s, s.task[i])
      {
        AuditQuiet(s, l, s.task[i]);
      }
    }

    // exit.c:324-356
    method GiveAway(cur: nat, ghost s: Tree, ghost l: Lay)
      requires task.Length == NR_TASKS && CanDie(s, l, cur) && l.kids[cur] != []
      requires Snap() == s.(t := s.t[cur := s.t[cur].(state := Zombie)])
      modifies this`t
      ensures Snap() == Exited(s, cur, l.kids[cur])
    {
      ghost var ks := l.kids[cur];
      FamilyThere(s, l, cur);
      KidsInto(s, l, cur, t);
      var p := AdoptAll(t[cur].c, task[1], ks);
      LinkFamilies(p, cur, task[1]);
    }

    // exit.c:348-353
    method LinkFamilies(p: nat, cur: nat, init: nat)
      requires p in t && cur in t && init in t && t[init].c in t && p != init && t[init].c != init
      modifies this`t
      ensures t == Joint(old(t), p, cur, init)
    {
      t := t[p := t[p].(o := t[init].c)];
      t := t[t[init].c := t[t[init].c].(y := p)];
      t := t[init := t[init].(c := t[cur].c)];
      t := t[cur := t[cur].(c := 0)];
    }

    ghost predicate KidAt(t: map<nat, Proc>, ks: seq<nat>, j: nat)
      requires j < |ks|
    {
      ks[j] in t && t[ks[j]].o == At(ks, j + 1) && ks[j] != 0
    }

    lemma KidsInto(s: Tree, l: Lay, cur: nat, t0: map<nat, Proc>)
      requires CanDie(s, l, cur) && t0 == s.t[cur := s.t[cur].(state := Zombie)]
      ensures forall j {:trigger KidAt(t0, l.kids[cur], j)} | 0 <= j < |l.kids[cur]| :: KidAt(t0, l.kids[cur], j)
    {
      forall j | 0 <= j < |l.kids[cur]|
        ensures KidAt(t0, l.kids[cur], j)
      {
        assert KidsOk(s, l, cur) && ChildOk(s, l, cur, j);
      }
    }

    /** Give everybody from first on, along o, the parent init; last is the eldest. */
    method AdoptAll(first: nat, init: nat, ghost ks: seq<nat>) returns (last: nat)
      requires ks != [] && first == ks[0]
      requires forall j {:trigger KidAt(t, ks, j)} | 0 <= j < |ks| :: KidAt(t, ks, j)
      modifies this`t
      ensures last == ks[|ks| - 1] && t == Adopted(old(t), ks, init)
    {
      ghost var t0 := t;
      last := first;
      ghost var i := 0;
      assert KidAt(t0, ks, 0);
      assert Adopted(t0, ks[..0], init) == t0;
      AdoptMore(t0, ks, init, 0);
      t := t[last := t[last].(p := init)];
      while t[last].o != 0
        invariant 0 <= i < |ks| && KidAt(t0, ks, i) && last == ks[i] && t == Adopted(t0, ks[..i + 1], init)
        decreases |ks| - i
      {
        assert KidAt(t0, ks, i) && (i + 1 < |ks| ==> KidAt(t0, ks, i + 1));
        last := t[last].o;
        AdoptMore(t0, ks, init, i + 1);
        t := t[last := t[last].(p := init)];
        i := i + 1;
      }
      assert KidAt(t0, ks, i) && (i + 1 < |ks| ==> KidAt(t0, ks, i + 1));
      assert ks[..i + 1] == ks;
    }

    // exit.c:61-74
    method BadTaskPtr(p: nat) returns (bad: bool)
      requires task.Length == NR_TASKS
      ensures bad <==> BadPtr(Snap(), p)
    {
      if p == 0 {
        return false;
      }
      var i := 0;
      while i < NR_TASKS
        invariant 0 <= i <= NR_TASKS && forall k | 0 <= k < i :: task[k] != p
      {
        if task[i] == p {
          return false;
        }
        i := i + 1;
      }
      return true;
    }

    // exit.c:94-147, for one task; a link that leads to no task was warned about before
    method AuditOne(u: nat) returns (warned: bool)
      requires task.Length == NR_TASKS && SlotsOk(Snap()) && u in t
      ensures warned <==> !Quiet(Snap(), u)
    {
      var n := t[u];
      warned := BadTaskPtr(n.p);
      var bad := BadTaskPtr(n.c);
      warned := warned || bad;
      bad := BadTaskPtr(n.y);
      warned := warned || bad;
      bad := BadTaskPtr(n.o);
      warned := warned || bad;
      if n.p == u || n.c == u || n.y == u || n.o == u {
        warned := true;
      }
      if n.o in t && (n.p != t[n.o].p || t[n.o].y != u) {
        warned := true;
      }
      if n.y in t && (n.p != t[n.y].p || t[n.y].o != u) {
        warned := true;
      }
      if n.c in t && (t[n.c].p != u || t[n.c].y != 0) {
        warned := true;
      }
    }

    /** audit_ptree: does it print anything? */
    method AuditPtree() returns (warned: bool)
      requires task.Length == NR_TASKS && SlotsOk(Snap())
      ensures warned <==> exists i :: 1 <= i < NR_TASKS && task[i] != 0 && !Quiet(Snap(), task[i])
      ensures Inv(Snap(), lay) && lay.making == {} ==> !warned
    {
      var i := 1;
      warned := false;
      while i < NR_TASKS
        invariant 1 <= i <= NR_TASKS
        invariant warned <==> exists k :: 1 <= k < i && task[k] != 0 && !Quiet(Snap(), task[k])
      {
        if task[i] != 0 {
          var one := AuditOne(task[i]);
          warned := warned || one;
        }
        i := i + 1;
      }
      if Inv(Snap(), lay) && lay.making == {} { NoWarnings(Snap(), lay); }
    }

    /** release of a dead child: its slot and its place among its siblings are gone; the
        panic about a task without a slot does not happen. */
    method Release(p: nat) returns (panic: bool)
      requires Valid() && Linked(lay, p) && p in t && t[p].state.Zombie?
      modifies this`t, this`lay, task
      ensures Valid() && !panic && p !in t && p !in task[..]
      ensures t.Keys == old(t.Keys) - {p} && lay.making == old(lay).making
      ensures SameChildren(old(lay), lay, p) && SameFolk(old(t), t, p)
      ensures forall k | 0 <= k < NR_TASKS :: task[k] == if old(task[k]) == p then 0 else old(task[k])
    {
      ghost var s, l := Snap(), lay;
      assert KidsOk(s, l, p);
      ghost var n := ChildAt(s, l, p);
      var i;
      i, panic := FindSlot(p);
      ReapedRight(s, l, i, p, n);
      Unlink(i, p);
      lay := ReapedLay(s, l, p, n);
    }

    lemma ReapedRight(s: Tree, l: Lay, nr: nat, p: nat, n: nat)
      requires CanReap(s, l, nr, p) && s.t[p].p in l.kids && n < |l.kids[s.t[p].p]| && l.kids[s.t[p].p][n] == p
      ensures Near(s.t, p) && Inv(Reaped(s, nr, p), ReapedLay(s, l, p, n)) && ReapedLay(s, l, p, n).making == l.making
      ensures var g := Reaped(s, nr, p);
        g.t.Keys == s.t.Keys - {p} && SameFolk(s.t, g.t, p) && p !in g.task
        && |g.task| == NR_TASKS && forall k | 0 <= k < NR_TASKS :: g.task[k] == if s.task[k] == p then 0 else s.task[k]
      ensures SameChildren(l, ReapedLay(s, l, p, n), p)
    {
      ReapOk(s, l, nr, p, n);
      ReapNeighbours(s, l, nr, p, n);
      ReapedFolk(s, nr, p);
      ReapSame(s, l, nr, p, n);
    }

    lemma ReapSame(s: Tree, l: Lay, nr: nat, p: nat, n: nat)
      requires CanReap(s, l, nr, p) && s.t[p].p in l.kids && n < |l.kids[s.t[p].p]| && l.kids[s.t[p].p][n] == p
      ensures SameChildren(l, ReapedLay(s, l, p, n), p)
    {
      forall u | u in ReapedLay(s, l, p, n).kids && u != s.t[p].p
        ensures p !in l.kids[u]
      {
        if p in l.kids[u] { ParentOf(s, l, u, p); }
      }
    }

    // exit.c:38-39 and 54
    method FindSlot(p: nat) returns (i: nat, panic: bool)
      requires task.Length == NR_TASKS && SlotsOk(Snap()) && p in t && p != task[0] && p != task[1]
      ensures !panic && 1 < i < NR_TASKS && task[i] == p
    {
      i := 1;
      while i < NR_TASKS && task[i] != p
        invariant 1 <= i <= NR_TASKS && forall k | 1 <= k < i :: task[k] != p
      {
        i := i + 1;
      }
      assert p in Snap().task;
      panic := i == NR_TASKS;
    }

    lemma ReapNeighbours(s: Tree, l: Lay, nr: nat, p: nat, n: nat)
      requires CanReap(s, l, nr, p) && s.t[p].p in l.kids && n < |l.kids[s.t[p].p]| && l.kids[s.t[p].p][n] == p
      ensures Near(s.t, p) && Reaped(s, nr, p).t.Keys == s.t.Keys - {p}
    {
      ReapFacts(s, l, nr, p, n);
      var u := s.t[p].p;
      assert KidsOk(s, l, u) && ChildOk(s, l, u, n);
      if n > 0 { assert ChildOk(s, l, u, n - 1); }
      if n + 1 < |l.kids[u]| { assert ChildOk(s, l, u, n + 1); }
    }

    /** The tasks that p's links name are there. */
    ghost predicate Near(t: map<nat, Proc>, p: nat) {
      p in t && (t[p].o != 0 ==> t[p].o in t) && (t[p].y != 0 ==> t[p].y in t) && t[p].p in t
    }

    // exit.c:40-51
    method Unlink(i: nat, p: nat)
      requires task.Length == NR_TASKS && i < NR_TASKS && Near(t, p)
      modifies this`t, task
      ensures Snap() == Reaped(old(Snap()), i, p)
    {
      ghost var s := Snap();
      task[i] := 0;
      var me := t[p];
      if me.o != 0 {
        t := t[me.o := t[me.o].(y := me.y)];
      }
      if me.y != 0 {
        t := t[me.y := t[me.y].(o := me.o)];
      } else {
        t := t[me.p := t[me.p].(c := me.o)];
      }
      t := t - {p};
      assert task[..] == s.task[i := 0];
    }

    /** One scan of sys_waitpid over the caller's children, youngest first: the first that was
        asked for and has something to report is reaped, or marked as reported, and its
        number and status are returned; otherwise 0 if a living one was asked for, or -ECHILD. */
    method ScanChildren(cur: nat, pid: int, untraced: bool) returns (r: int, status: nat, who: nat, ghost n: nat)
      requires Valid() && Linked(lay, cur) && cur in t
      modifies this`t, this`lay, task
      ensures Valid() && Scanned(old(Snap()), old(lay), Snap(), lay, cur, pid, untraced, r, status, who, n)
      ensures clock == old(clock) && (who != 0 <==> CanReport(old(Snap()), old(lay), cur, pid, untraced))
      ensures who == 0 ==> (r == 0 <==> LivingAsked(old(Snap()), old(lay), cur, pid))
      ensures Told(old(Snap()), old(lay), cur, pid, untraced, r, who)
    {
      ghost var s, l := Snap(), lay;
      assert KidsOk(s, l, cur);
      ghost var ks := l.kids[cur];
      var flag := false;
      var p := t[cur].c;
      n, who, status := 0, 0, 0;
      while p != 0
        invariant 0 <= n <= |ks| && p == At(ks, n) && Snap() == s && lay == l
        invariant forall k | 0 <= k < n :: ks[k] in t && !(Reportable(t, ks[k], untraced) && Asked(t, pid, ks[k], cur))
        invariant flag <==> exists k :: 0 <= k < n && ks[k] in t && Asked(t, pid, ks[k], cur) && !t[ks[k]].state.Stopped?
        decreases |ks| - n
      {
        assert ChildOk(s, l, cur, n);
        var asked := if pid > 0 then t[p].pid == pid else if pid == 0 then t[p].pgrp == t[cur].pgrp else pid == -1 || t[p].pgrp == -pid;
        if asked {
          if t[p].state.Zombie? || (t[p].state.Stopped? && untraced && t[p].code != 0) {
            who := p;
            r, status := Report(p);
            ScanSays(s, l, Snap(), lay, cur, pid, untraced, r, status, who, n);
            return;
          }
          if !t[p].state.Stopped? {
            flag := true;
          }
        }
        p := t[p].o;
        n := n + 1;
      }
      assert n < |ks| ==> ChildOk(s, l, cur, n);
      r := if flag then 0 else -ECHILD;
      ScanSays(s, l, Snap(), lay, cur, pid, untraced, r, status, who, n);
    }

    // exit.c:407-424
    method Report(p: nat) returns (r: int, status: nat)
      requires Valid() && Linked(lay, p) && p in t && Reportable(t, p, true)
      modifies this`t, this`lay, task
      ensures Valid() && r == old(t)[p].pid
      ensures old(t)[p].state.Zombie? ==> status == old(t)[p].code && t.Keys == old(t.Keys) - {p} && SameChildren(old(lay), lay, p) && SameFolk(old(t), t, p)
      ensures !old(t)[p].state.Zombie? ==> status == 256 * old(t)[p].code + 127 && lay == old(lay)
      ensures !old(t)[p].state.Zombie? ==> Snap() == old(Snap()).(t := old(t)[p := old(t)[p].(code := 0)])
    {
      r := t[p].pid;
      if t[p].state.Zombie? {
        status := t[p].code;
        var panic := Release(p);
        return;
      }
      ChangeOk(Snap(), lay, p, t[p].state, t[p].pgrp, 0);
      status := 256 * t[p].code + 127;        // (exit_code << 8) | 0x7f
      t := t[p := t[p].(code := 0)];
    }

    /** sys_waitpid: scan, and while a living child was asked for, sleep and scan again.  s and
        l are tree and families before the last scan: from the call to there only others did
        anything, and the caller and its place in the tree were kept. */
    method WaitPid(cur: nat, pid: int, untraced: bool, nohang: bool, fuel: nat)
      returns (ok: bool, r: int, status: nat, who: nat, ghost n: nat, ghost s: Tree, ghost l: Lay, slept: nat, ghost when: nat)
      requires Valid() && Linked(lay, cur) && cur in t && !t[cur].state.Zombie?
      modifies this, task
      ensures Valid() && Kept(old(Snap()), old(lay), s, l, cur, 0)
      ensures slept == clock - old(clock) <= fuel && (slept > 0 <==> fuel > 0 && MustWait(old(Snap()), old(lay), cur, pid, untraced, nohang))
      ensures slept == 0 ==> s == old(Snap()) && l == old(lay)
      ensures WaitEnds(s, l, Snap(), lay, cur, pid, untraced, nohang, ok, r, status, who, n)
      ensures ok && Interrupted(r, who) ==> slept > 0 && when + 1 == clock && Signalled(env, when, cur)
      ensures !ok ==> slept == fuel
    {
      ghost var s0, l0 := Snap(), lay;
      s, l, slept, when := s0, l0, 0, clock;
      while true
        invariant Valid() && Stays(s0, l0, s, l, cur) && s == Snap() && l == lay && slept == clock - old(clock) <= fuel
        invariant if slept > 0 then MustWait(s0, l0, cur, pid, untraced, nohang) else s == s0 && l == l0
        decreases fuel - slept
      {
        ok, r, status, who, n := TryScan(cur, pid, untraced, nohang);
        if ok || slept == fuel {
          return;
        }
        when := clock;
        ok := WaitOnce(cur, s0, l0);
        s, l, slept := Snap(), lay, slept + 1;
        if ok {        // by a signal
          r := -ERESTARTSYS;
          return;
        }
      }
    }

    // exit.c:393-430
    method TryScan(cur: nat, pid: int, untraced: bool, nohang: bool) returns (finished: bool, r: int, status: nat, who: nat, ghost n: nat)
      requires Valid() && Linked(lay, cur) && cur in t
      modifies this`t, this`lay, task
      ensures Valid() && (finished <==> !MustWait(old(Snap()), old(lay), cur, pid, untraced, nohang))
      ensures finished ==> Answered(old(Snap()), old(lay), Snap(), lay, cur, pid, untraced, nohang, r, status, who, n) && !Interrupted(r, who)
      ensures !finished ==> who == 0 && Snap() == old(Snap()) && lay == old(lay)
    {
      r, status, who, n := ScanChildren(cur, pid, untraced);
      finished := who != 0 || r != 0 || nohang;
    }

    // exit.c:431-441
    method WaitOnce(cur: nat, ghost s0: Tree, ghost l0: Lay) returns (signal: bool)
      requires Valid() && Stays(s0, l0, Snap(), lay, cur)
      modifies this, task
      ensures Valid() && Stays(s0, l0, Snap(), lay, cur)
      ensures clock == old(clock) + 1 && (signal ==> Signalled(env, old(clock), cur))
    {
      ghost var s, l := Snap(), lay;
      var page;
      page, signal := Sleep(cur, 0);
      KeptTransitive(s0, l0, s, l, Snap(), lay, cur);
    }
  }
}
