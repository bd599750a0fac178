/** What other tasks may do to the process tree while a fork sleeps, and what goes wrong if
    two forks choose the same slot or number. */
module TreeRuns {
  import opened TreeModel
  import opened TreeSteps

  // ---- the number of a new task -----------------------------------------------------------------------

  ghost predicate PidsApart(s: Tree) { forall u, v | u in s.t && v in s.t && u != v :: s.t[u].pid != s.t[v].pid }

  ghost predicate PidFree(s: Tree, pid: int) { forall u | u in s.t :: s.t[u].pid != pid }

  /** The new task's number is its own exactly if nobody took it while the fork slept. */
  lemma MakePidIff(s: Tree, l: Lay, nr: nat, p: nat, cur: nat, pid: int)
    requires CanMake(s, l, nr, p, cur) && PidsApart(s)
    ensures PidsApart(Made(s, nr, p, cur, pid)) <==> PidFree(s, pid)
  {
    var g := Made(s, nr, p, cur, pid);
    if !PidFree(s, pid) {
      var u :| u in s.t && s.t[u].pid == pid;
      assert u in g.t && g.t[u].pid == g.t[p].pid;
    }
  }

  // ---- what a sleeping fork may rely on --------------------------------------------------------------

  /** The parent lives on, and what it has made of its child so far stays. */
  ghost predicate Kept(s: Tree, l: Lay, g: Tree, m: Lay, cur: nat, p: nat) {
    && Inv(g, m) && |s.task| == NR_TASKS && g.task[0] == s.task[0] && g.task[1] == s.task[1]
    && cur in s.t && cur in l.born && Linked(m, cur) && cur in g.t && !g.t[cur].state.Zombie? && m.born[cur] == l.born[cur] && l.now <= m.now
    && (p != 0 ==> p in m.making && p in l.born && m.born[p] == l.born[p] && p in s.t && g.t[p] == s.t[p]
                   && forall i | 0 <= i < NR_TASKS && s.task[i] == p :: g.task[i] == p)
  }

  lemma OtherMakes(s: Tree, l: Lay, nr: nat, q: nat, other: nat, pid: int, cur: nat, p: nat)
    requires CanMake(s, l, nr, q, other) && s.task[nr] == 0 && Kept(s, l, s, l, cur, p) && nr > 1
    ensures Kept(s, l, Made(s, nr, q, other, pid), MadeLay(l, q), cur, p)
  {
    MakeOk(s, l, nr, q, other, pid);
  }

  lemma OtherJoins(s: Tree, l: Lay, q: nat, other: nat, cur: nat, p: nat)
    requires CanLink(s, l, q, other) && q != p && Kept(s, l, s, l, cur, p)
    ensures Kept(s, l, Joined(s, q, other), JoinedLay(l, q, other), cur, p)
  {
    JoinOk(s, l, q, other);
    assert KidsOk(s, l, other) && KidsOk(s, l, cur);
    if l.kids[other] != [] { assert ChildOk(s, l, other, 0); }
    MakingApart(s, l, p);
  }

  lemma OtherExits(s: Tree, l: Lay, other: nat, cur: nat, p: nat)
    requires CanExit(s, l, other) && other != cur && Kept(s, l, s, l, cur, p)
    ensures Kept(s, l, Exited(s, other, l.kids[other]), ExitedLay(s, l, other), cur, p)
  {
    ExitOk(s, l, other);
    if p != 0 { MakingApart(s, l, p); }
    if l.kids[other] != [] {
      ExitFacts(s, l, other);
      if p != 0 {
        MakingUntouched(s, l, other, p);
      }
    }
  }

  /** A task in the making is nobody's child yet. */
  lemma MakingUntouched(s: Tree, l: Lay, other: nat, p: nat)
    requires Inv(s, l) && Linked(l, other) && p in l.making
    ensures p !in l.kids && p !in l.kids[other] && At(l.kids[Init(s)], 0) != p
  {
    MakingApart(s, l, p);
    assert KidsOk(s, l, other) && KidsOk(s, l, Init(s));
    assert l.kids[Init(s)] != [] ==> ChildOk(s, l, Init(s), 0);
    forall j | 0 <= j < |l.kids[other]|
      ensures l.kids[other][j] != p
    {
      assert ChildOk(s, l, other, j);
    }
  }

  lemma OtherReaps(s: Tree, l: Lay, nr: nat, q: nat, i: nat, cur: nat, p: nat)
    requires CanReap(s, l, nr, q) && s.t[q].p in l.kids && i < |l.kids[s.t[q].p]| && l.kids[s.t[q].p][i] == q
    requires Kept(s, l, s, l, cur, p)
    ensures Kept(s, l, Reaped(s, nr, q), ReapedLay(s, l, q, i), cur, p)
  {
    ReapOk(s, l, nr, q, i);
    ReapFacts(s, l, nr, q, i);
    var u := s.t[q].p;
    assert KidsOk(s, l, u) && KidsOk(s, l, q);
    if i > 0 { assert ChildOk(s, l, u, i - 1); }
    if i + 1 < |l.kids[u]| { assert ChildOk(s, l, u, i + 1); }
    MakingApart(s, l, p);
  }

  lemma OtherUnmakes(s: Tree, l: Lay, nr: nat, cur: nat, p: nat)
    requires Inv(s, l) && nr < NR_TASKS && s.task[nr] in l.making && s.task[nr] != p && Kept(s, l, s, l, cur, p)
    ensures Kept(s, l, Unmade(s, nr), UnmadeLay(l, s.task[nr]), cur, p)
  {
    UnmakeOk(s, l, nr);
    MakingApart(s, l, s.task[nr]);
  }

  lemma OtherChanges(s: Tree, l: Lay, u: nat, state: PState, pgrp: int, code: nat, cur: nat, p: nat)
    requires u in s.t && u != p && (state.Zombie? <==> s.t[u].state.Zombie?) && Kept(s, l, s, l, cur, p)
    ensures Kept(s, l, Changed(s, u, state, pgrp, code), l, cur, p)
  {
    ChangeOk(s, l, u, state, pgrp, code);
  }

  // ---- any number of steps of the others ----------------------------------------------------------------

  datatype Deed =
    | Make(nr: nat, q: nat, other: nat, pid: int)    // a fork puts its new task into its slot
    | Join(q: nat, other: nat)                       // and links it in
    | Unmake(nr: nat)                                // or gives it up
    | Exit(other: nat)
    | Reap(nr: nat, q: nat, i: nat)
    | Change(u: nat, state: PState, pgrp: int, code: nat)    // signals, sleeps, setpgrp, waitpid of a stopped child

  /** The step is possible and leaves alone the parent cur of a sleeping fork, and its
      half-made child p. */
  ghost predicate CanDo(s: Tree, l: Lay, e: Deed, cur: nat, p: nat) {
    match e
    case Make(nr, q, other, _) => CanMake(s, l, nr, q, other) && s.task[nr] == 0
    case Join(q, other) => CanLink(s, l, q, other) && q != p
    case Unmake(nr) => Inv(s, l) && nr < NR_TASKS && s.task[nr] in l.making && s.task[nr] != p
    case Exit(other) => CanExit(s, l, other) && other != cur
    case Reap(nr, q, i) => CanReap(s, l, nr, q) && s.t[q].p in l.kids && i < |l.kids[s.t[q].p]| && l.kids[s.t[q].p][i] == q
    case Change(u, state, _, _) => Inv(s, l) && u in s.t && u != p && (state.Zombie? <==> s.t[u].state.Zombie?)
  }

  ghost function Done(s: Tree, l: Lay, e: Deed, cur: nat, p: nat): (Tree, Lay)
    requires CanDo(s, l, e, cur, p)
  {
    match e
    case Make(nr, q, other, pid) => (Made(s, nr, q, other, pid), MadeLay(l, q))
    case Join(q, other) => (Joined(s, q, other), JoinedLay(l, q, other))
    case Unmake(nr) => (Unmade(s, nr), UnmadeLay(l, s.task[nr]))
    case Exit(other) => (Exited(s, other, l.kids[other]), ExitedLay(s, l, other))
    case Reap(nr, q, i) => (Reaped(s, nr, q), ReapedLay(s, l, q, i))
    case Change(u, state, pgrp, code) => (Changed(s, u, state, pgrp, code), l)
  }

  lemma DeedKeeps(s: Tree, l: Lay, e: Deed, cur: nat, p: nat)
    requires Kept(s, l, s, l, cur, p) && CanDo(s, l, e, cur, p)
    ensures var (g, m) := Done(s, l, e, cur, p); Kept(s, l, g, m, cur, p)
  {
    match e
    case Make(nr, q, other, pid) => OtherMakes(s, l, nr, q, other, pid, cur, p);
    case Join(q, other) => OtherJoins(s, l, q, other, cur, p);
    case Unmake(nr) => OtherUnmakes(s, l, nr, cur, p);
    case Exit(other) => OtherExits(s, l, other, cur, p);
    case Reap(nr, q, i) => OtherReaps(s, l, nr, q, i, cur, p);
    case Change(u, state, pgrp, code) => OtherChanges(s, l, u, state, pgrp, code, cur, p);
  }

  /** The deeds lead from (s, l) to (g, m). */
  ghost predicate Leads(s: Tree, l: Lay, deeds: seq<Deed>, cur: nat, p: nat, g: Tree, m: Lay)
    decreases |deeds|
  {
    if deeds == [] then g == s && m == l
    else CanDo(s, l, deeds[0], cur, p) && var (s1, l1) := Done(s, l, deeds[0], cur, p); Leads(s1, l1, deeds[1..], cur, p, g, m)
  }

  /** Whatever forks, exits and reaps the others get through: the tree is one, and the
      sleeping fork finds its parent and its half-made child as they were. */
  lemma {:induction false} OthersKeep(s: Tree, l: Lay, deeds: seq<Deed>, cur: nat, p: nat, g: Tree, m: Lay)
    requires Kept(s, l, s, l, cur, p) && Leads(s, l, deeds, cur, p, g, m)
    ensures Kept(s, l, g, m, cur, p)
    decreases |deeds|
  {
    if deeds != [] {
      var (s1, l1) := Done(s, l, deeds[0], cur, p);
      DeedKeeps(s, l, deeds[0], cur, p);
      OthersKeep(s1, l1, deeds[1..], cur, p, g, m);
    }
  }

  // ---- two forks, one slot ----------------------------------------------------------------------------------

  /** The idle task 1 and init, 2, as they are once the first fork is over. */
  function BootTree(): Tree {
    Tree([1, 2] + seq(62, _ => 0), BootTasks(Proc(0, 0, Running, 1, 2, 0, 0, 0), Proc(1, 1, Running, 1, 0, 0, 0, 0)))
  }

  function BootTasks(a: Proc, b: Proc): map<nat, Proc> { map[1 := a, 2 := b] }

  function BootLay(): Lay { Lay(BootKids(), BootBorn(), 2, {}) }

  function BootKids(): map<nat, seq<nat>> { map[1 := [2], 2 := []] }

  function BootBorn(): map<nat, nat> { map[1 := 0, 2 := 1] }

  lemma BootOk()
    ensures Inv(BootTree(), BootLay()) && PidsApart(BootTree())
  {
    var s, l := BootTree(), BootLay();
    BootSlots();
    BootKidsOk();
    assert forall u | Linked(l, u) && u != 1 :: u == 2;
    assert forall u | u in s.t && u != 1 :: u == 2;
  }

  lemma BootSlots()
    ensures SlotsOk(BootTree()) && PidsApart(BootTree()) && Idle(BootTree()) == 1 && Init(BootTree()) == 2
  {
    assert BootTree().task[0] == 1 && BootTree().task[1] == 2;
  }

  lemma BootKidsOk()
    ensures KidsOk(BootTree(), BootLay(), 1) && KidsOk(BootTree(), BootLay(), 2) && HasParent(BootTree(), BootLay(), 2)
  {
    assert ChildOk(BootTree(), BootLay(), 1, 0);
  }

  /** Init forks task 3, number 2, into slot 2. */
  lemma FirstChild() returns (s: Tree, l: Lay)
    ensures Inv(s, l) && Linked(l, 2) && Linked(l, 3) && l.making == {} && s.t.Keys == {1, 2, 3}
    ensures s.t[1].pid == 0 && s.t[1].pgrp == 0 && s.t[2] == Proc(1, 1, Running, 1, 3, 0, 0, 0) && s.t[3] == Proc(2, 1, Running, 2, 0, 0, 0, 0)
    ensures s.task[0] == 1 && s.task[1] == 2 && s.task[2] == 3 && forall i | 3 <= i < NR_TASKS :: s.task[i] == 0
  {
    var s1, l1 := FirstMade();
    JoinOk(s1, l1, 3, 2);
    s, l := Joined(s1, 3, 2), JoinedLay(l1, 3, 2);
  }

  lemma FirstMade() returns (s: Tree, l: Lay)
    ensures Inv(s, l) && CanLink(s, l, 3, 2) && l.making == {3} && s.t.Keys == {1, 2, 3} && Linked(l, 2)
    ensures s.t[1].pid == 0 && s.t[1].pgrp == 0 && s.t[2] == Proc(1, 1, Running, 1, 0, 0, 0, 0) && s.t[3] == Proc(2, 1, Sleeping, 1, 0, 0, 0, 0)
    ensures s.task == [1, 2, 3] + seq(61, _ => 0)
  {
    BootOk();
    MakeOk(BootTree(), BootLay(), 2, 3, 2, 2);
    s, l := Made(BootTree(), 2, 3, 2, 2), MadeLay(BootLay(), 3);
  }

  /** Init asks for a slot and gets 3; while it sleeps in get_free_page its child forks too,
      gets slot 3 and number 4, and has its task made there.  When init wakes it puts its
      own task into slot 3: the other task drops out of task[], and both have number 4. */
  lemma SlotClash() returns (s: Tree, l: Lay, g: Tree, m: Lay)
    ensures Inv(s, l) && PidsApart(s) && s.task[3] == 0 && PidFree(s, 4) && s.task[2] == 3
    ensures g == Made(s, 3, 4, 3, 4) && m == MadeLay(l, 4) && Kept(s, l, g, m, 2, 0) && CanMake(g, m, 3, 5, 2)
    ensures !Inv(Made(g, 3, 5, 2, 4), MadeLay(m, 5))
    ensures PidsApart(g) && !PidsApart(Made(g, 3, 5, 2, 4))
  {
    s, l := FirstChild();
    assert PidsApart(s) && PidFree(s, 4);
    g, m := Made(s, 3, 4, 3, 4), MadeLay(l, 4);
    OtherMakes(s, l, 3, 4, 3, 4, 2, 0);
    MakePidIff(s, l, 3, 4, 3, 4);
    MakeOkIff(g, m, 3, 5, 2, 4);
    assert g.t[4].pid == 4;
    MakePidIff(g, m, 3, 5, 2, 4);
  }

  lemma OneFork() returns (s: Tree, l: Lay)
    ensures Kept(s, l, s, l, 2, 4) && CanLink(s, l, 4, 2) && 4 in s.t && s.t[4].pid == 3
    ensures s.t.Keys == {1, 2, 3, 4} && forall u | u in s.t :: s.t[u].pid <= 3 && s.t[u].pgrp <= 3
    ensures Linked(l, 3) && s.task[3] == 4 && forall i | 4 <= i < NR_TASKS :: s.task[i] == 0
  {
    var s0, l0 := FirstChild();
    MakeOk(s0, l0, 3, 4, 2, 3);
    s, l := Made(s0, 3, 4, 2, 3), MadeLay(l0, 4);
    assert KidsOk(s0, l0, 2);
  }

  /** Init's fork has made its child 4 with number 3; then task 3 forks, by the slot and the
      number that come next, and makes its child 5. */
  lemma TwoForks() returns (s: Tree, l: Lay, g: Tree, m: Lay)
    ensures Kept(s, l, s, l, 2, 4) && 4 in l.making && 4 in s.t && s.t[4].pid == 3
    ensures forall u | u in s.t :: s.t[u].pid <= 3 && s.t[u].pgrp <= 3
    ensures 3 in s.t && |s.task| == NR_TASKS && g == Made(s, 4, 5, 3, 4) && Kept(s, l, g, m, 2, 4) && CanLink(g, m, 4, 2) && g.t[4].pid == 3 && g.t[5].pid == 4
  {
    s, l := OneFork();
    assert s.task[4] == 0 && CanMake(s, l, 4, 5, 3);
    OtherMakes(s, l, 4, 5, 3, 4, 2, 4);
    g, m := Made(s, 4, 5, 3, 4), MadeLay(l, 5);
  }

  /** A fork by init, which has a child: an audit meanwhile complains about the new task, as
      it still has its parent's links. */
  lemma AuditComplains() returns (g: Tree, m: Lay)
    ensures Inv(g, m) && 4 in m.making && 4 in g.t && !Quiet(g, 4)
  {
    var s, l := FirstChild();
    MakeOk(s, l, 3, 4, 2, 3);
    g, m := Made(s, 3, 4, 2, 3), MadeLay(l, 4);
    AuditOfHalfMade(g, m, 4, 2);
  }
}
