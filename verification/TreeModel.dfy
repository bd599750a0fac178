/** The process tree: tasks by pointer (0 is NULL), the slots of task[], and the four links
    of every task. */
module TreeModel {
  const NR_TASKS: nat := 64

  datatype PState = Running | Sleeping | Stopped | Zombie

  datatype Proc = Proc(
    pid: int, pgrp: int, state: PState,
    p: nat,       // p_pptr, parent
    c: nat,       // p_cptr, youngest child
    y: nat,       // p_ysptr, younger sibling
    o: nat,       // p_osptr, older sibling
    code: nat)    // exit_code; of a stopped task 0 once it was reported

  datatype Tree = Tree(task: seq<nat>, t: map<nat, Proc>)

  /** The children of each task, youngest first; the order in which tasks came; and the
      tasks that copy_process has not linked in yet. */
  datatype Lay = Lay(kids: map<nat, seq<nat>>, born: map<nat, nat>, now: nat, making: set<nat>)

  function At(l: seq<nat>, i: int): nat { if 0 <= i < |l| then l[i] else 0 }

  function Idle(s: Tree): nat
    requires |s.task| == NR_TASKS
  {
    s.task[0]
  }

  function Init(s: Tree): nat
    requires |s.task| == NR_TASKS
  {
    s.task[1]
  }

  ghost predicate Linked(l: Lay, u: nat) { u in l.kids }

  ghost predicate SlotsOk(s: Tree) {
    && |s.task| == NR_TASKS && 0 !in s.t && s.task[0] != 0 && s.task[1] != 0
    && (forall i | 0 <= i < NR_TASKS :: s.task[i] != 0 ==> s.task[i] in s.t)
    && (forall i, j | 0 <= i < j < NR_TASKS :: s.task[i] != 0 ==> s.task[i] != s.task[j])
    && (forall u | u in s.t :: u in s.task)
  }

  /** The i-th child of u: its parent is u and its siblings are its neighbours. */
  ghost predicate ChildOk(s: Tree, l: Lay, u: nat, i: nat)
    requires u in l.kids && i < |l.kids[u]|
  {
    var v := l.kids[u][i];
    && Linked(l, v) && v in s.t && s.t[v].p == u && s.t[v].y == At(l.kids[u], i - 1) && s.t[v].o == At(l.kids[u], i + 1)
    && v in l.born && u in l.born && l.born[u] < l.born[v]
  }

  ghost predicate KidsOk(s: Tree, l: Lay, u: nat)
    requires u in l.kids
  {
    && u in s.t && u !in l.making && s.t[u].c == At(l.kids[u], 0)
    && (forall i {:trigger ChildOk(s, l, u, i)} | 0 <= i < |l.kids[u]| :: ChildOk(s, l, u, i))
    && (s.t[u].state.Zombie? ==> l.kids[u] == [])
  }

  /** A task other than the idle one is among the children of a linked task, and only init
      is a child of the idle task. */
  ghost predicate HasParent(s: Tree, l: Lay, v: nat)
    requires |s.task| == NR_TASKS
  {
    && v in s.t && s.t[v].p in l.kids && v in l.kids[s.t[v].p]
    && (s.t[v].p == Idle(s) ==> v == Init(s))
  }

  ghost predicate Inv(s: Tree, l: Lay) {
    && SlotsOk(s) && Linked(l, Idle(s)) && Linked(l, Init(s))
    && l.making <= s.t.Keys && (forall u | u in s.t :: u in l.making || Linked(l, u))
    && s.t[Idle(s)] == s.t[Idle(s)].(p := Idle(s), y := 0, o := 0) && !s.t[Idle(s)].state.Zombie? && !s.t[Init(s)].state.Zombie?
    && (forall u {:trigger KidsOk(s, l, u)} | Linked(l, u) :: KidsOk(s, l, u))
    && (forall v {:trigger HasParent(s, l, v)} | Linked(l, v) && v != Idle(s) :: HasParent(s, l, v))
    && s.t[Init(s)].p == Idle(s)
    && (forall u | u in s.t :: u in l.born && l.born[u] < l.now)
    && (forall u | u in s.t && u != Idle(s) && u != Init(s) :: l.born[Init(s)] < l.born[u])
  }

  // ---- what the kernel checks -------------------------------------------------------------------------

  ghost predicate BadPtr(s: Tree, u: nat)
    requires |s.task| == NR_TASKS
  {
    u != 0 && u !in s.task
  }

  /** The checks of audit_ptree about one task, none of which prints a warning. */
  ghost predicate Quiet(s: Tree, u: nat)
    requires |s.task| == NR_TASKS && u in s.t
  {
    var n := s.t[u];
    && !BadPtr(s, n.p) && !BadPtr(s, n.c) && !BadPtr(s, n.y) && !BadPtr(s, n.o)
    && n.p != u && n.c != u && n.y != u && n.o != u
    && (n.o != 0 ==> n.o in s.t && n.p == s.t[n.o].p && s.t[n.o].y == u)
    && (n.y != 0 ==> n.y in s.t && n.p == s.t[n.y].p && s.t[n.y].o == u)
    && (n.c != 0 ==> n.c in s.t && s.t[n.c].p == u && s.t[n.c].y == 0)
  }

  /** The links of siblings leave no room for a task to be listed twice. */
  lemma {:induction false} KidsDistinct(s: Tree, l: Lay, u: nat, i: nat, j: nat)
    requires 0 !in s.t && Linked(l, u) && KidsOk(s, l, u) && i < |l.kids[u]| && j < |l.kids[u]|
    ensures l.kids[u][i] == l.kids[u][j] ==> i == j
    decreases i
  {
    assert ChildOk(s, l, u, i) && ChildOk(s, l, u, j);
    assert i > 0 ==> ChildOk(s, l, u, i - 1);
    assert j > 0 ==> ChildOk(s, l, u, j - 1);
    if i > 0 && j > 0 {
      KidsDistinct(s, l, u, i - 1, j - 1);
    }
  }

  /** A task in the making is not in the tree. */
  lemma MakingApart(s: Tree, l: Lay, p: nat)
    requires Inv(s, l)
    ensures p in l.making ==> p !in l.kids
  {
    assert Linked(l, p) ==> KidsOk(s, l, p);
  }

  lemma IdleIsNoChild(s: Tree, l: Lay, u: nat, i: nat)
    requires Inv(s, l) && Linked(l, u) && i < |l.kids[u]|
    ensures l.kids[u][i] != Idle(s)
  {
    assert KidsOk(s, l, u) && ChildOk(s, l, u, i);
  }

  lemma ChildAt(s: Tree, l: Lay, v: nat) returns (i: nat)
    requires Inv(s, l) && Linked(l, v) && v != Idle(s)
    ensures HasParent(s, l, v) && i < |l.kids[s.t[v].p]| && l.kids[s.t[v].p][i] == v && ChildOk(s, l, s.t[v].p, i)
  {
    assert HasParent(s, l, v);
    var u := s.t[v].p;
    i :| 0 <= i < |l.kids[u]| && l.kids[u][i] == v;
    assert KidsOk(s, l, u);
  }

  /** audit_ptree has nothing to say about a linked task. */
  lemma AuditQuiet(s: Tree, l: Lay, u: nat)
    requires Inv(s, l) && Linked(l, u) && u != Idle(s)
    ensures u in s.t && Quiet(s, u)
  {
    var i := ChildAt(s, l, u);
    var w := s.t[u].p;
    assert KidsOk(s, l, w) && KidsOk(s, l, u);
    if i > 0 {
      assert ChildOk(s, l, w, i - 1);
      KidsDistinct(s, l, w, i - 1, i);
    }
    if i + 1 < |l.kids[w]| {
      assert ChildOk(s, l, w, i + 1);
      KidsDistinct(s, l, w, i + 1, i);
    }
    if l.kids[u] != [] { assert ChildOk(s, l, u, 0); }
  }

  /** But it can complain while a fork sleeps: the new task still has its parent's links.
      It stays quiet exactly if the parent has no children and no siblings. */
  lemma AuditOfHalfMade(s: Tree, l: Lay, u: nat, cur: nat)
    requires Inv(s, l) && u in l.making && Linked(l, cur) && cur != Idle(s)
    requires cur in s.t && s.t[u].(pid := s.t[cur].pid, state := s.t[cur].state) == s.t[cur]
    ensures Quiet(s, u) <==> s.t[cur].c == 0 && s.t[cur].y == 0 && s.t[cur].o == 0
  {
    AuditQuiet(s, l, cur);
    assert KidsOk(s, l, cur) && HasParent(s, l, cur);
    assert KidsOk(s, l, s.t[cur].p);
  }

  // ---- descent ----------------------------------------------------------------------------------------

  /** Following parents from v leads to u in n steps. */
  predicate Descends(s: Tree, v: nat, u: nat, n: nat)
    decreases n
  {
    if n == 0 then v == u else v in s.t && Descends(s, s.t[v].p, u, n - 1)
  }

  /** Every task but the idle one descends from init. */
  lemma {:induction false} DescendsFromInit(s: Tree, l: Lay, v: nat) returns (n: nat)
    requires Inv(s, l) && Linked(l, v) && v != Idle(s)
    ensures Descends(s, v, Init(s), n)
    decreases if v in l.born then l.born[v] else 0
  {
    var i := ChildAt(s, l, v);
    if v == Init(s) {
      n := 0;
    } else {
      var m := DescendsFromInit(s, l, s.t[v].p);
      n := m + 1;
    }
  }

  /** So init has a child as long as there is any other task: what do_exit relies on when
      it follows task[1]->p_cptr. */
  lemma {:induction false} InitHasChild(s: Tree, l: Lay, v: nat)
    requires Inv(s, l) && Linked(l, v) && v != Idle(s) && v != Init(s)
    ensures s.t[Init(s)].c != 0 && l.kids[Init(s)] != []
    decreases if v in l.born then l.born[v] else 0
  {
    var i := ChildAt(s, l, v);
    assert KidsOk(s, l, Init(s));
    if s.t[v].p == Init(s) {
      assert ChildOk(s, l, Init(s), 0);
    } else {
      InitHasChild(s, l, s.t[v].p);
    }
  }

  /** Siblings found by following p_osptr, n at most. */
  function Siblings(s: Tree, v: nat, n: nat): seq<nat>
    decreases n
  {
    if n == 0 || v == 0 || v !in s.t then [] else [v] + Siblings(s, s.t[v].o, n - 1)
  }

  /** The walk of do_exit and waitpid from p_cptr ends, and meets exactly the tasks whose
      parent this is, each once. */
  lemma SiblingsAreChildren(s: Tree, l: Lay, u: nat, n: nat)
    requires Inv(s, l) && Linked(l, u) && n >= |l.kids[u]|
    ensures u in s.t && Siblings(s, s.t[u].c, n) == l.kids[u]
    ensures forall i, j | 0 <= i < j < |l.kids[u]| :: l.kids[u][i] != l.kids[u][j]
    ensures forall v | Linked(l, v) && v != Idle(s) :: v in l.kids[u] <==> v in s.t && s.t[v].p == u
  {
    assert KidsOk(s, l, u);
    SiblingsFrom(s, l, u, 0, n);
    forall i, j | 0 <= i < j < |l.kids[u]|
      ensures l.kids[u][i] != l.kids[u][j]
    {
      KidsDistinct(s, l, u, i, j);
    }
    forall v | Linked(l, v) && v != Idle(s)
      ensures v in l.kids[u] <==> v in s.t && s.t[v].p == u
    {
      assert HasParent(s, l, v);
      if v in l.kids[u] {
        var i :| 0 <= i < |l.kids[u]| && l.kids[u][i] == v;
        assert ChildOk(s, l, u, i);
      }
    }
  }

  lemma {:induction false} SiblingsFrom(s: Tree, l: Lay, u: nat, i: nat, n: nat)
    requires Inv(s, l) && Linked(l, u) && i <= |l.kids[u]| && n >= |l.kids[u]| - i
    ensures Siblings(s, At(l.kids[u], i), n) == l.kids[u][i..]
    decreases |l.kids[u]| - i
  {
    if i < |l.kids[u]| {
      assert KidsOk(s, l, u) && ChildOk(s, l, u, i);
      SiblingsFrom(s, l, u, i + 1, n - 1);
    }
  }

  /** A dead task has no children, and nobody's parent is dead. */
  lemma ParentsLive(s: Tree, l: Lay, v: nat)
    requires Inv(s, l) && Linked(l, v) && v != Idle(s)
    ensures v in s.t && s.t[v].p in s.t && !s.t[s.t[v].p].state.Zombie?
  {
    var i := ChildAt(s, l, v);
    assert KidsOk(s, l, s.t[v].p);
  }

  lemma NotMine(s: Tree, l: Lay, cur: nat, u: nat, i: nat)
    requires Inv(s, l) && Linked(l, cur) && Linked(l, u) && u != cur && i < |l.kids[u]|
    ensures l.kids[u][i] !in l.kids[cur]
  {
    assert KidsOk(s, l, u) && ChildOk(s, l, u, i) && KidsOk(s, l, cur);
    forall j | 0 <= j < |l.kids[cur]|
      ensures l.kids[cur][j] != l.kids[u][i]
    {
      assert ChildOk(s, l, cur, j);
    }
  }
}
