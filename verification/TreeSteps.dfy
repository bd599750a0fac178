/** Fork, exit and reaping as steps, each of which keeps the tree. */
module TreeSteps {
  import opened TreeModel

  // ---- a task structure is made, and given up ---------------------------------------------------------

  /** The new structure in slot nr is a copy of cur, links and all. */
  function Made(s: Tree, nr: nat, p: nat, cur: nat, pid: int): Tree
    requires nr < |s.task| && cur in s.t
  {
    Tree(s.task[nr := p], s.t[p := s.t[cur].(pid := pid, state := Sleeping)])
  }

  function MadeLay(l: Lay, p: nat): Lay { l.(making := l.making + {p}, born := l.born[p := l.now], now := l.now + 1) }

  ghost predicate CanMake(s: Tree, l: Lay, nr: nat, p: nat, cur: nat) {
    Inv(s, l) && 1 < nr < NR_TASKS && p != 0 && p !in s.t && Linked(l, cur) && cur in s.t
  }

  lemma MakeOk(s: Tree, l: Lay, nr: nat, p: nat, cur: nat, pid: int)
    requires CanMake(s, l, nr, p, cur) && s.task[nr] == 0
    ensures Inv(Made(s, nr, p, cur, pid), MadeLay(l, p))
  {
    var g, m := Made(s, nr, p, cur, pid), MadeLay(l, p);
    forall u | Linked(m, u)
      ensures KidsOk(g, m, u)
    {
      MakeKids(s, l, nr, p, cur, pid, u);
    }
    forall v | Linked(m, v) && v != Idle(g)
      ensures HasParent(g, m, v)
    {
      assert HasParent(s, l, v);
    }
    MakeSlots(s, nr, p, s.t[cur].(pid := pid, state := Sleeping));
  }

  lemma MakeSlots(s: Tree, nr: nat, p: nat, new_: Proc)
    requires SlotsOk(s) && 1 < nr < NR_TASKS && s.task[nr] == 0 && p != 0 && p !in s.t
    ensures SlotsOk(Tree(s.task[nr := p], s.t[p := new_]))
  {
    var g := Tree(s.task[nr := p], s.t[p := new_]);
    forall u | u in g.t
      ensures u in g.task
    {
      if u == p {
        assert g.task[nr] == p;
      } else {
        var i :| 0 <= i < NR_TASKS && s.task[i] == u;
        assert g.task[i] == u;
      }
    }
  }

  /** The structure can go into its slot exactly if the slot is still empty: otherwise the
      task that took it meanwhile drops out of task[]. */
  lemma MakeOkIff(s: Tree, l: Lay, nr: nat, p: nat, cur: nat, pid: int)
    requires CanMake(s, l, nr, p, cur)
    ensures Inv(Made(s, nr, p, cur, pid), MadeLay(l, p)) <==> s.task[nr] == 0
  {
    if s.task[nr] == 0 {
      MakeOk(s, l, nr, p, cur, pid);
    } else {
      var g := Made(s, nr, p, cur, pid);
      assert s.task[nr] in g.t && s.task[nr] !in g.task;
    }
  }

  lemma MakeKids(s: Tree, l: Lay, nr: nat, p: nat, cur: nat, pid: int, u: nat)
    requires CanMake(s, l, nr, p, cur) && Linked(l, u)
    ensures KidsOk(Made(s, nr, p, cur, pid), MadeLay(l, p), u)
  {
    assert KidsOk(s, l, u);
    forall i | 0 <= i < |l.kids[u]|
      ensures ChildOk(Made(s, nr, p, cur, pid), MadeLay(l, p), u, i)
    {
      assert ChildOk(s, l, u, i);
    }
  }

  function Unmade(s: Tree, nr: nat): Tree
    requires nr < |s.task|
  {
    Tree(s.task[nr := 0], s.t - {s.task[nr]})
  }

  function UnmadeLay(l: Lay, p: nat): Lay { l.(making := l.making - {p}) }

  lemma UnmakeOk(s: Tree, l: Lay, nr: nat)
    requires Inv(s, l) && nr < NR_TASKS && s.task[nr] in l.making
    ensures Inv(Unmade(s, nr), UnmadeLay(l, s.task[nr]))
  {
    var p := s.task[nr];
    var g, m := Unmade(s, nr), UnmadeLay(l, p);
    assert KidsOk(s, l, Idle(s)) && KidsOk(s, l, Init(s));
    forall u | Linked(m, u)
      ensures KidsOk(g, m, u)
    {
      assert KidsOk(s, l, u);
      forall i | 0 <= i < |l.kids[u]|
        ensures ChildOk(g, m, u, i)
      {
        assert ChildOk(s, l, u, i);
        assert KidsOk(s, l, l.kids[u][i]);
      }
    }
    forall v | Linked(m, v) && v != Idle(g)
      ensures HasParent(g, m, v)
    {
      assert HasParent(s, l, v) && KidsOk(s, l, v);
    }
    forall u | u in g.t
      ensures u in g.task
    {
      var i :| 0 <= i < NR_TASKS && s.task[i] == u;
      assert g.task[i] == u;
    }
  }

  // ---- fork links the new task in ------------------------------------------------------------------------

  ghost predicate CanLink(s: Tree, l: Lay, p: nat, cur: nat) {
    && Inv(s, l) && p in l.making && Linked(l, cur) && cur != Idle(s) && cur in s.t && !s.t[cur].state.Zombie?
    && cur in l.born && l.born[cur] < l.born[p]
  }

  /** copy_process from "p_pptr = current" to "state = TASK_RUNNING". */
  function Joined(s: Tree, p: nat, cur: nat): Tree
    requires p in s.t && cur in s.t
  {
    var c := s.t[cur].c;
    var t1 := s.t[p := s.t[p].(p := cur, c := 0, y := 0, o := c)];
    var t2 := if c != 0 && c in t1 then t1[c := t1[c].(y := p)] else t1;
    var t3 := t2[cur := t2[cur].(c := p)];
    s.(t := t3[p := t3[p].(state := Running)])
  }

  function JoinedLay(l: Lay, p: nat, cur: nat): Lay
    requires cur in l.kids
  {
    l.(kids := l.kids[p := []][cur := [p] + l.kids[cur]], making := l.making - {p})
  }

  lemma JoinKids(s: Tree, l: Lay, p: nat, cur: nat, u: nat)
    requires CanLink(s, l, p, cur) && (Linked(l, u) || u == p)
    ensures KidsOk(Joined(s, p, cur), JoinedLay(l, p, cur), u)
  {
    var g, m := Joined(s, p, cur), JoinedLay(l, p, cur);
    assert KidsOk(s, l, cur);
    if l.kids[cur] != [] { assert ChildOk(s, l, cur, 0); }
    MakingApart(s, l, p);
    if u != p {
      assert KidsOk(s, l, u);
      forall i | 0 <= i < |m.kids[u]|
        ensures ChildOk(g, m, u, i)
      {
        if u == cur {
          assert i > 0 ==> ChildOk(s, l, cur, i - 1);
          if i > 1 { KidsDistinct(s, l, cur, i - 1, 0); }
        } else {
          assert ChildOk(s, l, u, i);
        }
      }
    }
  }

  lemma JoinParent(s: Tree, l: Lay, p: nat, cur: nat, v: nat)
    requires CanLink(s, l, p, cur) && p !in l.kids && (Linked(l, v) || v == p) && v != Idle(s)
    ensures HasParent(Joined(s, p, cur), JoinedLay(l, p, cur), v)
  {
    var m := JoinedLay(l, p, cur);
    assert KidsOk(s, l, cur);
    if l.kids[cur] != [] { assert ChildOk(s, l, cur, 0); }
    if v == p {
      assert m.kids[cur][0] == p;
    } else {
      assert HasParent(s, l, v);
    }
  }

  lemma JoinOk(s: Tree, l: Lay, p: nat, cur: nat)
    requires CanLink(s, l, p, cur)
    ensures Inv(Joined(s, p, cur), JoinedLay(l, p, cur))
  {
    var g, m := Joined(s, p, cur), JoinedLay(l, p, cur);
    assert KidsOk(s, l, cur) && KidsOk(s, l, Idle(s)) && KidsOk(s, l, Init(s));
    if l.kids[cur] != [] {
      assert ChildOk(s, l, cur, 0);
      IdleIsNoChild(s, l, cur, 0);
    }
    MakingApart(s, l, p);
    forall u | Linked(m, u)
      ensures KidsOk(g, m, u)
    {
      JoinKids(s, l, p, cur, u);
    }
    forall v | Linked(m, v) && v != Idle(g)
      ensures HasParent(g, m, v)
    {
      JoinParent(s, l, p, cur, v);
    }
  }

  // ---- exit ----------------------------------------------------------------------------------------------

  ghost predicate CanExit(s: Tree, l: Lay, cur: nat) {
    Inv(s, l) && Linked(l, cur) && cur != Idle(s) && cur != Init(s) && cur in s.t
  }

  /** Every task in the list gets parent w. */
  function Adopted(t: map<nat, Proc>, list: seq<nat>, w: nat): map<nat, Proc> {
    map u | u in t :: if u in list then t[u].(p := w) else t[u]
  }

  /** The list that begins at cur's child and ends at last goes in front of w's. */
  function Joint(t: map<nat, Proc>, last: nat, cur: nat, w: nat): map<nat, Proc>
    requires cur in t
  {
    var d := if w in t then t[w].c else 0;
    var t2 := if last in t then t[last := t[last].(o := d)] else t;
    var t3 := if d in t2 then t2[d := t2[d].(y := last)] else t2;
    var t4 := if w in t3 then t3[w := t3[w].(c := t3[cur].c)] else t3;
    t4[cur := t4[cur].(c := 0)]
  }

  /** do_exit: dead, and the children, in their order, before those of init. */
  function Exited(s: Tree, cur: nat, kids: seq<nat>): Tree
    requires |s.task| == NR_TASKS && cur in s.t
  {
    var w := Init(s);
    var t0 := s.t[cur := s.t[cur].(state := Zombie)];
    if kids == [] then s.(t := t0)
    else
      var last := kids[|kids| - 1];
      var t1 := Adopted(t0, kids, w);
      s.(t := Joint(t1, last, cur, w))
  }

  ghost function ExitedLay(s: Tree, l: Lay, cur: nat): Lay
    requires |s.task| == NR_TASKS && cur in l.kids && Init(s) in l.kids
  {
    l.(kids := l.kids[Init(s) := l.kids[cur] + l.kids[Init(s)]][cur := []])
  }

  /** What changes where: the state of everybody's links after an exit with children. */
  ghost predicate ExitLinks(s: Tree, l: Lay, cur: nat, g: Tree)
    requires |s.task| == NR_TASKS && cur in l.kids && l.kids[cur] != [] && Init(s) in l.kids && cur in s.t
  {
    var w, ks := Init(s), l.kids[cur];
    var d := At(l.kids[w], 0);
    && g.task == s.task && g.t.Keys == s.t.Keys
    && (forall u {:trigger g.t[u]} | u in s.t :: g.t[u] == s.t[u].(
          p := if u in ks then w else s.t[u].p,
          o := if u == ks[|ks| - 1] then d else s.t[u].o,
          y := if u == d then ks[|ks| - 1] else s.t[u].y,
          c := if u == cur then 0 else if u == w then s.t[cur].c else s.t[u].c,
          state := if u == cur then Zombie else s.t[u].state))
  }

  /** Two lists of children, their ends and their parents, as do_exit finds them. */
  ghost predicate TwoFamilies(s: Tree, cur: nat, ks: seq<nat>, d: nat)
    requires |s.task| == NR_TASKS
  {
    && ks != [] && cur in s.t && Init(s) in s.t && cur != Init(s) && s.t[cur].c == ks[0] && s.t[Init(s)].c == d
    && d in s.t && d != 0 && d != Init(s) && ks[|ks| - 1] in s.t && Init(s) !in ks && cur !in ks
  }

  lemma Families(s: Tree, l: Lay, cur: nat)
    requires CanExit(s, l, cur) && l.kids[cur] != []
    ensures l.kids[Init(s)] != [] && TwoFamilies(s, cur, l.kids[cur], l.kids[Init(s)][0])
  {
    var w, ks := Init(s), l.kids[cur];
    InitHasChild(s, l, cur);
    assert KidsOk(s, l, cur) && KidsOk(s, l, w) && KidsOk(s, l, Idle(s));
    assert ChildOk(s, l, w, 0) && ChildOk(s, l, cur, |ks| - 1);
    forall j | 0 <= j < |ks|
      ensures ks[j] != cur && ks[j] != w
    {
      assert ChildOk(s, l, cur, j);
    }
  }

  lemma ExitFacts(s: Tree, l: Lay, cur: nat)
    requires CanExit(s, l, cur) && l.kids[cur] != []
    ensures ExitLinks(s, l, cur, Exited(s, cur, l.kids[cur]))
    ensures l.kids[Init(s)] != []
  {
    Families(s, l, cur);
  }

  lemma ExitKids(s: Tree, l: Lay, cur: nat, u: nat)
    requires CanExit(s, l, cur) && l.kids[cur] != [] && Linked(l, u)
    ensures KidsOk(Exited(s, cur, l.kids[cur]), ExitedLay(s, l, cur), u)
  {
    ExitFacts(s, l, cur);
    var w, ks := Init(s), l.kids[cur];
    var g, m := Exited(s, cur, ks), ExitedLay(s, l, cur);
    assert KidsOk(s, l, cur) && KidsOk(s, l, w) && KidsOk(s, l, u);
    assert ChildOk(s, l, w, 0) && ChildOk(s, l, cur, |ks| - 1) && ChildOk(s, l, cur, 0);
    if u == w {
      forall i | 0 <= i < |m.kids[w]|
        ensures ChildOk(g, m, w, i)
      {
        ExitInitChild(s, l, cur, i);
      }
    } else if u != cur {
      forall i | 0 <= i < |m.kids[u]|
        ensures ChildOk(g, m, u, i)
      {
        assert ChildOk(s, l, u, i);
        ExitOtherChild(s, l, cur, u, i);
      }
    }
  }

  lemma ExitInitChild(s: Tree, l: Lay, cur: nat, i: nat)
    requires CanExit(s, l, cur) && l.kids[cur] != [] && i < |l.kids[cur]| + |l.kids[Init(s)]|
    ensures ChildOk(Exited(s, cur, l.kids[cur]), ExitedLay(s, l, cur), Init(s), i)
  {
    if i < |l.kids[cur]| {
      ExitAdopted(s, l, cur, i);
    } else {
      ExitOwnChild(s, l, cur, i - |l.kids[cur]|);
    }
  }

  lemma ExitAdopted(s: Tree, l: Lay, cur: nat, i: nat)
    requires CanExit(s, l, cur) && l.kids[cur] != [] && i < |l.kids[cur]|
    ensures ChildOk(Exited(s, cur, l.kids[cur]), ExitedLay(s, l, cur), Init(s), i)
  {
    ExitFacts(s, l, cur);
    var w, n := Init(s), |l.kids[cur]|;
    assert KidsOk(s, l, cur) && KidsOk(s, l, w) && ChildOk(s, l, w, 0) && ChildOk(s, l, cur, i);
    KidsDistinct(s, l, cur, i, n - 1);
  }

  lemma ExitOwnChild(s: Tree, l: Lay, cur: nat, j: nat)
    requires CanExit(s, l, cur) && l.kids[cur] != [] && j < |l.kids[Init(s)]|
    ensures ChildOk(Exited(s, cur, l.kids[cur]), ExitedLay(s, l, cur), Init(s), |l.kids[cur]| + j)
  {
    ExitFacts(s, l, cur);
    var w := Init(s);
    assert KidsOk(s, l, w) && ChildOk(s, l, w, j);
    NotMine(s, l, cur, w, j);
    KidsDistinct(s, l, w, j, 0);
  }

  lemma ExitOtherChild(s: Tree, l: Lay, cur: nat, u: nat, i: nat)
    requires CanExit(s, l, cur) && l.kids[cur] != [] && Linked(l, u) && u != cur && u != Init(s) && i < |l.kids[u]|
    ensures ChildOk(Exited(s, cur, l.kids[cur]), ExitedLay(s, l, cur), u, i)
  {
    ExitFacts(s, l, cur);
    assert KidsOk(s, l, u) && ChildOk(s, l, u, i) && KidsOk(s, l, Init(s)) && ChildOk(s, l, Init(s), 0);
    NotMine(s, l, cur, u, i);
  }

  lemma ExitOk(s: Tree, l: Lay, cur: nat)
    requires CanExit(s, l, cur)
    ensures Inv(Exited(s, cur, l.kids[cur]), ExitedLay(s, l, cur))
  {
    if l.kids[cur] == [] {
      ExitChildless(s, l, cur);
      return;
    }
    ExitFacts(s, l, cur);
    var w, ks := Init(s), l.kids[cur];
    var g, m := Exited(s, cur, ks), ExitedLay(s, l, cur);
    assert KidsOk(s, l, Idle(s)) && KidsOk(s, l, w) && HasParent(s, l, w);
    IdleIsNoChild(s, l, w, 0);
    NotMine(s, l, cur, Idle(s), 0) by { assert Init(s) in l.kids[Idle(s)]; }
    forall j | 0 <= j < |ks|
      ensures ks[j] != Idle(s) && ks[j] != w
    {
      IdleIsNoChild(s, l, cur, j);
      assert KidsOk(s, l, cur) && ChildOk(s, l, cur, j);
    }
    forall u | Linked(m, u)
      ensures KidsOk(g, m, u)
    {
      ExitKids(s, l, cur, u);
    }
    forall v | Linked(m, v) && v != Idle(g)
      ensures HasParent(g, m, v)
    {
      ExitParent(s, l, cur, v);
    }
  }

  lemma ExitParent(s: Tree, l: Lay, cur: nat, v: nat)
    requires CanExit(s, l, cur) && l.kids[cur] != [] && Linked(l, v) && v != Idle(s)
    ensures HasParent(Exited(s, cur, l.kids[cur]), ExitedLay(s, l, cur), v)
  {
    ExitFacts(s, l, cur);
    var j := ChildAt(s, l, v);
    if s.t[v].p != cur {
      NotMine(s, l, cur, s.t[v].p, j);
    }
  }

  lemma ExitChildless(s: Tree, l: Lay, cur: nat)
    requires CanExit(s, l, cur) && l.kids[cur] == []
    ensures Inv(Exited(s, cur, l.kids[cur]), ExitedLay(s, l, cur))
  {
    var g, m := Exited(s, cur, []), ExitedLay(s, l, cur);
    assert [] + l.kids[Init(s)] == l.kids[Init(s)];
    assert m.kids == l.kids;
    forall u | Linked(m, u)
      ensures KidsOk(g, m, u)
    {
      assert KidsOk(s, l, u);
      forall i | 0 <= i < |m.kids[u]|
        ensures ChildOk(g, m, u, i)
      {
        assert ChildOk(s, l, u, i);
      }
    }
    forall v | Linked(m, v) && v != Idle(g)
      ensures HasParent(g, m, v)
    {
      assert HasParent(s, l, v);
    }
  }

  // ---- init exits -------------------------------------------------------------------------------------------

  ghost predicate CanDie(s: Tree, l: Lay, cur: nat) { Inv(s, l) && Linked(l, cur) && cur != Idle(s) && cur in s.t }

  /** The links that do_exit follows are there, also if it is init that exits. */
  lemma FamilyThere(s: Tree, l: Lay, cur: nat)
    requires CanDie(s, l, cur) && l.kids[cur] != []
    ensures var ks := l.kids[cur];
      && s.t[cur].c == ks[0] && ks[|ks| - 1] in s.t && Init(s) in s.t && s.t[Init(s)].c in s.t && s.t[Init(s)].c != Init(s)
      && Init(s) !in ks && cur !in ks
  {
    assert KidsOk(s, l, cur) && ChildOk(s, l, cur, |l.kids[cur]| - 1);
    if cur == Init(s) {
      assert ChildOk(s, l, cur, 0);
      forall j | 0 <= j < |l.kids[cur]|
        ensures l.kids[cur][j] != cur
      {
        assert ChildOk(s, l, cur, j);
      }
    } else {
      Families(s, l, cur);
    }
  }

  /** The tasks of the list follow each other along o, and the first follows the last. */
  ghost predicate Cyclic(g: Tree, ks: seq<nat>) {
    ks != [] && forall j {:trigger InCycle(g, ks, j)} | 0 <= j < |ks| :: InCycle(g, ks, j)
  }

  ghost predicate InCycle(g: Tree, ks: seq<nat>, j: nat)
    requires j < |ks|
  {
    ks[j] != 0 && ks[j] in g.t && g.t[ks[j]].o == if j + 1 < |ks| then ks[j + 1] else ks[0]
  }

  lemma {:induction false} CycleNeverEnds(g: Tree, ks: seq<nat>, j: nat, n: nat)
    requires Cyclic(g, ks) && j < |ks|
    ensures |Siblings(g, ks[j], n)| == n
    decreases n
  {
    assert InCycle(g, ks, j);
    if n > 0 { CycleNeverEnds(g, ks, if j + 1 < |ks| then j + 1 else 0, n - 1); }
  }

  /** If init exits with children, it puts them in front of themselves: they are nobody's
      any more, and the walk along their siblings never ends. */
  lemma InitExitBreaks(s: Tree, l: Lay)
    requires Inv(s, l) && l.kids[Init(s)] != []
    ensures var g, ks := Exited(s, Init(s), l.kids[Init(s)]), l.kids[Init(s)];
      && Init(s) in g.t && g.t[Init(s)].c == 0 && (forall n: nat :: |Siblings(g, ks[0], n)| == n)
      && (forall m :: !Inv(g, m))
  {
    var w, ks := Init(s), l.kids[Init(s)];
    var g := Exited(s, w, ks);
    assert HasParent(s, l, w);
    FamilyThere(s, l, w);
    assert KidsOk(s, l, w);
    forall j | 0 <= j < |ks|
      ensures InCycle(g, ks, j)
    {
      assert ChildOk(s, l, w, j);
      KidsDistinct(s, l, w, j, |ks| - 1);
    }
    forall n: nat
      ensures |Siblings(g, ks[0], n)| == n
    {
      CycleNeverEnds(g, ks, 0, n);
    }
    assert g.t[w].state.Zombie? && g.task == s.task;
  }

  // ---- reaping ---------------------------------------------------------------------------------------------

  ghost predicate CanReap(s: Tree, l: Lay, nr: nat, p: nat) {
    Inv(s, l) && Linked(l, p) && p in s.t && s.t[p].state.Zombie? && 1 < nr < NR_TASKS && s.task[nr] == p
  }

  /** release: the slot is cleared and the neighbours are joined. */
  function Reaped(s: Tree, nr: nat, p: nat): Tree
    requires nr < |s.task| && p in s.t
  {
    var n := s.t[p];
    var t1 := if n.o != 0 && n.o in s.t then s.t[n.o := s.t[n.o].(y := n.y)] else s.t;
    var t2 := if n.y != 0 then (if n.y in t1 then t1[n.y := t1[n.y].(o := n.o)] else t1)
              else if n.p in t1 then t1[n.p := t1[n.p].(c := n.o)] else t1;
    Tree(s.task[nr := 0], t2 - {p})
  }

  ghost function ReapedLay(s: Tree, l: Lay, p: nat, i: nat): Lay
    requires p in s.t && s.t[p].p in l.kids && i < |l.kids[s.t[p].p]|
  {
    var u := s.t[p].p;
    l.(kids := l.kids[u := l.kids[u][..i] + l.kids[u][i + 1..]] - {p})
  }

  lemma ReapFacts(s: Tree, l: Lay, nr: nat, p: nat, i: nat)
    requires CanReap(s, l, nr, p) && s.t[p].p in l.kids && i < |l.kids[s.t[p].p]| && l.kids[s.t[p].p][i] == p
    ensures p != Idle(s) && p != Init(s) && s.t[p].p in s.t && s.t[p].p != p
    ensures l.kids[p] == []
    ensures var u, g := s.t[p].p, Reaped(s, nr, p);
      var ks := l.kids[u];
      && g.t.Keys == s.t.Keys - {p}
      && forall x {:trigger g.t[x]} | x in g.t :: g.t[x] == s.t[x].(
           y := if i + 1 < |ks| && x == ks[i + 1] then At(ks, i - 1) else s.t[x].y,
           o := if i > 0 && x == ks[i - 1] then At(ks, i + 1) else s.t[x].o,
           c := if i == 0 && x == u then At(ks, 1) else s.t[x].c)
  {
    var u := s.t[p].p;
    assert KidsOk(s, l, p) && KidsOk(s, l, u) && ChildOk(s, l, u, i);
    if i > 0 { assert ChildOk(s, l, u, i - 1); }
    if i + 1 < |l.kids[u]| { assert ChildOk(s, l, u, i + 1); }
  }

  /** A child is its neighbours' neighbour only where it stands. */
  lemma KidApart(s: Tree, l: Lay, u: nat, k: nat, i: nat)
    requires 0 !in s.t && Linked(l, u) && KidsOk(s, l, u) && k < |l.kids[u]| && i < |l.kids[u]|
    ensures l.kids[u][k] == l.kids[u][i] ==> k == i
    ensures i > 0 && l.kids[u][k] == l.kids[u][i - 1] ==> k == i - 1
    ensures i + 1 < |l.kids[u]| && l.kids[u][k] == l.kids[u][i + 1] ==> k == i + 1
  {
    KidsDistinct(s, l, u, k, i);
    if i > 0 { KidsDistinct(s, l, u, k, i - 1); }
    if i + 1 < |l.kids[u]| { KidsDistinct(s, l, u, k, i + 1); }
  }

  lemma ReapSibling(s: Tree, l: Lay, nr: nat, p: nat, i: nat, j: nat)
    requires CanReap(s, l, nr, p) && s.t[p].p in l.kids && i < |l.kids[s.t[p].p]| && l.kids[s.t[p].p][i] == p
    requires j + 1 < |l.kids[s.t[p].p]|
    ensures s.t[p].p in ReapedLay(s, l, p, i).kids && ChildOk(Reaped(s, nr, p), ReapedLay(s, l, p, i), s.t[p].p, j)
  {
    ReapFacts(s, l, nr, p, i);
    var u := s.t[p].p;
    assert KidsOk(s, l, u);
    var k := if j < i then j else j + 1;
    assert ReapedLay(s, l, p, i).kids[u][j] == l.kids[u][k] && ChildOk(s, l, u, k);
    KidApart(s, l, u, k, i);
  }

  lemma ReapKids(s: Tree, l: Lay, nr: nat, p: nat, i: nat, w: nat)
    requires CanReap(s, l, nr, p) && s.t[p].p in l.kids && i < |l.kids[s.t[p].p]| && l.kids[s.t[p].p][i] == p
    requires Linked(l, w) && w != p
    ensures KidsOk(Reaped(s, nr, p), ReapedLay(s, l, p, i), w)
  {
    ReapFacts(s, l, nr, p, i);
    var u := s.t[p].p;
    var g, m := Reaped(s, nr, p), ReapedLay(s, l, p, i);
    assert KidsOk(s, l, w);
    forall j | 0 <= j < |m.kids[w]|
      ensures ChildOk(g, m, w, j)
    {
      if w == u {
        ReapSibling(s, l, nr, p, i, j);
      } else {
        assert ChildOk(s, l, w, j);
        NotMine(s, l, u, w, j);
      }
    }
  }

  lemma ReapOk(s: Tree, l: Lay, nr: nat, p: nat, i: nat)
    requires CanReap(s, l, nr, p) && s.t[p].p in l.kids && i < |l.kids[s.t[p].p]| && l.kids[s.t[p].p][i] == p
    ensures Inv(Reaped(s, nr, p), ReapedLay(s, l, p, i))
  {
    ReapFacts(s, l, nr, p, i);
    var u := s.t[p].p;
    var g, m := Reaped(s, nr, p), ReapedLay(s, l, p, i);
    assert KidsOk(s, l, p) && KidsOk(s, l, u) && KidsOk(s, l, Idle(s)) && KidsOk(s, l, Init(s));
    if i > 0 { IdleIsNoChild(s, l, u, i - 1); }
    if i + 1 < |l.kids[u]| { IdleIsNoChild(s, l, u, i + 1); }
    forall w | Linked(m, w)
      ensures KidsOk(g, m, w)
    {
      ReapKids(s, l, nr, p, i, w);
    }
    forall v | Linked(m, v) && v != Idle(g)
      ensures HasParent(g, m, v)
    {
      assert HasParent(s, l, v);
      ReapParent(s, l, nr, p, i, v);
    }
    ReapSlots(s, l, nr, p);
  }

  lemma ReapSlots(s: Tree, l: Lay, nr: nat, p: nat)
    requires CanReap(s, l, nr, p)
    ensures forall x | x in Reaped(s, nr, p).t :: x in Reaped(s, nr, p).task
  {
    var g := Reaped(s, nr, p);
    forall x | x in g.t
      ensures x in g.task
    {
      var k :| 0 <= k < NR_TASKS && s.task[k] == x;
      assert g.task[k] == x;
    }
  }

  lemma ReapParent(s: Tree, l: Lay, nr: nat, p: nat, i: nat, v: nat)
    requires CanReap(s, l, nr, p) && s.t[p].p in l.kids && i < |l.kids[s.t[p].p]| && l.kids[s.t[p].p][i] == p
    requires Linked(l, v) && v != p && v != Idle(s)
    ensures HasParent(Reaped(s, nr, p), ReapedLay(s, l, p, i), v)
  {
    ReapFacts(s, l, nr, p, i);
    var m := ReapedLay(s, l, p, i);
    var j := ChildAt(s, l, v);
    assert KidsOk(s, l, v) && KidsOk(s, l, s.t[v].p);
    if s.t[v].p == s.t[p].p {
      assert m.kids[s.t[p].p][if j < i then j else j - 1] == v;
    }
  }

  // ---- everything else --------------------------------------------------------------------------------------

  /** A task changes its state or its process group, without dying or coming to life. */
  function Changed(s: Tree, u: nat, state: PState, pgrp: int, code: nat): Tree
    requires u in s.t
  {
    s.(t := s.t[u := s.t[u].(state := state, pgrp := pgrp, code := code)])
  }

  lemma ChangeOk(s: Tree, l: Lay, u: nat, state: PState, pgrp: int, code: nat)
    requires Inv(s, l) && u in s.t && (state.Zombie? <==> s.t[u].state.Zombie?)
    ensures Inv(Changed(s, u, state, pgrp, code), l)
  {
    var g := Changed(s, u, state, pgrp, code);
    forall w | Linked(l, w)
      ensures KidsOk(g, l, w)
    {
      assert KidsOk(s, l, w);
      forall i | 0 <= i < |l.kids[w]|
        ensures ChildOk(g, l, w, i)
      {
        assert ChildOk(s, l, w, i);
      }
    }
    forall v | Linked(l, v) && v != Idle(g)
      ensures HasParent(g, l, v)
    {
      assert HasParent(s, l, v);
    }
  }
}
