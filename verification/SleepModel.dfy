/** Wait queues: each queue is one word that names the newest waiter; the others hang behind
    it through what each sleeper remembers (tmp in __sleep_on, old_task in select). */
module SleepModel {
  datatype TState = Running | Interruptible | Uninterruptible | Other

  /** A waiter's part of a queue: the task it found in the word (0: none), and whether it
      waits in select, where it may be on several queues. */
  datatype Entry = Entry(old_: nat, select: bool)

  datatype Sys = Sys(
    word: seq<nat>,                    // per queue
    state: seq<TState>,                // per task; 0 is the idle task
    saved: seq<map<nat, Entry>>)       // per task: its entries, by queue

  /** The queues as lists, newest waiter first, and when each waiter came. */
  datatype Lay = Lay(stk: seq<seq<nat>>, came: map<(nat, nat), nat>, now: nat)

  function At(l: seq<nat>, i: nat): nat { if i < |l| then l[i] else 0 }

  ghost predicate Task(s: Sys, t: nat) { 1 <= t < |s.state| && t < |s.saved| }

  ghost predicate WaiterOk(s: Sys, l: Lay, q: nat, i: nat)
    requires q < |l.stk| && i < |l.stk[q]|
  {
    var t := l.stk[q][i];
    && Task(s, t) && s.state[t] != Other && q in s.saved[t] && s.saved[t][q].old_ == At(l.stk[q], i + 1)
    && (q, t) in l.came && l.came[(q, t)] < l.now
  }

  ghost predicate Ordered(l: Lay, q: nat, i: nat, j: nat)
    requires q < |l.stk| && i < j < |l.stk[q]|
  {
    (q, l.stk[q][i]) in l.came && (q, l.stk[q][j]) in l.came && l.came[(q, l.stk[q][i])] > l.came[(q, l.stk[q][j])]
  }

  /** The word and the saved pointers list the waiters of q, each once, newest first. */
  ghost predicate QueueOk(s: Sys, l: Lay, q: nat)
    requires q < |s.word| && q < |l.stk|
  {
    && s.word[q] == At(l.stk[q], 0)
    && (forall i {:trigger WaiterOk(s, l, q, i)} | 0 <= i < |l.stk[q]| :: WaiterOk(s, l, q, i))
    && (forall i, j {:trigger Ordered(l, q, i, j)} | 0 <= i < j < |l.stk[q]| :: Ordered(l, q, i, j))
    && (forall t: nat | t < |s.saved| && q in s.saved[t] :: t in l.stk[q])
  }

  /** A task in __sleep_on waits in one queue only; one in select waits in select queues. */
  ghost predicate EntriesOk(s: Sys, t: nat)
    requires t < |s.saved|
  {
    forall q, r | q in s.saved[t] && r in s.saved[t] && !s.saved[t][q].select :: q == r
  }

  ghost predicate Inv(s: Sys, l: Lay) {
    && |s.word| == |l.stk| && |s.state| == |s.saved| > 0 && s.saved[0] == map[]
    && (forall q {:trigger QueueOk(s, l, q)} | 0 <= q < |s.word| :: QueueOk(s, l, q))
    && (forall t, q | 0 <= t < |s.saved| && q in s.saved[t] :: q < |s.word|)
    && (forall t {:trigger EntriesOk(s, t)} | 0 <= t < |s.saved| :: EntriesOk(s, t))
  }

  // ---- steps ------------------------------------------------------------------------------------------

  datatype Act =
    | Join(t: nat, q: nat, select: bool, st: TState)   // __sleep_on up to schedule, or add_wait
    | Doze(t: nat)                                     // select goes to sleep
    | Defer(t: nat, q: nat)                            // not the newest: wake that one, sleep on
    | Leave(t: nat, q: nat)                            // put the saved task into the word and wake it
    | Wake(q: nat)
    | Signal(t: nat)                                   // a signal or a timeout
    | Elsewhere(t: nat, st: TState)                    // anything about a task that waits nowhere

  ghost predicate Enabled(s: Sys, a: Act)
    requires |s.state| == |s.saved|
  {
    match a
    case Join(t, q, select, st) =>
      && Task(s, t) && q < |s.word| && s.state[t] == Running && q !in s.saved[t]
      && (if select then st == Running && forall r | r in s.saved[t] :: s.saved[t][r].select
          else s.saved[t] == map[] && (st == Interruptible || st == Uninterruptible))
    case Doze(t) => Task(s, t) && s.state[t] == Running && forall r | r in s.saved[t] :: s.saved[t][r].select
    case Defer(t, q) => Task(s, t) && q < |s.word| && s.state[t] == Running && q in s.saved[t] && s.word[q] != 0 && s.word[q] != t
    case Leave(t, q) => Task(s, t) && q < |s.word| && s.state[t] == Running && q in s.saved[t] && (s.word[q] == 0 || s.word[q] == t)
    case Wake(q) => q < |s.word|
    case Signal(t) => Task(s, t) && s.state[t] == Interruptible
    case Elsewhere(t, st) => t < |s.state| && s.saved[t] == map[]
  }

  /** The state word of a task, NULL excepted, becomes "running". */
  function Runs(state: seq<TState>, t: nat): seq<TState> {
    if 0 < t < |state| then state[t := Running] else state
  }

  function With(entries: map<nat, Entry>, q: nat, e: Entry): map<nat, Entry> { entries[q := e] }

  function Apply(s: Sys, a: Act): Sys
    requires |s.state| == |s.saved|
  {
    match a
    case Join(t, q, select, st) =>
      if t < |s.state| && q < |s.word| then
        Sys(s.word[q := t], s.state[t := st], s.saved[t := With(s.saved[t], q, Entry(s.word[q], select))])
      else s
    case Doze(t) => if t < |s.state| then s.(state := s.state[t := Interruptible]) else s
    case Defer(t, q) => if t < |s.state| && q < |s.word| then s.(state := Runs(s.state, s.word[q])[t := Uninterruptible]) else s
    case Leave(t, q) =>
      if t < |s.state| && q < |s.word| && q in s.saved[t] then
        Sys(s.word[q := s.saved[t][q].old_], Runs(s.state, s.saved[t][q].old_), s.saved[t := s.saved[t] - {q}])
      else s
    case Wake(q) => if q < |s.word| then s.(state := Runs(s.state, s.word[q])) else s
    case Signal(t) => if t < |s.state| then s.(state := s.state[t := Running]) else s
    case Elsewhere(t, st) => if t < |s.state| then s.(state := s.state[t := st]) else s
  }

  function After(l: Lay, a: Act): Lay {
    match a
    case Join(t, q, _, _) =>
      if q < |l.stk| then Lay(l.stk[q := [t] + l.stk[q]], l.came[(q, t) := l.now], l.now + 1) else l
    case Leave(t, q) => if q < |l.stk| && |l.stk[q]| > 0 then l.(stk := l.stk[q := l.stk[q][1..]]) else l
    case _ => l
  }

  /** What the steps do to the queue's word and the tasks' states: joining leaves the word naming
      the new waiter, who remembers the one before and sleeps; a waiter that is not the newest
      makes the newest runnable and sleeps on; the newest gives the word back to the one it
      remembered and makes that one runnable; wake_up makes the newest runnable. */
  lemma StepMeans(s: Sys, a: Act)
    requires |s.state| == |s.saved| && Enabled(s, a) && (forall q | 0 <= q < |s.word| :: s.word[q] < |s.state|)
    requires a.Leave? ==> s.saved[a.t][a.q].old_ < |s.state|
    ensures a.Join? ==> Apply(s, a).word == s.word[a.q := a.t] && Apply(s, a).state == s.state[a.t := a.st]
    ensures a.Join? ==> a.q in Apply(s, a).saved[a.t] && Apply(s, a).saved[a.t][a.q].old_ == s.word[a.q]
    ensures a.Defer? ==> Apply(s, a) == s.(state := s.state[s.word[a.q] := Running][a.t := Uninterruptible])
    ensures a.Leave? ==> var before := s.saved[a.t][a.q].old_;
      Apply(s, a).word == s.word[a.q := before] && (before != 0 ==> Apply(s, a).state == s.state[before := Running])
      && Apply(s, a).saved == s.saved[a.t := s.saved[a.t] - {a.q}]
    ensures a.Wake? ==> Apply(s, a) == if s.word[a.q] == 0 then s else s.(state := s.state[s.word[a.q] := Running])
    ensures a.Doze? ==> Apply(s, a) == s.(state := s.state[a.t := Interruptible])
    ensures a.Signal? ==> Apply(s, a) == s.(state := s.state[a.t := Running])
  {
  }

  lemma Listed(s: Sys, l: Lay, q: nat, t: nat) returns (i: nat)
    requires Inv(s, l) && t < |s.saved| && q in s.saved[t]
    ensures q < |s.word| && i < |l.stk[q]| && l.stk[q][i] == t && Task(s, t) && s.state[t] != Other
    ensures s.saved[t][q].old_ == At(l.stk[q], i + 1)
  {
    assert QueueOk(s, l, q);
    i :| 0 <= i < |l.stk[q]| && l.stk[q][i] == t;
    assert WaiterOk(s, l, q, i);
  }

  lemma SavedInRange(s: Sys, l: Lay, q: nat, t: nat)
    requires Inv(s, l) && t < |s.saved| && q in s.saved[t]
    ensures s.saved[t][q].old_ < |s.state|
  {
    var i := Listed(s, l, q, t);
    assert QueueOk(s, l, q) && (i + 1 < |l.stk[q]| ==> WaiterOk(s, l, q, i + 1));
  }

  /** The NULL and the stopped/zombie messages cannot appear: while anybody waits the word
      names a waiter, and waiters are alive. */
  lemma NeverNull(s: Sys, l: Lay, t: nat, q: nat)
    requires Inv(s, l) && t < |s.saved| && q in s.saved[t]
    ensures q < |s.word| && s.word[q] != 0 && Task(s, s.word[q]) && s.state[s.word[q]] != Other && q in s.saved[s.word[q]]
  {
    var i := Listed(s, l, q, t);
    assert QueueOk(s, l, q) && WaiterOk(s, l, q, 0);
  }

  /** Only the newest waiter leaves. */
  lemma LeavesFromTop(s: Sys, l: Lay, t: nat, q: nat)
    requires Inv(s, l) && Enabled(s, Leave(t, q))
    ensures s.word[q] == t && |l.stk[q]| > 0 && l.stk[q][0] == t && s.saved[t][q].old_ == At(l.stk[q], 1)
  {
    NeverNull(s, l, t, q);
    assert QueueOk(s, l, q) && WaiterOk(s, l, q, 0);
  }

  lemma WaitersDistinct(s: Sys, l: Lay, q: nat, i: nat, j: nat)
    requires Inv(s, l) && q < |s.word| && i < |l.stk[q]| && j < |l.stk[q]| && l.stk[q][i] == l.stk[q][j]
    ensures i == j
  {
    assert QueueOk(s, l, q);
    assert i < j ==> Ordered(l, q, i, j);
    assert j < i ==> Ordered(l, q, j, i);
  }

  lemma JoinQueue(s: Sys, l: Lay, a: Act, r: nat)
    requires Inv(s, l) && Enabled(s, a) && a.Join? && r < |s.word|
    ensures QueueOk(Apply(s, a), After(l, a), r)
  {
    var g, m := Apply(s, a), After(l, a);
    assert QueueOk(s, l, r);
    forall i | 0 <= i < |m.stk[r]|
      ensures WaiterOk(g, m, r, i)
    {
      if r == a.q && i > 0 {
        assert WaiterOk(s, l, r, i - 1);
      } else if r != a.q {
        assert WaiterOk(s, l, r, i);
      }
    }
    forall i, j | 0 <= i < j < |m.stk[r]|
      ensures Ordered(m, r, i, j)
    {
      if r == a.q {
        assert WaiterOk(s, l, r, j - 1);
        if i > 0 {
          assert Ordered(l, r, i - 1, j - 1);
          assert WaiterOk(s, l, r, i - 1);
        }
      } else {
        assert Ordered(l, r, i, j);
      }
    }
  }

  lemma LeaveQueue(s: Sys, l: Lay, a: Act, r: nat)
    requires Inv(s, l) && Enabled(s, a) && a.Leave? && r < |s.word|
    ensures QueueOk(Apply(s, a), After(l, a), r)
  {
    var g, m := Apply(s, a), After(l, a);
    LeavesFromTop(s, l, a.t, a.q);
    assert QueueOk(s, l, r);
    forall i | 0 <= i < |m.stk[r]|
      ensures WaiterOk(g, m, r, i)
    {
      var o := if r == a.q then i + 1 else i;
      assert WaiterOk(s, l, r, o);
      if r == a.q && l.stk[r][o] == a.t {
        WaitersDistinct(s, l, r, o, 0);
      }
    }
    forall i, j | 0 <= i < j < |m.stk[r]|
      ensures Ordered(m, r, i, j)
    {
      assert if r == a.q then Ordered(l, r, i + 1, j + 1) else Ordered(l, r, i, j);
    }
  }

  lemma StateQueue(s: Sys, l: Lay, a: Act, r: nat)
    requires Inv(s, l) && Enabled(s, a) && !a.Leave? && !a.Join? && r < |s.word|
    ensures QueueOk(Apply(s, a), l, r)
  {
    var g := Apply(s, a);
    assert QueueOk(s, l, r);
    forall i | 0 <= i < |l.stk[r]|
      ensures WaiterOk(g, l, r, i)
    {
      assert WaiterOk(s, l, r, i);
    }
    forall i, j | 0 <= i < j < |l.stk[r]|
      ensures Ordered(l, r, i, j)
    {
      assert Ordered(l, r, i, j);
    }
  }

  /** Every step of every task keeps the queues. */
  lemma StepKeepsInv(s: Sys, l: Lay, a: Act)
    requires Inv(s, l) && Enabled(s, a)
    ensures Inv(Apply(s, a), After(l, a))
  {
    var g, m := Apply(s, a), After(l, a);
    forall q | 0 <= q < |g.word|
      ensures QueueOk(g, m, q)
    {
      if a.Join? { JoinQueue(s, l, a, q); }
      else if a.Leave? { LeaveQueue(s, l, a, q); }
      else { StateQueue(s, l, a, q); }
    }
    forall t | 0 <= t < |g.saved|
      ensures EntriesOk(g, t)
    {
      assert EntriesOk(s, t);
    }
  }

  // ---- whole runs ------------------------------------------------------------------------------------

  ghost predicate CanRun(s: Sys, acts: seq<Act>)
    requires |s.state| == |s.saved|
    decreases |acts|
  {
    acts == [] || (Enabled(s, acts[0]) && CanRun(Apply(s, acts[0]), acts[1..]))
  }

  function RunAll(s: Sys, acts: seq<Act>): (g: Sys)
    requires |s.state| == |s.saved|
    ensures |g.state| == |g.saved| == |s.state| && |g.word| == |s.word|
    decreases |acts|
  {
    if acts == [] then s else RunAll(Apply(s, acts[0]), acts[1..])
  }

  function AfterAll(l: Lay, acts: seq<Act>): Lay
    decreases |acts|
  {
    if acts == [] then l else AfterAll(After(l, acts[0]), acts[1..])
  }

  lemma {:induction false} RunKeepsInv(s: Sys, l: Lay, acts: seq<Act>)
    requires Inv(s, l) && CanRun(s, acts)
    ensures Inv(RunAll(s, acts), AfterAll(l, acts))
    decreases |acts|
  {
    if acts != [] {
      StepKeepsInv(s, l, acts[0]);
      RunKeepsInv(Apply(s, acts[0]), After(l, acts[0]), acts[1..]);
    }
  }

  lemma {:induction false} RunConcat(s: Sys, l: Lay, a: seq<Act>, b: seq<Act>)
    requires |s.state| == |s.saved| && CanRun(s, a) && CanRun(RunAll(s, a), b)
    ensures CanRun(s, a + b) && RunAll(s, a + b) == RunAll(RunAll(s, a), b) && AfterAll(l, a + b) == AfterAll(AfterAll(l, a), b)
    decreases |a|
  {
    if a == [] {
      assert a + b == b;
    } else {
      assert (a + b)[1..] == a[1..] + b;
      RunConcat(Apply(s, a[0]), After(l, a[0]), a[1..], b);
    }
  }

  // ---- what following the pointers lists ---------------------------------------------------------------

  /** The waiters of q from task t on, found by following saved pointers, n at most. */
  function Follow(s: Sys, q: nat, t: nat, n: nat): seq<nat>
    decreases n
  {
    if n == 0 || t == 0 || t >= |s.saved| || q !in s.saved[t] then [] else [t] + Follow(s, q, s.saved[t][q].old_, n - 1)
  }

  lemma {:induction false} FollowFrom(s: Sys, l: Lay, q: nat, i: nat, n: nat)
    requires Inv(s, l) && q < |s.word| && i <= |l.stk[q]| && n >= |l.stk[q]| - i
    ensures Follow(s, q, At(l.stk[q], i), n) == l.stk[q][i..]
    decreases |l.stk[q]| - i
  {
    if i < |l.stk[q]| {
      assert QueueOk(s, l, q) && WaiterOk(s, l, q, i);
      FollowFrom(s, l, q, i + 1, n - 1);
    }
  }

  /** After any run that starts with empty queues: following the word and then each saved
      pointer lists exactly the tasks that wait there, each once, the latest comer first. */
  lemma QueueListsWaiters(s0: Sys, l0: Lay, acts: seq<Act>, q: nat, n: nat)
    requires Inv(s0, l0) && CanRun(s0, acts) && q < |s0.word|
    requires n >= |Waiting(RunAll(s0, acts), q)|
    ensures var s := RunAll(s0, acts);
      var list := Follow(s, q, s.word[q], n);
      && (forall t :: t in list <==> t in Waiting(s, q))
      && (forall i, j | 0 <= i < j < |list| :: list[i] != list[j])
      && (forall i, j | 0 <= i < j < |list| :: var came := AfterAll(l0, acts).came;
            (q, list[i]) in came && (q, list[j]) in came && came[(q, list[i])] > came[(q, list[j])])
  {
    RunKeepsInv(s0, l0, acts);
    var s, l := RunAll(s0, acts), AfterAll(l0, acts);
    assert QueueOk(s, l, q);
    StackIsWaiting(s, l, q);
    FollowFrom(s, l, q, 0, n);
    var list := Follow(s, q, s.word[q], n);
    assert list == l.stk[q];
    forall i, j | 0 <= i < j < |list|
      ensures list[i] != list[j] && (q, list[i]) in l.came && (q, list[j]) in l.came && l.came[(q, list[i])] > l.came[(q, list[j])]
    {
      assert Ordered(l, q, i, j);
    }
  }

  ghost function Waiting(s: Sys, q: nat): set<nat> { set t: nat | t < |s.saved| && q in s.saved[t] }

  lemma StackIsWaiting(s: Sys, l: Lay, q: nat)
    requires Inv(s, l) && q < |s.word|
    ensures |l.stk[q]| == |Waiting(s, q)| && forall t :: t in l.stk[q] <==> t in Waiting(s, q)
  {
    assert QueueOk(s, l, q);
    forall t | t in l.stk[q]
      ensures t in Waiting(s, q)
    {
      var i :| 0 <= i < |l.stk[q]| && l.stk[q][i] == t;
      assert WaiterOk(s, l, q, i);
    }
    forall i, j | 0 <= i < j < |l.stk[q]|
      ensures l.stk[q][i] != l.stk[q][j]
    {
      assert Ordered(l, q, i, j);
    }
    DistinctCount(l.stk[q], Waiting(s, q));
  }

  lemma {:induction false} DistinctCount(l: seq<nat>, c: set<nat>)
    requires forall i, j | 0 <= i < j < |l| :: l[i] != l[j]
    requires forall t :: t in l <==> t in c
    ensures |l| == |c|
  {
    if l == [] {
      assert c == {};
    } else {
      DistinctCount(l[1..], c - {l[0]});
    }
  }

  // ---- somebody always carries on ------------------------------------------------------------------------

  /** Nobody waits here in select. */
  ghost predicate Pure(s: Sys, q: nat) { forall t | 0 <= t < |s.saved| && q in s.saved[t] :: !s.saved[t][q].select }

  function Stack(l: Lay, q: nat): seq<nat> { if q < |l.stk| then l.stk[q] else [] }

  ghost predicate Active(s: Sys, l: Lay, q: nat) {
    exists t: nat :: t in Stack(l, q) && t < |s.state| && s.state[t] == Running
  }

  /** The queue is empty after one of the steps. */
  ghost predicate Empties(l: Lay, acts: seq<Act>, q: nat) {
    exists k :: 0 < k <= |acts| && Stack(AfterAll(l, acts[..k]), q) == []
  }

  lemma WakeActivates(s: Sys, l: Lay, q: nat)
    requires Inv(s, l) && q < |s.word| && l.stk[q] != []
    ensures Active(Apply(s, Wake(q)), l, q)
  {
    assert QueueOk(s, l, q) && WaiterOk(s, l, q, 0);
    assert l.stk[q][0] in Stack(l, q) && Apply(s, Wake(q)).state[l.stk[q][0]] == Running;
  }

  lemma MemberKeepsActive(s: Sys, l: Lay, a: Act, q: nat)
    requires Inv(s, l) && Enabled(s, a) && q < |s.word| && (a.Leave? || a.Defer?) && a.q == q
    ensures After(l, a).stk[q] == [] || Active(Apply(s, a), After(l, a), q)
  {
    var g, m := Apply(s, a), After(l, a);
    NeverNull(s, l, a.t, q);
    assert QueueOk(s, l, q) && WaiterOk(s, l, q, 0);
    if a.Leave? {
      LeavesFromTop(s, l, a.t, q);
      if m.stk[q] != [] {
        assert WaiterOk(s, l, q, 1) && m.stk[q][0] in Stack(m, q);
        assert g.state[m.stk[q][0]] == Running;
      }
    } else {
      assert l.stk[q][0] in Stack(m, q) && g.state[l.stk[q][0]] == Running;
    }
  }

  /** On a queue of __sleep_on, a woken queue has a runnable waiter until all have left. */
  lemma StaysActive(s: Sys, l: Lay, a: Act, q: nat)
    requires Inv(s, l) && Enabled(s, a) && q < |s.word| && Pure(s, q) && Active(s, l, q)
    requires a.Join? && a.q == q ==> !a.select
    ensures Pure(Apply(s, a), q)
    ensures After(l, a).stk[q] == [] || Active(Apply(s, a), After(l, a), q)
  {
    if (a.Leave? || a.Defer?) && a.q == q {
      MemberKeepsActive(s, l, a, q);
    } else {
      var t: nat :| t in l.stk[q] && t < |s.state| && s.state[t] == Running;
      var i :| 0 <= i < |l.stk[q]| && l.stk[q][i] == t;
      assert QueueOk(s, l, q) && WaiterOk(s, l, q, i) && EntriesOk(s, t);
      assert t in Stack(After(l, a), q) && Apply(s, a).state[t] == Running;
    }
  }

  lemma {:induction false} StaysActiveAlong(s: Sys, l: Lay, acts: seq<Act>, q: nat)
    requires Inv(s, l) && CanRun(s, acts) && q < |s.word| && Pure(s, q) && Active(s, l, q)
    requires forall k | 0 <= k < |acts| && acts[k].Join? && acts[k].q == q :: !acts[k].select
    ensures Inv(RunAll(s, acts), AfterAll(l, acts))
    ensures Active(RunAll(s, acts), AfterAll(l, acts), q) || Empties(l, acts, q)
    decreases |acts|
  {
    RunKeepsInv(s, l, acts);
    if acts != [] {
      StaysActive(s, l, acts[0], q);
      StepKeepsInv(s, l, acts[0]);
      var g, m := Apply(s, acts[0]), After(l, acts[0]);
      if m.stk[q] == [] {
        assert acts[..1] == [acts[0]] && AfterAll(l, acts[..1]) == AfterAll(m, []);
      } else {
        StaysActiveAlong(g, m, acts[1..], q);
        if !Active(RunAll(s, acts), AfterAll(l, acts), q) {
          var k :| 0 < k <= |acts| - 1 && Stack(AfterAll(m, acts[1..][..k]), q) == [];
          assert acts[..k + 1][1..] == acts[1..][..k] && acts[..k + 1][0] == acts[0];
        }
      }
    }
  }

  /** One wake_up is enough: from then on some waiter of the queue can run, at every
      moment until the queue has been empty. */
  lemma OneWakeUpSuffices(s: Sys, l: Lay, acts: seq<Act>, q: nat)
    requires Inv(s, l) && q < |s.word| && l.stk[q] != [] && Pure(s, q) && CanRun(Apply(s, Wake(q)), acts)
    requires forall k | 0 <= k < |acts| && acts[k].Join? && acts[k].q == q :: !acts[k].select
    ensures var s1 := Apply(s, Wake(q));
      Active(RunAll(s1, acts), AfterAll(l, acts), q) || Empties(l, acts, q)
  {
    WakeActivates(s, l, q);
    StepKeepsInv(s, l, Wake(q));
    StaysActiveAlong(Apply(s, Wake(q)), l, acts, q);
  }

  // ---- and everybody gets out -------------------------------------------------------------------------

  /** The waiters that could run although they are not the newest. */
  ghost function Eager(s: Sys, l: Lay, q: nat): set<nat>
    requires q < |l.stk|
  {
    set i: nat | 0 < i < |l.stk[q]| && l.stk[q][i] < |s.state| && s.state[l.stk[q][i]] == Running :: l.stk[q][i]
  }

  ghost function Potential(s: Sys, l: Lay, q: nat): nat
    requires q < |l.stk|
  {
    |l.stk[q]| + |Eager(s, l, q)|
  }

  /** Each time a waiter of q runs, the queue comes closer to being empty. */
  lemma MemberStepsCount(s: Sys, l: Lay, a: Act, q: nat)
    requires Inv(s, l) && Enabled(s, a) && q < |s.word| && (a.Leave? || a.Defer?) && a.q == q
    ensures q < |After(l, a).stk| && Potential(Apply(s, a), After(l, a), q) < Potential(s, l, q)
  {
    assert QueueOk(s, l, q);
    var g, m := Apply(s, a), After(l, a);
    if a.Leave? {
      LeavesFromTop(s, l, a.t, q);
      forall t | t in Eager(g, m, q)
        ensures t in Eager(s, l, q)
      {
        var i: nat :| 0 < i < |m.stk[q]| && m.stk[q][i] == t;
        assert l.stk[q][i + 1] == t;
        if t == s.saved[a.t][q].old_ {
          WaitersDistinct(s, l, q, 1, i + 1);
        }
      }
      CountSubset(Eager(g, m, q), Eager(s, l, q));
    } else {
      var i := Listed(s, l, q, a.t);
      assert WaiterOk(s, l, q, 0) && a.t in Eager(s, l, q);
      forall t | t in Eager(g, m, q)
        ensures t in Eager(s, l, q) - {a.t}
      {
        var j: nat :| 0 < j < |m.stk[q]| && m.stk[q][j] == t;
        if t == s.word[q] {
          WaitersDistinct(s, l, q, 0, j);
        }
      }
      CountSubset(Eager(g, m, q), Eager(s, l, q) - {a.t});
    }
  }

  lemma CountSubset(a: set<nat>, b: set<nat>)
    requires a <= b
    ensures |a| <= |b|
  {
    assert b == a + (b - a);
  }

  /** A runnable waiter's next step is one of the two. */
  lemma ActiveCanStep(s: Sys, l: Lay, q: nat) returns (a: Act)
    requires Inv(s, l) && q < |s.word| && Active(s, l, q)
    ensures Enabled(s, a) && (a.Leave? || a.Defer?) && a.q == q
  {
    var t: nat :| t in l.stk[q] && t < |s.state| && s.state[t] == Running;
    var i :| 0 <= i < |l.stk[q]| && l.stk[q][i] == t;
    assert QueueOk(s, l, q) && WaiterOk(s, l, q, i) && WaiterOk(s, l, q, 0);
    a := if s.word[q] == t then Leave(t, q) else Defer(t, q);
  }

  /** Woken once, with its waiters running and nobody interfering, a queue of __sleep_on
      empties after at most two steps per waiter. */
  lemma {:induction false} EverybodyLeaves(s: Sys, l: Lay, q: nat) returns (acts: seq<Act>)
    requires Inv(s, l) && q < |s.word| && Pure(s, q) && (l.stk[q] == [] || Active(s, l, q))
    ensures CanRun(s, acts) && q < |AfterAll(l, acts).stk| && AfterAll(l, acts).stk[q] == [] && |acts| <= Potential(s, l, q)
    ensures forall k | 0 <= k < |acts| :: (acts[k].Leave? || acts[k].Defer?) && acts[k].q == q
    decreases Potential(s, l, q)
  {
    if l.stk[q] == [] {
      return [];
    }
    var a := ActiveCanStep(s, l, q);
    MemberStepsCount(s, l, a, q);
    StepKeepsInv(s, l, a);
    StaysActive(s, l, a, q);
    var rest := EverybodyLeaves(Apply(s, a), After(l, a), q);
    acts := [a] + rest;
  }

  /** Task t is the only waiter of q that can run. */
  ghost predicate LastRunner(s: Sys, l: Lay, q: nat, t: nat) {
    forall u: nat | u in Stack(l, q) && u < |s.state| && s.state[u] == Running :: u == t
  }

  /** The steps that leave a queue without a waiter that can run: its last one that could
      goes to sleep in select, or sleeps on for a newer waiter of another queue that does
      not wait here too. */
  ghost predicate Stalls(s: Sys, l: Lay, a: Act, q: nat) {
    match a
    case Doze(t) => LastRunner(s, l, q, t)
    case Defer(t, r) => r != q && LastRunner(s, l, q, t) && r < |s.word| && s.word[r] !in Stack(l, q)
    case _ => false
  }

  /** Exactly those: on any queue, select or not, every other step leaves somebody who can
      run, or nobody at all. */
  lemma StallsIff(s: Sys, l: Lay, a: Act, q: nat)
    requires Inv(s, l) && Enabled(s, a) && q < |s.word| && Active(s, l, q) && Stack(After(l, a), q) != []
    ensures !Active(Apply(s, a), After(l, a), q) <==> Stalls(s, l, a, q)
  {
    var t: nat :| t in l.stk[q] && t < |s.state| && s.state[t] == Running;
    var i :| 0 <= i < |l.stk[q]| && l.stk[q][i] == t;
    assert QueueOk(s, l, q) && WaiterOk(s, l, q, i) && EntriesOk(s, t);
    if (a.Leave? || a.Defer?) && a.q == q {
      MemberKeepsActive(s, l, a, q);
    } else if a.Doze? || a.Defer? {
      SleeperStalls(s, l, a, q);
    } else {
      assert t in Stack(After(l, a), q) && Apply(s, a).state[t] == Running;
    }
  }

  lemma SleeperStalls(s: Sys, l: Lay, a: Act, q: nat)
    requires Inv(s, l) && Enabled(s, a) && q < |s.word| && Active(s, l, q) && (a.Doze? || (a.Defer? && a.q != q))
    ensures !Active(Apply(s, a), l, q) <==> Stalls(s, l, a, q)
  {
    var g := Apply(s, a);
    if a.Defer? { NeverNull(s, l, a.t, a.q); }
    if !LastRunner(s, l, q, a.t) {
      var u: nat :| u in Stack(l, q) && u < |s.state| && s.state[u] == Running && u != a.t;
      assert g.state[u] == Running;
    } else if a.Defer? && s.word[a.q] in Stack(l, q) {
      assert g.state[s.word[a.q]] == Running;
    }
  }

  /** With select it can be otherwise: a waiter of queue 0 that was woken there sleeps on,
      because it first waits for a newer waiter of queue 1, and queue 0 is left with nobody
      who can run. */
  lemma SelectCanStall() returns (s: Sys, l: Lay, a: Act)
    ensures Inv(s, l) && Enabled(s, a) && Active(s, l, 0)
    ensures Stack(After(l, a), 0) != [] && Stalls(s, l, a, 0) && !Active(Apply(s, a), After(l, a), 0)
  {
    // task 1 selects on queues 0 and 1, then task 2 sleeps on queue 1 and queue 0 is woken
    s, l, a := SelectSys(), SelectLay(), Defer(1, 1);
    SelectWaits();
    assert 1 in l.stk[0];
  }

  function SelectSys(): Sys {
    Sys([1, 2], [Running, Running, Uninterruptible], [map[], map[0 := Entry(0, true), 1 := Entry(0, true)], map[1 := Entry(1, false)]])
  }

  function SelectLay(): Lay { Lay([[1], [2, 1]], map[(0, 1) := 0, (1, 1) := 1, (1, 2) := 2], 3) }

  lemma SelectWaits()
    ensures Inv(SelectSys(), SelectLay())
  {
    var s, l := SelectSys(), SelectLay();
    assert WaiterOk(s, l, 0, 0) && WaiterOk(s, l, 1, 0) && WaiterOk(s, l, 1, 1) && Ordered(l, 1, 0, 1);
    assert QueueOk(s, l, 0);
    assert QueueOk(s, l, 1);
    assert EntriesOk(s, 0) && EntriesOk(s, 1) && EntriesOk(s, 2);
  }
}
