/** __sleep_on, wake_up and select's add_wait and free_wait, one task's calls among whatever
    the others do.  schedule() runs the others, as `env` says, until this task runs again. */
module SleepQueues {
  import opened SleepModel

  /** Steps of others only. */
  predicate ByOther(a: Act, me: nat) {
    match a
    case Wake(_) => true
    case Signal(_) => true
    case Join(t, _, _, _) => t != me
    case Doze(t) => t != me
    case Defer(t, _) => t != me
    case Leave(t, _) => t != me
    case Elsewhere(t, _) => t != me
  }

  ghost predicate Others(acts: seq<Act>, me: nat) { forall k | 0 <= k < |acts| :: ByOther(acts[k], me) }

  ghost predicate RunTo(s: Sys, me: nat, g: Sys, acts: seq<Act>)
    requires |s.state| == |s.saved|
  {
    CanRun(s, acts) && Others(acts, me) && RunAll(s, acts) == g
  }

  /** schedule() comes back after some run of the others, with this task running. */
  ghost predicate Resumed(s: Sys, me: nat, g: Sys)
    requires |s.state| == |s.saved|
  {
    me < |g.state| && g.state[me] == Running && exists acts :: RunTo(s, me, g, acts)
  }

  /** A state in which `me` waits somewhere. */
  ghost predicate Waits(s: Sys, me: nat) {
    (exists l :: Inv(s, l)) && me < |s.saved| && s.saved[me] != map[]
  }

  /** Whenever this task waits, the others at last let it run. */
  ghost predicate Lawful(env: (nat, Sys) -> Sys, me: nat) {
    forall n: nat, s: Sys {:trigger env(n, s)} | Waits(s, me) :: |s.state| == |s.saved| && Resumed(s, me, env(n, s))
  }

  /** That is never too much to ask: the interrupt that wakes the queue and the newer
      waiters, leaving one by one, always bring a waiter back. */
  lemma {:induction false} CanBeResumed(s: Sys, l: Lay, me: nat, q: nat, i: nat) returns (acts: seq<Act>)
    requires Inv(s, l) && q < |s.word| && i < |l.stk[q]| && l.stk[q][i] == me
    ensures CanRun(s, acts) && Others(acts, me) && me < |RunAll(s, acts).state| && RunAll(s, acts).state[me] == Running
    decreases i
  {
    assert QueueOk(s, l, q) && WaiterOk(s, l, q, 0) && WaiterOk(s, l, q, i);
    StepKeepsInv(s, l, Wake(q));
    var s1 := Apply(s, Wake(q));
    if i == 0 {
      acts := [Wake(q)];
      assert RunAll(s1, []) == s1 && CanRun(s1, []) && acts[1..] == [];
    } else {
      var a := Leave(l.stk[q][0], q);
      assert Ordered(l, q, 0, i);
      StepKeepsInv(s1, l, a);
      var rest := CanBeResumed(Apply(s1, a), After(l, a), me, q, i - 1);
      var tail := [a] + rest;
      assert tail[1..] == rest && CanRun(s1, tail) && RunAll(s1, tail) == RunAll(Apply(s1, a), rest);
      acts := [Wake(q)] + tail;
      assert acts[1..] == tail;
    }
  }

  lemma {:induction false} OthersKeepEntries(s: Sys, me: nat, acts: seq<Act>)
    requires |s.state| == |s.saved| && me < |s.saved| && CanRun(s, acts) && Others(acts, me)
    ensures RunAll(s, acts).saved[me] == s.saved[me]
    decreases |acts|
  {
    if acts != [] {
      assert ByOther(acts[0], me);
      forall k | 0 <= k < |acts| - 1
        ensures ByOther(acts[1..][k], me)
      {
        assert ByOther(acts[k + 1], me);
      }
      OthersKeepEntries(Apply(s, acts[0]), me, acts[1..]);
    }
  }

  /** One entry of a select_table. */
  datatype WaitEntry = WaitEntry(old_task: nat, wait_address: nat)

  /** The table is this task's entries. */
  ghost predicate TableOk(s: Sys, me: nat, p: seq<WaitEntry>, from: nat)
    requires me < |s.saved|
  {
    && (forall i | from <= i < |p| :: p[i].wait_address in s.saved[me] && s.saved[me][p[i].wait_address] == Entry(p[i].old_task, true))
    && (forall q | q in s.saved[me] :: exists i :: from <= i < |p| && p[i].wait_address == q)
    && (forall i, j | from <= i < j < |p| :: p[i].wait_address != p[j].wait_address)
  }

  /** From some step on, this task only deferred on the given queues or left them. */
  ghost predicate OnlyLeaves(acts: seq<Act>, from: nat, me: nat, qs: set<nat>) {
    forall k | from <= k < |acts| :: ByOther(acts[k], me) || ((acts[k].Defer? || acts[k].Leave?) && acts[k].q in qs)
  }

  lemma LeavesMore(a: seq<Act>, b: seq<Act>, from: nat, me: nat, qs: set<nat>, q: nat)
    requires OnlyLeaves(a, from, me, qs) && |a| <= |b| && b[..|a|] == a && OnlyLeaves(b, |a|, me, {q}) && q in qs
    ensures OnlyLeaves(b, from, me, qs)
  {
    forall k | from <= k < |b|
      ensures ByOther(b[k], me) || ((b[k].Defer? || b[k].Leave?) && b[k].q in qs)
    {
      assert k < |a| ==> b[k] == a[k];
    }
  }

  class Process {
    var sys: Sys
    const current: nat
    const env: (nat, Sys) -> Sys
    var clock: nat
    ghost const start: Sys
    ghost const startLay: Lay
    ghost var acts: seq<Act>        // everything that happened since the start

    ghost predicate Valid()
      reads this
    {
      && Inv(start, startLay) && CanRun(start, acts) && sys == RunAll(start, acts)
      && Task(sys, current) && Lawful(env, current)
    }

    ghost function Now(): Lay
      reads this
    {
      AfterAll(startLay, acts)
    }

    lemma Holds()
      requires Valid()
      ensures Inv(sys, Now())
    {
      RunKeepsInv(start, startLay, acts);
    }

    /** One step of this task, or a wake_up it makes. */
    method Do(a: Act)
      requires Valid() && Enabled(sys, a)
      modifies this`sys, this`acts
      ensures Valid() && sys == Apply(old(sys), a) && acts == old(acts) + [a]
    {
      assert CanRun(Apply(sys, a), []);
      assert [a][1..] == [] && RunAll(Apply(sys, a), []) == Apply(sys, a);
      assert CanRun(sys, [a]) && RunAll(sys, [a]) == RunAll(Apply(sys, a), [a][1..]);
      RunConcat(start, startLay, acts, [a]);
      acts := acts + [a];
      sys := Apply(sys, a);
      Holds();
    }

    method Schedule() returns (ghost w: seq<Act>)
      requires Valid() && sys.saved[current] != map[]
      modifies this`sys, this`acts, this`clock
      ensures Valid() && acts == old(acts) + w && Others(w, current)
      ensures sys.state[current] == Running && sys.saved[current] == old(sys).saved[current]
      ensures sys == env(old(clock), old(sys)) && clock == old(clock) + 1
    {
      Holds();
      assert Waits(sys, current);
      var g := env(clock, sys);
      assert Resumed(sys, current, g);
      w :| RunTo(sys, current, g, w);
      assert RunTo(sys, current, g, w);
      OthersKeepEntries(sys, current, w);
      RunConcat(start, startLay, acts, w);
      acts := acts + w;
      sys := g;
      clock := clock + 1;
      Holds();
    }

    /** wake_up; warning stands for the messages about a stopped or dead waiter. */
    method WakeUp(q: nat) returns (warning: bool)
      requires Valid() && q < |sys.word|
      modifies this`sys, this`acts
      ensures Valid() && !warning
      ensures sys == Apply(old(sys), Wake(q)) && acts == old(acts) + [Wake(q)]
      ensures sys.word == old(sys).word && sys.saved == old(sys).saved && old(sys.word[q]) < |old(sys).state|
      ensures sys.state == if old(sys.word[q]) == 0 then old(sys).state else old(sys).state[old(sys.word[q]) := Running]
    {
      Holds();
      assert QueueOk(sys, Now(), q);
      warning := false;
      if sys.word[q] != 0 {
        assert WaiterOk(sys, Now(), q, 0);
        warning := sys.state[sys.word[q]] == Other;
      }
      Do(Wake(q));
    }

    /** What happened since `from`: this task did nothing but defer on q. */
    ghost predicate Deferring(from: nat, q: nat)
      reads this
    {
      from <= |acts| && forall k | from <= k < |acts| :: ByOther(acts[k], current) || acts[k] == Defer(current, q)
    }

    /** From the moment the task is on q until it is the newest there and leaves, with at
        most fuel returns from schedule that find a newer waiter. */
    method WaitTurn(q: nat, fuel: nat) returns (done: bool, warning: bool)
      requires Valid() && q in sys.saved[current] && sys.state[current] == Running
      modifies this`sys, this`acts, this`clock
      ensures Valid() && !warning && sys.state[current] == Running
      ensures |old(acts)| <= |acts| && acts[..|old(acts)|] == old(acts)
      ensures !done ==> Deferring(|old(acts)|, q) && sys.saved[current] == old(sys).saved[current] && |acts| >= |old(acts)| + fuel
      ensures done ==> |acts| > |old(acts)| && acts[|acts| - 1] == Leave(current, q)
      ensures done ==> forall k | |old(acts)| <= k < |acts| - 1 :: ByOther(acts[k], current) || acts[k] == Defer(current, q)
      ensures done && old(sys).saved[current][q].old_ != 0 ==>
        old(sys).saved[current][q].old_ < |sys.state| && sys.state[old(sys).saved[current][q].old_] == Running
      ensures done ==> sys.saved[current] == old(sys).saved[current] - {q} && q < |sys.word| && sys.word[q] == old(sys).saved[current][q].old_
    {
      var left := fuel;
      warning := false;
      Holds();
      NeverNull(sys, Now(), current, q);
      while sys.word[q] != 0 && sys.word[q] != current
        invariant Valid() && Deferring(|old(acts)|, q) && acts[..|old(acts)|] == old(acts)
        invariant q in sys.saved[current] && q < |sys.word| && sys.saved[current] == old(sys).saved[current]
        invariant sys.state[current] == Running && 0 <= left <= fuel && |acts| >= |old(acts)| + (fuel - left)
        decreases left
      {
        if left == 0 {
          return false, false;
        }
        left := left - 1;
        Do(Defer(current, q));
        ghost var _ := Schedule();
      }
      Holds();
      NeverNull(sys, Now(), current, q);
      SavedInRange(sys, Now(), q, current);
      warning := sys.word[q] == 0;
      Do(Leave(current, q));
      done := true;
    }

    /** __sleep_on: join the queue, sleep, and leave it when this task is the newest one on
        it again.  The word then names the task that was there before the call. */
    method SleepOn(q: nat, st: TState, fuel: nat) returns (done: bool, warning: bool)
      requires Valid() && q < |sys.word| && sys.state[current] == Running && sys.saved[current] == map[]
      requires st == Interruptible || st == Uninterruptible
      modifies this`sys, this`acts, this`clock
      ensures Valid() && !warning && sys.state[current] == Running
      ensures done ==> sys.saved[current] == map[] && sys.word[q] == old(sys.word[q])
      ensures done && sys.word[q] != 0 ==> sys.word[q] < |sys.state| && sys.state[sys.word[q]] == Running
      ensures |acts| > |old(acts)| && acts[..|old(acts)|] == old(acts) && acts[|old(acts)|] == Join(current, q, false, st)
      ensures if done then acts[|acts| - 1] == Leave(current, q) else |acts| > |old(acts)| + fuel
      ensures forall k | |old(acts)| < k < |acts| - 1 :: ByOther(acts[k], current) || acts[k] == Defer(current, q)
    {
      Do(Join(current, q, false, st));
      ghost var before := acts;
      assert sys.saved[current] == map[q := Entry(old(sys.word[q]), false)];
      ghost var _ := Schedule();
      done, warning := WaitTurn(q, fuel);
    }

    // ---- select.c -------------------------------------------------------------------------------------

    /** add_wait: put this task in front of the queue, unless it is in the table already. */
    method AddWait(q: nat, p: seq<WaitEntry>) returns (p': seq<WaitEntry>)
      requires Valid() && q < |sys.word| && sys.state[current] == Running && TableOk(sys, current, p, 0)
      modifies this`sys, this`acts
      ensures Valid() && TableOk(sys, current, p', 0) && sys.state[current] == Running
      ensures q in sys.saved[current] && sys.saved[current].Keys == old(sys).saved[current].Keys + {q}
      ensures q in old(sys).saved[current] ==> p' == p && sys == old(sys)
      ensures q !in old(sys).saved[current] ==> p' == p + [WaitEntry(old(sys).word[q], q)] && sys.word[q] == current
    {
      var i := 0;
      while i < |p|
        invariant 0 <= i <= |p| && forall n | 0 <= n < i :: p[n].wait_address != q
      {
        if p[i].wait_address == q {
          return p;
        }
        i := i + 1;
      }
      p' := p + [WaitEntry(sys.word[q], q)];
      Do(Join(current, q, true, Running));
      forall r | r in sys.saved[current]
        ensures exists n :: 0 <= n < |p'| && p'[n].wait_address == r
      {
        if r == q {
          assert p'[|p|].wait_address == q;
        } else {
          var n :| 0 <= n < |p| && p[n].wait_address == r;
          assert p'[n].wait_address == r;
        }
      }
    }

    /** free_wait: leave one queue after the other, each when this task is the newest on it;
        warning stands for its message about NULL. */
    method FreeWait(p: seq<WaitEntry>, fuel: nat) returns (done: bool, warning: bool)
      requires Valid() && sys.state[current] == Running && TableOk(sys, current, p, 0)
      modifies this`sys, this`acts, this`clock
      ensures Valid() && !warning && sys.state[current] == Running
      ensures if done then sys.saved[current] == map[] else |acts| >= |old(acts)| + fuel
      ensures |old(acts)| <= |acts| && acts[..|old(acts)|] == old(acts)
      ensures OnlyLeaves(acts, |old(acts)|, current, old(sys).saved[current].Keys)
    {
      var i := 0;
      warning := false;
      while i < |p|
        invariant 0 <= i <= |p| && Valid() && !warning && sys.state[current] == Running && TableOk(sys, current, p, i)
        invariant sys.saved[current].Keys <= old(sys).saved[current].Keys
        invariant |old(acts)| <= |acts| && acts[..|old(acts)|] == old(acts)
        invariant OnlyLeaves(acts, |old(acts)|, current, old(sys).saved[current].Keys)
      {
        ghost var earlier := acts;
        done, warning := FreeOne(p, i, fuel);
        LeavesMore(earlier, acts, |old(acts)|, current, old(sys).saved[current].Keys, p[i].wait_address);
        if !done {
          return;
        }
        i := i + 1;
      }
      done := true;
      assert sys.saved[current] == map[];
    }

    // select.c:98-113
    method FreeOne(p: seq<WaitEntry>, i: nat, fuel: nat) returns (done: bool, warning: bool)
      requires Valid() && sys.state[current] == Running && TableOk(sys, current, p, i) && i < |p|
      modifies this`sys, this`acts, this`clock
      ensures Valid() && !warning && sys.state[current] == Running
      ensures p[i].wait_address in old(sys).saved[current] && sys.saved[current].Keys <= old(sys).saved[current].Keys
      ensures if done then TableOk(sys, current, p, i + 1) else |acts| >= |old(acts)| + fuel
      ensures |old(acts)| <= |acts| && acts[..|old(acts)|] == old(acts)
      ensures OnlyLeaves(acts, |old(acts)|, current, {p[i].wait_address})
    {
      done, warning := WaitTurn(p[i].wait_address, fuel);
      if done {
        forall r | r in sys.saved[current]
          ensures exists n :: i + 1 <= n < |p| && p[n].wait_address == r
        {
          var n :| i <= n < |p| && p[n].wait_address == r;
        }
      }
    }
  }
}
