/** The scheduler's view of the tasks, and what its counters promise over whole runs. */
module SchedModel {
  const NR_TASKS: nat := 64
  const SIGKILL: nat := 9
  const SIGALRM: nat := 14
  const SIGSTOP: nat := 19

  datatype RunState = Running | Interruptible | Uninterruptible | Zombie | Stopped

  type Long = n: int | -0x8000_0000 <= n < 0x8000_0000

  /** What a sum or difference of two words leaves in 32 bits. */
  function ToLong(n: int): (r: Long)
    requires -0x1_0000_0000 <= n < 0x1_0000_0000
    ensures (n - r) % 0x1_0000_0000 == 0
  {
    if n >= 0x8000_0000 then n - 0x1_0000_0000 else if n < -0x8000_0000 then n + 0x1_0000_0000 else n
  }

  datatype Proc = Proc(state: RunState, counter: Long, priority: Long, timeout: nat, alarm: nat, signal: set<nat>, blocked: set<nat>)

  datatype Slot = Empty | Used(p: Proc)

  datatype Sched = Sched(task: seq<Slot>, current: nat)

  predicate Runnable(s: Sched, i: int) { 1 <= i < |s.task| && s.task[i].Used? && s.task[i].p.state == Running }

  function Counter(s: Sched, i: nat): int
    requires i < |s.task|
  {
    if s.task[i].Used? then s.task[i].p.counter else 0
  }

  /** Priorities stay positive. */
  ghost predicate Inv(s: Sched) {
    && |s.task| == NR_TASKS && s.current < NR_TASKS && s.task[0].Used? && s.task[s.current].Used?
    && (forall i | 0 <= i < NR_TASKS && s.task[i].Used? :: s.task[i].p.priority >= 1)
  }

  /** No priority is above top, and no counter negative or above 2 * top - 1. */
  ghost predicate Below(s: Sched, top: int) {
    forall i | 0 <= i < |s.task| && s.task[i].Used? :: s.task[i].p.priority <= top && 0 <= s.task[i].p.counter <= 2 * top - 1
  }

  /** The largest priority whose counters fit a word. */
  const TOP: int := 0x4000_0000

  /** A task that schedule may choose: one with a negative counter it passes over. */
  predicate Eligible(s: Sched, i: int) { Runnable(s, i) && s.task[i].p.counter >= 0 }

  // ---- alarms, timeouts and signals ----------------------------------------------------------------------

  /** A signal that the task does not block, or cannot. */
  predicate Deliverable(p: Proc) { exists g :: g in p.signal && !(g in p.blocked && g != SIGKILL && g != SIGSTOP) }

  predicate TimedOut(p: Proc, jiffies: nat) { p.timeout != 0 && p.timeout < jiffies }
  predicate AlarmDue(p: Proc, jiffies: nat) { p.alarm != 0 && p.alarm < jiffies }

  /** The task after schedule has looked at its timers and signals. */
  function Alerted(p: Proc, jiffies: nat): Proc {
    var signal := if AlarmDue(p, jiffies) then p.signal + {SIGALRM} else p.signal;
    p.(timeout := if TimedOut(p, jiffies) then 0 else p.timeout,
       alarm := if AlarmDue(p, jiffies) then 0 else p.alarm,
       signal := signal,
       state := if p.state == Interruptible && (TimedOut(p, jiffies) || Deliverable(p.(signal := signal))) then Running else p.state)
  }

  function AllAlerted(s: Sched, jiffies: nat): (g: Sched)
    ensures |g.task| == |s.task| && g.current == s.current
    ensures forall i | 0 <= i < |s.task| :: g.task[i] == if i >= 1 && s.task[i].Used? then Used(Alerted(s.task[i].p, jiffies)) else s.task[i]
  {
    s.(task := seq(|s.task|, i requires 0 <= i < |s.task| => if i >= 1 && s.task[i].Used? then Used(Alerted(s.task[i].p, jiffies)) else s.task[i]))
  }

  /** What schedule does to a task before it chooses: a timeout that is over is cleared, an alarm
      that is due becomes signal 14; and an interruptible task runs again exactly if its timeout
      was over, or it now has a signal it does not block, or 9 or 19. */
  ghost predicate AlertedAs(p: Proc, q: Proc, jiffies: nat) {
    && q.counter == p.counter && q.priority == p.priority && q.blocked == p.blocked
    && q.timeout == (if p.timeout < jiffies then 0 else p.timeout) && q.alarm == (if p.alarm < jiffies then 0 else p.alarm)
    && q.signal == (if 0 < p.alarm < jiffies then p.signal + {14} else p.signal)
    && (p.state != Interruptible ==> q.state == p.state)
    && (p.state == Interruptible ==>
          q.state == if 0 < p.timeout < jiffies || (exists g :: g in q.signal && (g !in p.blocked || g == 9 || g == 19)) then Running else Interruptible)
  }

  lemma AlertedMeans(p: Proc, jiffies: nat)
    ensures AlertedAs(p, Alerted(p, jiffies), jiffies)
  {
    var q := Alerted(p, jiffies);
    assert Deliverable(p.(signal := q.signal)) <==> exists g :: g in q.signal && (g !in p.blocked || g == 9 || g == 19);
  }

  // ---- the choice ------------------------------------------------------------------------------------------

  /** next is the eligible task with the largest counter, the last such slot; 0 with counter
      -1 if there is none. */
  ghost predicate Best(s: Sched, next: nat, c: int) {
    if (exists i :: Eligible(s, i)) then
      && Eligible(s, next) && c == s.task[next].p.counter
      && forall i {:trigger Eligible(s, i)} | Eligible(s, i) :: s.task[i].p.counter < c || (s.task[i].p.counter == c && i <= next)
    else next == 0 && c == -1
  }

  lemma BestUnique(s: Sched, a: nat, c: int, b: nat, d: int)
    requires Best(s, a, c) && Best(s, b, d)
    ensures a == b && c == d
  {
    if i :| Eligible(s, i) {
      assert Eligible(s, a) && Eligible(s, b);
    }
  }

  /** All eligible tasks have used up their time. */
  ghost predicate Spent(s: Sched) { (exists i :: Eligible(s, i)) && forall i | Eligible(s, i) :: s.task[i].p.counter == 0 }

  function Recharged(p: Proc): Proc { p.(counter := ToLong(p.counter / 2 + p.priority)) }

  function Recharge(s: Sched): (g: Sched)
    ensures |g.task| == |s.task| && g.current == s.current
    ensures forall i | 0 <= i < |s.task| :: g.task[i] == if i >= 1 && s.task[i].Used? then Used(Recharged(s.task[i].p)) else s.task[i]
  {
    s.(task := seq(|s.task|, i requires 0 <= i < |s.task| =>
      if i >= 1 && s.task[i].Used? then Used(Recharged(s.task[i].p)) else s.task[i]))
  }

  /** schedule, as a relation: counters are recharged if all runnable tasks have used theirs
      up, once, and then the best task runs. */
  ghost predicate Scheduled(s: Sched, jiffies: nat, g: Sched) {
    var s1 := AllAlerted(s, jiffies);
    var s2 := if Spent(s1) then Recharge(s1) else s1;
    g == s2.(current := g.current) && exists c :: c != 0 && Best(s2, g.current, c)
  }

  lemma RechargeOk(s: Sched, top: int)
    requires Inv(s)
    ensures Inv(Recharge(s))
    ensures Below(s, top) && top <= TOP ==> Below(Recharge(s), top)
  {
  }

  ghost predicate RechargeKeeps(s: Sched, top: int) { Inv(s) && Below(s, top) ==> Below(Recharge(s), top) }

  /** A sleeping task that has much time left, with the given priority. */
  function Idler(priority: Long): Proc { Proc(Interruptible, 0x7fff_ffff, priority, 0, 0, {}, {}) }

  function TwoTasks(a: Proc, b: Proc): seq<Slot> { [Used(a), Used(b)] + seq(62, _ => Empty) }

  /** The bound on the counters holds for good exactly where no priority is above 2^30: the
      recharge of a task above that runs out of the word. */
  lemma RechargeIff(top: int)
    requires 1 <= top < 0x8000_0000
    ensures (forall s {:trigger RechargeKeeps(s, top)} :: RechargeKeeps(s, top)) <==> top <= TOP
  {
    forall s
      ensures top <= TOP ==> RechargeKeeps(s, top)
    {
      if Inv(s) { RechargeOk(s, top); }
    }
    if top > TOP {
      var s := Sched(TwoTasks(Idler(1), Idler(top)), 0);
      assert s.task[1] == Used(Idler(top));
      assert Recharge(s).task[1].p.counter < 0;
      assert !RechargeKeeps(s, top);
    }
  }

  /** With positive priorities one recharge is enough: the loop ends in its second pass. */
  lemma TwoPasses(s: Sched, next: nat, c: int)
    requires Inv(s) && Spent(s) && Best(Recharge(s), next, c)
    ensures c > 0
  {
    var i :| Eligible(s, i);
    assert Eligible(Recharge(s), i);
  }

  // ---- events --------------------------------------------------------------------------------------------------

  datatype Event =
    | Tick                                  // do_timer charges the current task
    | Schedule(jiffies: nat, next: nat)
    | SetState(i: nat, state: RunState)     // a task sleeps, is woken, stops, dies
    | Leave(i: nat)                         // its slot is cleared
    | Nice(increment: Long)
    | Fork(i: nat)                          // the current task's child in slot i

  ghost predicate Next(s: Sched, e: Event, g: Sched) {
    match e
    case Tick => s.current < |s.task| && s.task[s.current].Used? && g == Ticked(s)
    case Schedule(jiffies, next) => Scheduled(s, jiffies, g) && g.current == next
    case SetState(i, state) => i < |s.task| && s.task[i].Used? && g == s.(task := s.task[i := Used(s.task[i].p.(state := state))])
    case Leave(i) => 0 < i < |s.task| && i != s.current && g == s.(task := s.task[i := Empty])
    case Nice(inc) => s.current < |s.task| && s.task[s.current].Used? && g == Niced(s, inc)
    case Fork(i) => 0 < i < |s.task| && s.task[i] == Empty && s.current < |s.task| && s.task[s.current].Used? && g == Forked(s, i)
  }

  function Ticked(s: Sched): Sched
    requires s.current < |s.task| && s.task[s.current].Used?
  {
    var p := s.task[s.current].p;
    s.(task := s.task[s.current := Used(p.(counter := if ToLong(p.counter - 1) > 0 then ToLong(p.counter - 1) else 0))])
  }

  function Niced(s: Sched, inc: Long): Sched
    requires s.current < |s.task| && s.task[s.current].Used?
  {
    var p := s.task[s.current].p;
    if ToLong(p.priority - inc) > 0 then s.(task := s.task[s.current := Used(p.(priority := ToLong(p.priority - inc)))]) else s
  }

  /** A tick costs the current task one, down to 0; only from the least word there is the count
      wraps to the largest. */
  lemma TickedMeans(s: Sched)
    requires s.current < |s.task| && s.task[s.current].Used?
    ensures var p, g := s.task[s.current].p, Ticked(s);
      && |g.task| == |s.task| && g.current == s.current && (forall i | 0 <= i < |s.task| && i != s.current :: g.task[i] == s.task[i])
      && g.task[s.current] == Used(p.(counter := if p.counter > 0 then p.counter - 1 else if p.counter == -0x8000_0000 then 0x7fff_ffff else 0))
  {
  }

  /** nice takes the increment off the priority, unless that would leave it at 0 or below; the
      difference is taken in 32 bits. */
  lemma NicedMeans(s: Sched, inc: Long)
    requires Inv(s)
    ensures var p, g := s.task[s.current].p, Niced(s, inc);
      && |g.task| == |s.task| && g.current == s.current && (forall i | 0 <= i < |s.task| && i != s.current :: g.task[i] == s.task[i])
      && g.task[s.current] == Used(p.(priority := if 0 < p.priority - inc < 0x8000_0000 then p.priority - inc else p.priority))
  {
  }

  /** A recharge gives every task half of what it has left and its priority. */
  lemma RechargeMeans(s: Sched, top: int)
    requires Inv(s) && Below(s, top) && top <= TOP
    ensures |Recharge(s).task| == |s.task| && Recharge(s).task[0] == s.task[0]
    ensures forall i | 1 <= i < |s.task| :: if s.task[i].Empty? then Recharge(s).task[i].Empty?
      else Recharge(s).task[i] == Used(s.task[i].p.(counter := s.task[i].p.counter / 2 + s.task[i].p.priority))
  {
  }

  function Forked(s: Sched, i: nat): Sched
    requires i < |s.task| && s.current < |s.task| && s.task[s.current].Used?
  {
    var p := s.task[s.current].p;
    s.(task := s.task[i := Used(p.(counter := p.priority, signal := {}, alarm := 0, state := Running))])
  }

  /** Every event keeps priorities positive; and counters from 0 to 2 * top - 1, where no
      priority goes above top and top is no more than 2^30. */
  lemma NextKeeps(s: Sched, e: Event, g: Sched, top: int)
    requires Inv(s) && Next(s, e, g)
    ensures Inv(g)
    ensures Below(s, top) && top <= TOP && (e.Nice? ==> ToLong(s.task[s.current].p.priority - e.increment) <= top) ==> Below(g, top)
  {
    if e.Schedule? {
      var s1 := AllAlerted(s, e.jiffies);
      assert Inv(s1) && (Below(s, top) ==> Below(s1, top));
      if Spent(s1) { RechargeOk(s1, top); }
      var s2 := if Spent(s1) then Recharge(s1) else s1;
      var c :| c != 0 && Best(s2, g.current, c);
      assert Best(s2, g.current, c);
      assert s2.task[g.current].Used?;
    }
  }

  ghost predicate Run(states: seq<Sched>, events: seq<Event>) {
    && |states| == |events| + 1
    && (forall k {:trigger events[k]} | 0 <= k < |events| :: Next(states[k], events[k], states[k + 1]))
  }

  /** No call of nice takes a priority above top. */
  ghost predicate NiceBelow(states: seq<Sched>, events: seq<Event>, top: int) {
    |states| == |events| + 1 && forall k | 0 <= k < |events| && events[k].Nice? && Inv(states[k]) ::
      ToLong(states[k].task[states[k].current].p.priority - events[k].increment) <= top
  }

  lemma {:induction false} RunKeeps(states: seq<Sched>, events: seq<Event>, top: int)
    requires Run(states, events) && Inv(states[0])
    ensures Inv(states[|events|])
    ensures Below(states[0], top) && NiceBelow(states, events, top) && top <= TOP ==> Below(states[|events|], top)
    decreases |events|
  {
    if events != [] {
      var n := |events| - 1;
      RunKeeps(states[..n + 1], events[..n], top);
      assert Next(states[n], events[n], states[n + 1]);
      NextKeeps(states[n], events[n], states[n + 1], top);
    }
  }

  // ---- what a large priority does ----------------------------------------------------------------------------------

  function Worker(state: RunState, counter: Long, priority: Long): Proc { Proc(state, counter, priority, 0, 0, {}, {}) }

  function ThreeTasks(current: nat, a: Proc, b: Proc): Sched {
    Sched([Used(Worker(Running, 0, 15)), Used(a), Used(b)] + seq(61, _ => Empty), current)
  }

  const GREEDY: Long := 0x7fff_ffff

  const WRAPPED: Long := -0x8000_0000

  function Stage(k: nat): Sched {
    match k
    case 0 => ThreeTasks(1, Worker(Running, 2, 15), Worker(Running, 0, 15))
    case 1 => ThreeTasks(1, Worker(Running, 2, GREEDY), Worker(Running, 0, 15))
    case 2 => ThreeTasks(1, Worker(Interruptible, 2, GREEDY), Worker(Running, 0, 15))
    case 3 => ThreeTasks(2, Worker(Interruptible, WRAPPED, GREEDY), Worker(Running, 15, 15))
    case 4 => ThreeTasks(2, Worker(Running, WRAPPED, GREEDY), Worker(Running, 15, 15))
    case 5 => ThreeTasks(2, Worker(Running, WRAPPED, GREEDY), Worker(Interruptible, 15, 15))
    case _ => ThreeTasks(0, Worker(Running, WRAPPED, GREEDY), Worker(Interruptible, 15, 15))
  }

  function StageEvent(k: nat): Event {
    match k
    case 0 => Nice(15 - GREEDY)
    case 1 => SetState(1, Interruptible)
    case 2 => Schedule(0, 2)
    case 3 => SetState(1, Running)
    case 4 => SetState(2, Interruptible)
    case _ => Schedule(0, 0)
  }

  /** Task 1 asks for the priority 2^31 - 1 and sleeps with 2 ticks left; task 2 has used up
      its time, so counters are recharged, and that of task 1 wraps to -2^31.  When task 1
      is woken and task 2 sleeps, schedule finds nobody to run, though task 1 is runnable;
      and as the best counter is not 0 it will not recharge either. */
  lemma NiceStarves() returns (states: seq<Sched>, events: seq<Event>)
    ensures Run(states, events) && Inv(states[0]) && Below(states[0], 15)
    ensures var g := states[|events|]; g.current == 0 && Runnable(g, 1) && g.task[1].p.counter == WRAPPED
  {
    states, events := seq(7, (k: nat) => Stage(k)), seq(6, (k: nat) => StageEvent(k));
    forall k | 0 <= k < 6
      ensures Next(states[k], events[k], states[k + 1])
    {
      StageNext(k);
    }
  }

  lemma StageNext(k: nat)
    requires k < 6
    ensures Next(Stage(k), StageEvent(k), Stage(k + 1))
  {
    match k
    case 0 => assert Niced(Stage(0), 15 - GREEDY).task == Stage(1).task;
    case 1 => assert Stage(1).task[1 := Used(Worker(Interruptible, 2, GREEDY))] == Stage(2).task;
    case 2 => StarvedRecharge(Stage(2), Stage(3));
    case 3 => assert Stage(3).task[1 := Used(Worker(Running, WRAPPED, GREEDY))] == Stage(4).task;
    case 4 => assert Stage(4).task[2 := Used(Worker(Interruptible, 15, 15))] == Stage(5).task;
    case 5 => NobodyChosen(Stage(5), Stage(6));
  }

  lemma NobodyChosen(s: Sched, g: Sched)
    requires s == ThreeTasks(2, Worker(Running, WRAPPED, GREEDY), Worker(Interruptible, 15, 15))
    requires g == ThreeTasks(0, Worker(Running, WRAPPED, GREEDY), Worker(Interruptible, 15, 15))
    ensures Next(s, Schedule(0, 0), g)
  {
    NothingDue(s);
    assert Best(s, 0, -1);
  }

  lemma StarvedRecharge(s: Sched, g: Sched)
    requires s == ThreeTasks(1, Worker(Interruptible, 2, GREEDY), Worker(Running, 0, 15))
    requires g == ThreeTasks(2, Worker(Interruptible, WRAPPED, GREEDY), Worker(Running, 15, 15))
    ensures Next(s, Schedule(0, 2), g)
  {
    NothingDue(s);
    assert Eligible(s, 2);
    assert Recharge(s).task == g.task;
    assert Eligible(Recharge(s), 2) && Best(Recharge(s), 2, 15);
  }

  ghost predicate Calm(s: Sched) {
    forall i | 0 <= i < |s.task| && s.task[i].Used? :: s.task[i].p.timeout == 0 && s.task[i].p.alarm == 0 && s.task[i].p.signal == {}
  }

  lemma NothingDue(s: Sched)
    requires Calm(s)
    ensures AllAlerted(s, 0) == s
  {
    assert AllAlerted(s, 0).task == s.task;
  }

  // ---- nobody waits for ever --------------------------------------------------------------------------------------

  /** The time that tasks in slots below n still have. */
  function TimeLeft(s: Sched, n: nat): int
    requires n <= |s.task|
  {
    if n == 0 then 0 else TimeLeft(s, n - 1) + Counter(s, n - 1)
  }

  lemma {:induction false} TimeChanged(s: Sched, g: Sched, n: nat, i: nat)
    requires n <= |s.task| == |g.task| && i < |s.task| && forall k | 0 <= k < n && k != i :: Counter(g, k) == Counter(s, k)
    ensures TimeLeft(g, n) == TimeLeft(s, n) + if i < n then Counter(g, i) - Counter(s, i) else 0
  {
    if n > 0 { TimeChanged(s, g, n - 1, i); }
  }

  lemma {:induction false} TimeBounded(s: Sched, n: nat, top: int, w: nat)
    requires Inv(s) && Below(s, top) && n <= NR_TASKS && w < NR_TASKS && top >= 1
    ensures (if w < n then Counter(s, w) else 0) <= TimeLeft(s, n) <= n * (2 * top - 1)
  {
    if n > 0 {
      TimeBounded(s, n - 1, top, w);
      assert (n - 1) * (2 * top - 1) + (2 * top - 1) == n * (2 * top - 1);
    }
  }

  /** A tick charged to a task that had time left. */
  predicate Charges(s: Sched, e: Event) {
    e.Tick? && s.current < |s.task| && Counter(s, s.current) > 0
  }

  function Charged(states: seq<Sched>, events: seq<Event>): nat
    requires |states| == |events| + 1
  {
    if events == [] then 0 else (if Charges(states[0], events[0]) then 1 else 0) + Charged(states[1..], events[1..])
  }

  /** Task w could run all the time but never does, and nobody forks or changes priority. */
  ghost predicate Waiting(states: seq<Sched>, events: seq<Event>, w: nat) {
    && w < NR_TASKS
    && (forall k | 0 <= k < |states| :: Runnable(states[k], w) && states[k].current != w)
    && (forall k | 0 <= k < |events| :: !events[k].Nice? && !events[k].Fork?)
  }

  /** What one event does to the waiting: the time left goes down by what is charged, unless
      counters are recharged, which happens only if w has none left and gives it some. */
  lemma WaitStep(s: Sched, e: Event, g: Sched, w: nat, top: int)
    requires Inv(s) && Below(s, top) && 1 <= top <= TOP && Next(s, e, g) && w < NR_TASKS
    requires Runnable(s, w) && Runnable(g, w) && s.current != w && g.current != w && !e.Nice? && !e.Fork?
    ensures Inv(g) && Below(g, top)
    ensures || (Counter(g, w) == Counter(s, w) && TimeLeft(g, NR_TASKS) <= TimeLeft(s, NR_TASKS) - if Charges(s, e) then 1 else 0)
            || (!Charges(s, e) && Counter(s, w) == 0 && Counter(g, w) > 0)
  {
    NextKeeps(s, e, g, top);
    match e {
      case Tick => TimeChanged(s, g, NR_TASKS, s.current);
      case SetState(i, _) => TimeChanged(s, g, NR_TASKS, i);
      case Leave(i) => TimeChanged(s, g, NR_TASKS, i);
      case Schedule(jiffies, _) =>
        var s1 := AllAlerted(s, jiffies);
        assert Eligible(s1, w);
        if !Spent(s1) {
          TimeChanged(s, g, NR_TASKS, 0);
        }
      case _ =>
    }
  }

  lemma {:induction false} WaitFrom(states: seq<Sched>, events: seq<Event>, w: nat, top: int)
    requires Run(states, events) && Waiting(states, events, w) && Inv(states[0]) && Below(states[0], top) && 1 <= top <= TOP
    ensures Charged(states, events) <= TimeLeft(states[0], NR_TASKS) - Counter(states[0], w) +
      if Counter(states[0], w) > 0 then 0 else NR_TASKS * (2 * top - 1) - 1
    decreases |events|
  {
    TimeBounded(states[0], NR_TASKS, top, w);
    if events != [] {
      assert Next(states[0], events[0], states[1]);
      WaitStep(states[0], events[0], states[1], w, top);
      forall k | 0 <= k < |events| - 1
        ensures Next(states[1..][k], events[1..][k], states[1..][k + 1])
      {
        assert Next(states[k + 1], events[k + 1], states[k + 2]);
      }
      WaitFrom(states[1..], events[1..], w, top);
      TimeBounded(states[1], NR_TASKS, top, w);
    }
  }

  /** With priorities up to 2^30, a task that stays runnable is chosen before 2 * NR_TASKS * (2 * top - 1) ticks are
      charged to tasks with time left. */
  lemma BoundedWait(states: seq<Sched>, events: seq<Event>, w: nat, top: int)
    requires Run(states, events) && Waiting(states, events, w) && Inv(states[0]) && Below(states[0], top) && 1 <= top <= TOP
    ensures Charged(states, events) < 2 * NR_TASKS * (2 * top - 1)
  {
    WaitFrom(states, events, w, top);
    TimeBounded(states[0], NR_TASKS, top, w);
    assert 2 * NR_TASKS * (2 * top - 1) == NR_TASKS * (2 * top - 1) + NR_TASKS * (2 * top - 1);
  }
}
