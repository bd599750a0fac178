/** The Bochs timer engine as values: one 32-bit countdown that stands for up to 64
    absolute deadlines, and the plain clock it is meant to implement. */
module TimerModel {
  const NULL_INTERVAL: nat := 0xffff_ffff
  const MAX_TIMERS: nat := 64
  const TWO32: nat := 0x1_0000_0000

  datatype Timer = Timer(inUse: bool, period: nat, timeToFire: nat, active: bool, continuous: bool, funct: int)

  datatype Firing = Firing(time: nat, id: nat)

  /** What a handler may ask for. */
  datatype Action = Activate(id: nat, ticks: nat, continuous: bool) | Deactivate(id: nat)

  /** A handler decides from everything that happened so far what to ask for. */
  type Handlers = (nat, nat, seq<Timer>, seq<Firing>) -> seq<Action>

  datatype Sys = Sys(timer: seq<Timer>, numTimers: nat, countdown: nat, period: nat, total: nat, log: seq<Firing>)

  function Now(c: Sys): int { c.total + c.period - c.countdown }

  function Max(a: nat, b: nat): nat { if a < b then b else a }

  // ---- activate_timer_ticks, deactivate_timer -------------------------------------------------

  predicate OnTimers(n: nat, a: Action) {
    match a
    case Activate(id, _, _) => 0 < id < n
    case Deactivate(id) => 0 < id < n
  }

  function Act(c: Sys, a: Action): Sys
    requires c.numTimers <= |c.timer| && OnTimers(c.numTimers, a) && c.countdown <= c.period
  {
    match a
    case Activate(id, t, continuous) =>
      var ticks := Max(t, 1);
      var c1 := c.(timer := c.timer[id := c.timer[id].(period := ticks, timeToFire := Now(c) + ticks, active := true, continuous := continuous)]);
      if ticks < c.countdown then c1.(period := c.period - (c.countdown - ticks), countdown := ticks) else c1
    case Deactivate(id) => c.(timer := c.timer[id := c.timer[id].(active := false)])
  }

  function Acts(c: Sys, acts: seq<Action>): Sys
    requires c.numTimers <= |c.timer| && c.countdown <= c.period
    requires forall i | 0 <= i < |acts| :: OnTimers(c.numTimers, acts[i])
    ensures Acts(c, acts).numTimers == c.numTimers && |Acts(c, acts).timer| == |c.timer|
    ensures Acts(c, acts).countdown <= Acts(c, acts).period && Acts(c, acts).log == c.log
    decreases |acts|
  {
    if acts == [] then c else Act(Acts(c, acts[..|acts| - 1]), acts[|acts| - 1])
  }

  ghost predicate Tame(h: Handlers, n: nat) {
    forall id, now, timer, log {:trigger h(id, now, timer, log)} ::
      forall i | 0 <= i < |h(id, now, timer, log)| :: OnTimers(n, h(id, now, timer, log)[i])
  }

  // ---- countdownEvent -----------------------------------------------------------------------------

  predicate Due(t: Timer, now: nat) { t.active && t.timeToFire == now }

  /** A timer that fires is stopped or set to its next deadline. */
  function Served(t: Timer, now: nat): Timer {
    if !Due(t, now) then t
    else if !t.continuous then t.(active := false)
    else t.(timeToFire := t.timeToFire + t.period)
  }

  function ServeAll(timer: seq<Timer>, n: nat, now: nat): (r: seq<Timer>)
    requires n <= |timer|
    ensures |r| == |timer|
    ensures forall i | 0 <= i < |timer| :: r[i] == if i < n then Served(timer[i], now) else timer[i]
  {
    seq(|timer|, i requires 0 <= i < |timer| => if i < n then Served(timer[i], now) else timer[i])
  }

  /** What becomes of a timer in an event: a fired one is stopped, or set to its next deadline. */
  ghost predicate ServedAs(t: Timer, t': Timer, fired: bool) {
    && t' == t.(active := t'.active, timeToFire := t'.timeToFire)
    && (fired && t.continuous ==> t'.active && t'.timeToFire == t.timeToFire + t.period)
    && (fired && !t.continuous ==> !t'.active && t'.timeToFire == t.timeToFire)
    && (!fired ==> t' == t)
  }

  /** The first n timers were looked at: exactly those whose deadline this is were fired, and
      min is the earliest of the deadlines now. */
  ghost predicate AllServed(was: seq<Timer>, timer: seq<Timer>, fired: seq<bool>, n: nat, now: nat, min: int) {
    && n <= |was| == |timer| && |fired| == n
    && (forall i | 0 <= i < n :: fired[i] <==> was[i].active && was[i].timeToFire == now)
    && (forall i | 0 <= i < n :: ServedAs(was[i], timer[i], fired[i]))
    && (forall i | n <= i < |was| :: timer[i] == was[i])
    && (forall i | 0 <= i < n && timer[i].active :: 0 <= min <= timer[i].timeToFire)
    && (min >= 0 ==> exists i | 0 <= i < n :: timer[i].active && timer[i].timeToFire == min)
  }

  lemma ServedMeans(was: seq<Timer>, n: nat, now: nat)
    requires n <= |was|
    ensures AllServed(was, ServeAll(was, n, now), DueList(was, n, now), n, now, Earliest(ServeAll(was, n, now), n))
  {
  }

  /** The earliest deadline of the first n timers, -1 (that is, the largest 64-bit
      number) if none is active. */
  function Earliest(timer: seq<Timer>, n: nat): (m: int)
    requires n <= |timer|
    ensures m >= -1
    ensures forall i | 0 <= i < n && timer[i].active :: 0 <= m <= timer[i].timeToFire
    ensures m >= 0 ==> exists i | 0 <= i < n :: timer[i].active && timer[i].timeToFire == m
  {
    if n == 0 then -1
    else
      var m := Earliest(timer, n - 1);
      var t := timer[n - 1];
      if t.active && (m == -1 || t.timeToFire < m) then t.timeToFire else m
  }

  /** Call the handlers of the timers k.. that were due, in order. */
  function CallFrom(h: Handlers, c: Sys, due: seq<bool>, k: nat): Sys
    requires c.numTimers <= |c.timer| && |due| == c.numTimers && k <= |due| && c.countdown <= c.period
    requires Tame(h, c.numTimers)
    ensures CallFrom(h, c, due, k).numTimers == c.numTimers && |CallFrom(h, c, due, k).timer| == |c.timer|
    ensures CallFrom(h, c, due, k).countdown <= CallFrom(h, c, due, k).period
    decreases |due| - k
  {
    if k == |due| then c
    else CallFrom(h, if due[k] then Call(h, c, k) else c, due, k + 1)
  }

  function Call(h: Handlers, c: Sys, id: nat): Sys
    requires c.numTimers <= |c.timer| && c.countdown <= c.period
    requires Tame(h, c.numTimers)
    ensures Call(h, c, id).numTimers == c.numTimers && |Call(h, c, id).timer| == |c.timer|
    ensures Call(h, c, id).countdown <= Call(h, c, id).period
  {
    var acts := h(id, Now(c), c.timer, c.log);
    Acts(c.(log := c.log + [Firing(Now(c), id)]), acts)
  }

  function DueList(timer: seq<Timer>, n: nat, now: nat): (r: seq<bool>)
    requires n <= |timer|
    ensures |r| == n && forall i | 0 <= i < n :: r[i] == Due(timer[i], now)
  {
    seq(n, i requires 0 <= i < n => Due(timer[i], now))
  }

  /** The cast to 32 bits. */
  function Low32(n: int): nat { if 0 <= n < TWO32 then n else n % TWO32 }

  /** The state before the handlers run. */
  function Advanced(c: Sys): Sys
    requires c.numTimers <= |c.timer|
  {
    var now := c.total + c.period;
    var timer := ServeAll(c.timer, c.numTimers, now);
    var rest := Low32(Earliest(timer, c.numTimers) - now);
    c.(timer := timer, total := now, countdown := rest, period := rest)
  }

  lemma AdvancedIs(c: Sys, timer: seq<Timer>, min: int, rest: nat)
    requires c.numTimers <= |c.timer| && timer == ServeAll(c.timer, c.numTimers, c.total + c.period)
    requires min == Earliest(timer, c.numTimers) && rest == Low32(min - (c.total + c.period))
    ensures Advanced(c) == Sys(timer, c.numTimers, rest, rest, c.total + c.period, c.log)
  {
  }

  function Event(h: Handlers, c: Sys): Sys
    requires c.numTimers <= |c.timer| && Tame(h, c.numTimers)
  {
    CallFrom(h, Advanced(c), DueList(c.timer, c.numTimers, c.total + c.period), 0)
  }

  function Tick1(h: Handlers, c: Sys): Sys
    requires Inv(c) && Tame(h, c.numTimers)
  {
    if c.countdown == 1 then Event(h, c.(countdown := 0)) else c.(countdown := c.countdown - 1)
  }

  // ---- the invariant --------------------------------------------------------------------------------

  predicate DeadlineOk(c: Sys, i: nat)
    requires i < |c.timer|
  {
    && (c.timer[i].active ==> c.total + c.period <= c.timer[i].timeToFire)
    && (c.timer[i].active && c.timer[i].continuous ==> c.timer[i].period >= 1)
  }

  /** The countdown is positive and 32 bits wide, it never runs past an active deadline,
      and slot 0 is the null timer. */
  predicate Inv(c: Sys) {
    && |c.timer| == MAX_TIMERS && 1 <= c.numTimers <= MAX_TIMERS
    && 1 <= c.countdown <= c.period < TWO32
    && (forall i {:trigger DeadlineOk(c, i)} | 0 <= i < c.numTimers :: DeadlineOk(c, i))
    && NullTimer(c)
  }

  predicate NullTimer(c: Sys)
    requires |c.timer| == MAX_TIMERS
  {
    var t := c.timer[0];
    t.inUse && t.active && t.continuous && t.period == NULL_INTERVAL && t.timeToFire <= c.total + NULL_INTERVAL
  }

  // ---- the plain clock --------------------------------------------------------------------------------

  /** No countdown: just the timers and the time. */
  datatype Clock = Clock(timer: seq<Timer>, numTimers: nat, now: nat, log: seq<Firing>)

  function Abs(c: Sys): Clock
    requires c.countdown <= c.total + c.period
  {
    Clock(c.timer, c.numTimers, Now(c), c.log)
  }

  function ClockAct(a: Clock, x: Action): Clock
    requires a.numTimers <= |a.timer| && OnTimers(a.numTimers, x)
  {
    match x
    case Activate(id, t, continuous) =>
      var ticks := Max(t, 1);
      a.(timer := a.timer[id := a.timer[id].(period := ticks, timeToFire := a.now + ticks, active := true, continuous := continuous)])
    case Deactivate(id) => a.(timer := a.timer[id := a.timer[id].(active := false)])
  }

  function ClockActs(a: Clock, acts: seq<Action>): (r: Clock)
    requires a.numTimers <= |a.timer| && forall i | 0 <= i < |acts| :: OnTimers(a.numTimers, acts[i])
    ensures r.numTimers == a.numTimers && |r.timer| == |a.timer| && r.now == a.now && r.log == a.log
    decreases |acts|
  {
    if acts == [] then a else ClockAct(ClockActs(a, acts[..|acts| - 1]), acts[|acts| - 1])
  }

  function ClockCall(h: Handlers, a: Clock, id: nat): (r: Clock)
    requires a.numTimers <= |a.timer| && Tame(h, a.numTimers)
    ensures r.numTimers == a.numTimers && |r.timer| == |a.timer| && r.now == a.now
  {
    var acts := h(id, a.now, a.timer, a.log);
    ClockActs(a.(log := a.log + [Firing(a.now, id)]), acts)
  }

  function ClockCallFrom(h: Handlers, a: Clock, due: seq<bool>, k: nat): (r: Clock)
    requires a.numTimers <= |a.timer| && |due| == a.numTimers && k <= |due| && Tame(h, a.numTimers)
    ensures r.numTimers == a.numTimers && |r.timer| == |a.timer| && r.now == a.now
    decreases |due| - k
  {
    if k == |due| then a
    else ClockCallFrom(h, if due[k] then ClockCall(h, a, k) else a, due, k + 1)
  }

  /** One tick of the plain clock: every timer whose deadline is the new time fires. */
  function ClockTick(h: Handlers, a: Clock): (r: Clock)
    requires a.numTimers <= |a.timer| && Tame(h, a.numTimers)
    ensures r.numTimers == a.numTimers && |r.timer| == |a.timer| && r.now == a.now + 1
  {
    var now := a.now + 1;
    ClockCallFrom(h, a.(timer := ServeAll(a.timer, a.numTimers, now), now := now), DueList(a.timer, a.numTimers, now), 0)
  }

  function ClockTicks(h: Handlers, a: Clock, n: nat): (r: Clock)
    requires a.numTimers <= |a.timer| && Tame(h, a.numTimers)
    ensures r.numTimers == a.numTimers && |r.timer| == |a.timer| && r.now == a.now + n
    decreases n
  {
    if n == 0 then a else ClockTick(h, ClockTicks(h, a, n - 1))
  }

  // ---- the countdown refines the clock ---------------------------------------------------------------------

  /** Inv, as it holds while handlers run: the countdown may not have been used yet. */
  lemma ActRefines(c: Sys, a: Action)
    requires Inv(c) && OnTimers(c.numTimers, a)
    ensures Inv(Act(c, a)) && Abs(Act(c, a)) == ClockAct(Abs(c), a)
    ensures Act(c, a).total == c.total
  {
    var c' := Act(c, a);
    forall i | 0 <= i < c'.numTimers
      ensures DeadlineOk(c', i)
    {
      assert DeadlineOk(c, i);
    }
  }

  lemma {:induction false} ActsRefine(c: Sys, acts: seq<Action>)
    requires Inv(c) && forall i | 0 <= i < |acts| :: OnTimers(c.numTimers, acts[i])
    ensures Inv(Acts(c, acts)) && Abs(Acts(c, acts)) == ClockActs(Abs(c), acts)
    ensures Acts(c, acts).total == c.total
    decreases |acts|
  {
    if acts != [] {
      ActsRefine(c, acts[..|acts| - 1]);
      ActRefines(Acts(c, acts[..|acts| - 1]), acts[|acts| - 1]);
    }
  }

  lemma {:induction false} CallsRefine(h: Handlers, c: Sys, due: seq<bool>, k: nat)
    requires Inv(c) && |due| == c.numTimers && k <= |due| && Tame(h, c.numTimers)
    ensures Inv(CallFrom(h, c, due, k)) && Abs(CallFrom(h, c, due, k)) == ClockCallFrom(h, Abs(c), due, k)
    decreases |due| - k
  {
    if k < |due| {
      if due[k] {
        var logged := c.(log := c.log + [Firing(Now(c), k)]);
        assert forall i | 0 <= i < c.numTimers :: DeadlineOk(c, i) ==> DeadlineOk(logged, i);
        ActsRefine(logged, h(k, Now(c), c.timer, c.log));
        CallsRefine(h, Call(h, c, k), due, k + 1);
      } else {
        CallsRefine(h, c, due, k + 1);
      }
    }
  }

  /** After the event, an active timer's deadline lies ahead. */
  lemma ServedAhead(c: Sys, i: nat)
    requires Inv(c) && i < c.numTimers
    ensures Served(c.timer[i], c.total + c.period).active ==>
      && c.total + c.period < Served(c.timer[i], c.total + c.period).timeToFire
      && (Served(c.timer[i], c.total + c.period).continuous ==> Served(c.timer[i], c.total + c.period).period >= 1)
  {
    assert DeadlineOk(c, i);
  }

  /** The null timer keeps the next countdown within 32 bits. */
  lemma EarliestInRange(c: Sys)
    requires Inv(c)
    ensures 1 <= Earliest(ServeAll(c.timer, c.numTimers, c.total + c.period), c.numTimers) - (c.total + c.period) < TWO32
  {
    var now := c.total + c.period;
    var timer := ServeAll(c.timer, c.numTimers, now);
    assert DeadlineOk(c, 0);
    assert timer[0].active;
    var m := Earliest(timer, c.numTimers);
    var i :| 0 <= i < c.numTimers && timer[i].active && timer[i].timeToFire == m;
    ServedAhead(c, i);
  }

  lemma AdvancedOk(c: Sys)
    requires Inv(c)
    ensures Inv(Advanced(c))
    ensures Now(Advanced(c)) == c.total + c.period
    ensures Advanced(c).countdown == Earliest(Advanced(c).timer, c.numTimers) - (c.total + c.period)
  {
    EarliestInRange(c);
    AdvancedDeadlines(c);
    assert DeadlineOk(c, 0);
  }

  lemma AdvancedDeadlines(c: Sys)
    requires Inv(c) && Advanced(c).countdown == Earliest(Advanced(c).timer, c.numTimers) - (c.total + c.period)
    ensures forall i {:trigger DeadlineOk(Advanced(c), i)} | 0 <= i < c.numTimers :: DeadlineOk(Advanced(c), i)
  {
    forall i | 0 <= i < c.numTimers
      ensures DeadlineOk(Advanced(c), i)
    {
      ServedAhead(c, i);
    }
  }

  lemma LoweredOk(c: Sys)
    requires Inv(c) && c.countdown > 1
    ensures Inv(c.(countdown := c.countdown - 1))
  {
    var r := c.(countdown := c.countdown - 1);
    forall i | 0 <= i < r.numTimers
      ensures DeadlineOk(r, i)
    {
      assert DeadlineOk(c, i);
    }
  }

  lemma QuietTick(h: Handlers, c: Sys)
    requires Inv(c) && Tame(h, c.numTimers) && c.countdown > 1
    ensures ClockTick(h, Abs(c)) == Abs(c.(countdown := c.countdown - 1))
  {
    NobodyDue(c);
    var a := Abs(c).(now := Now(c) + 1);
    NothingDue(h, a, DueList(c.timer, c.numTimers, Now(c) + 1), 0);
  }

  /** Up to the handlers, an event is the clock's tick. */
  lemma AdvancedIsClock(c: Sys)
    requires Inv(c) && c.countdown == 1
    ensures Inv(Advanced(c)) && Now(c) + 1 == c.total + c.period
    ensures Abs(Advanced(c)) == Abs(c).(timer := ServeAll(c.timer, c.numTimers, Now(c) + 1), now := Now(c) + 1)
  {
    AdvancedOk(c);
  }

  lemma EventTick(h: Handlers, c: Sys)
    requires Inv(c) && Tame(h, c.numTimers) && c.countdown == 1
    ensures Inv(Event(h, c.(countdown := 0))) && ClockTick(h, Abs(c)) == Abs(Event(h, c.(countdown := 0)))
  {
    AdvancedIsClock(c);
    EventIsCalls(h, c);
    ClockTickIs(h, c);
    CallsRefine(h, Advanced(c), DueList(c.timer, c.numTimers, Now(c) + 1), 0);
  }

  lemma ClockTickIs(h: Handlers, c: Sys)
    requires Inv(c) && Tame(h, c.numTimers)
    ensures var now := Now(c) + 1;
      var a := Abs(c).(timer := ServeAll(c.timer, c.numTimers, now), now := now);
      ClockTick(h, Abs(c)) == ClockCallFrom(h, a, DueList(c.timer, c.numTimers, now), 0)
  {
  }

  lemma EventIsCalls(h: Handlers, c: Sys)
    requires Inv(c) && Tame(h, c.numTimers) && Inv(Advanced(c)) && Now(c) + 1 == c.total + c.period
    ensures Event(h, c.(countdown := 0)) == CallFrom(h, Advanced(c), DueList(c.timer, c.numTimers, Now(c) + 1), 0)
  {
    CountdownApart(c, 0);
  }

  /** The event does not look at the countdown. */
  lemma CountdownApart(c: Sys, n: nat)
    requires c.numTimers <= |c.timer|
    ensures Advanced(c.(countdown := n)) == Advanced(c)
  {
  }

  /** The engine ticks exactly as the plain clock does, and its countdown stays sound. */
  lemma Tick1Refines(h: Handlers, c: Sys)
    requires Inv(c) && Tame(h, c.numTimers)
    ensures Inv(Tick1(h, c)) && Abs(Tick1(h, c)) == ClockTick(h, Abs(c))
    ensures Tick1(h, c).numTimers == c.numTimers
  {
    if c.countdown == 1 {
      EventTick(h, c);
    } else {
      LoweredOk(c);
      QuietTick(h, c);
    }
  }

  /** Before the countdown runs out no deadline has come. */
  lemma NobodyDue(c: Sys)
    requires Inv(c) && c.countdown > 1
    ensures ServeAll(c.timer, c.numTimers, Now(c) + 1) == c.timer
    ensures forall i | 0 <= i < c.numTimers :: !Due(c.timer[i], Now(c) + 1)
  {
    forall i | 0 <= i < c.numTimers
      ensures !Due(c.timer[i], Now(c) + 1)
    {
      assert DeadlineOk(c, i);
    }
  }

  lemma {:induction false} NothingDue(h: Handlers, a: Clock, due: seq<bool>, k: nat)
    requires a.numTimers <= |a.timer| && |due| == a.numTimers && k <= |due| && Tame(h, a.numTimers)
    requires forall i | k <= i < |due| :: !due[i]
    ensures ClockCallFrom(h, a, due, k) == a
    decreases |due| - k
  {
    if k < |due| { NothingDue(h, a, due, k + 1); }
  }

  // ---- n single ticks ---------------------------------------------------------------------------------------

  ghost function Ticks(h: Handlers, c: Sys, n: nat): (r: Sys)
    requires Inv(c) && Tame(h, c.numTimers)
    ensures Inv(r) && r.numTimers == c.numTimers
    decreases n
  {
    if n == 0 then c
    else
      var c1 := Ticks(h, c, n - 1);
      Tick1Refines(h, c1);
      Tick1(h, c1)
  }

  lemma {:induction false} TicksRefine(h: Handlers, c: Sys, n: nat)
    requires Inv(c) && Tame(h, c.numTimers)
    ensures Abs(Ticks(h, c, n)) == ClockTicks(h, Abs(c), n)
    decreases n
  {
    if n > 0 {
      TicksRefine(h, c, n - 1);
      Tick1Refines(h, Ticks(h, c, n - 1));
    }
  }

  /** One tick leads from c1 to c2. */
  ghost predicate IsTick(h: Handlers, c1: Sys, c2: Sys) { Inv(c1) && Tame(h, c1.numTimers) && c2 == Tick1(h, c1) }

  lemma TickOnce(h: Handlers, c: Sys, c1: Sys, c2: Sys)
    requires IsTick(h, c, c1) && IsTick(h, c, c2)
    ensures c1 == c2
  {
  }

  lemma LastTick(h: Handlers, c: Sys, n: nat)
    requires Inv(c) && Tame(h, c.numTimers) && n > 0
    ensures IsTick(h, Ticks(h, c, n - 1), Ticks(h, c, n))
  {
  }

  lemma {:induction false} TicksAdd(h: Handlers, c: Sys, m: nat, n: nat)
    requires Inv(c) && Tame(h, c.numTimers)
    ensures Ticks(h, Ticks(h, c, m), n) == Ticks(h, c, m + n)
    decreases n
  {
    if n > 0 {
      TicksAdd(h, c, m, n - 1);
      LastTick(h, Ticks(h, c, m), n);
      LastTick(h, c, m + n);
      assert m + n - 1 == m + (n - 1);
      TickOnce(h, Ticks(h, c, m + (n - 1)), Ticks(h, Ticks(h, c, m), n), Ticks(h, c, m + n));
    }
  }

  /** Short of the countdown, n ticks only lower it. */
  lemma {:induction false} TicksShort(h: Handlers, c: Sys, n: nat)
    requires Inv(c) && Tame(h, c.numTimers) && n < c.countdown
    ensures Ticks(h, c, n) == c.(countdown := c.countdown - n)
    decreases n
  {
    if n > 0 { TicksShort(h, c, n - 1); }
  }

  /** The whole countdown at once is one event. */
  lemma TicksToEvent(h: Handlers, c: Sys)
    requires Inv(c) && Tame(h, c.numTimers)
    ensures Ticks(h, c, c.countdown) == Event(h, c.(countdown := 0))
  {
    TicksShort(h, c, c.countdown - 1);
    assert c.(countdown := 1).(countdown := 0) == c.(countdown := 0);
  }

  // ---- exact delivery ------------------------------------------------------------------------------------------

  /** No handler touches timer i. */
  ghost predicate LeavesAlone(h: Handlers, i: nat) {
    forall id, now, timer, log {:trigger h(id, now, timer, log)} ::
      forall j | 0 <= j < |h(id, now, timer, log)| :: h(id, now, timer, log)[j].id != i
  }

  lemma {:induction false} ActsLeaveAlone(a: Clock, acts: seq<Action>, i: nat)
    requires a.numTimers <= |a.timer| && i < |a.timer|
    requires forall j | 0 <= j < |acts| :: OnTimers(a.numTimers, acts[j]) && acts[j].id != i
    ensures ClockActs(a, acts).timer[i] == a.timer[i]
    decreases |acts|
  {
    if acts != [] { ActsLeaveAlone(a, acts[..|acts| - 1], i); }
  }

  /** Handlers called in one tick: timer i is left alone and fires now exactly if it was due. */
  lemma {:induction false} CallsLeaveAlone(h: Handlers, a: Clock, due: seq<bool>, k: nat, i: nat)
    requires a.numTimers <= |a.timer| && |due| == a.numTimers && k <= |due| && Tame(h, a.numTimers)
    requires LeavesAlone(h, i) && i < a.numTimers
    ensures ClockCallFrom(h, a, due, k).timer[i] == a.timer[i]
    ensures a.log <= ClockCallFrom(h, a, due, k).log
    ensures forall j | |a.log| <= j < |ClockCallFrom(h, a, due, k).log| ::
      ClockCallFrom(h, a, due, k).log[j].time == a.now && (ClockCallFrom(h, a, due, k).log[j].id == i ==> k <= i && due[i])
    ensures k <= i && due[i] ==> exists j | |a.log| <= j < |ClockCallFrom(h, a, due, k).log| :: ClockCallFrom(h, a, due, k).log[j] == Firing(a.now, i)
    decreases |due| - k
  {
    if k < |due| {
      if due[k] {
        var a1 := ClockCall(h, a, k);
        ActsLeaveAlone(a.(log := a.log + [Firing(a.now, k)]), h(k, a.now, a.timer, a.log), i);
        CallsLeaveAlone(h, a1, due, k + 1, i);
        assert a1.log[|a.log|] == Firing(a.now, k);
        assert ClockCallFrom(h, a, due, k).log[|a.log|] == Firing(a.now, k);
      } else {
        CallsLeaveAlone(h, a, due, k + 1, i);
      }
    }
  }

  lemma NewInTail(log: seq<Firing>, from: nat, to: nat, f: Firing)
    requires from <= to <= |log| && exists j | to <= j < |log| :: log[j] == f
    ensures f in log[from..]
  {
    var j :| to <= j < |log| && log[j] == f;
    assert log[from..][j - from] == f;
  }

  /** A timer that nobody touches does not fire before its deadline and fires at it. */
  lemma {:induction false} ExactDelivery(h: Handlers, a: Clock, i: nat, n: nat)
    requires a.numTimers <= |a.timer| && i < a.numTimers && Tame(h, a.numTimers) && LeavesAlone(h, i)
    requires a.timer[i].active && a.now < a.timer[i].timeToFire && n <= a.timer[i].timeToFire - a.now
    ensures a.log <= ClockTicks(h, a, n).log
    ensures forall j | |a.log| <= j < |ClockTicks(h, a, n).log| && ClockTicks(h, a, n).log[j].id == i ::
      ClockTicks(h, a, n).log[j].time == a.timer[i].timeToFire
    ensures n < a.timer[i].timeToFire - a.now ==> ClockTicks(h, a, n).timer[i] == a.timer[i]
    ensures n == a.timer[i].timeToFire - a.now ==> Firing(a.timer[i].timeToFire, i) in ClockTicks(h, a, n).log[|a.log|..]
    decreases n
  {
    if n > 0 {
      ExactDelivery(h, a, i, n - 1);
      var b := ClockTicks(h, a, n - 1);
      var now := b.now + 1;
      var c := b.(timer := ServeAll(b.timer, b.numTimers, now), now := now);
      var due := DueList(b.timer, b.numTimers, now);
      CallsLeaveAlone(h, c, due, 0, i);
      var r := ClockCallFrom(h, c, due, 0);
      assert r == ClockTicks(h, a, n);
      if n == a.timer[i].timeToFire - a.now { NewInTail(r.log, |a.log|, |c.log|, Firing(now, i)); }
    }
  }

  // ---- every firing ----------------------------------------------------------------------------------------------

  /** From position `from` on, the firings are of this moment, each timer's once, in the order of
      their slots, from slot k on. */
  ghost predicate InSlotOrder(log: seq<Firing>, from: nat, now: nat, k: nat) {
    && (forall j | from <= j < |log| :: log[j].time == now && log[j].id >= k)
    && (forall i, j | from <= i < j < |log| :: log[i].id < log[j].id)
  }

  lemma {:induction false} CallsInOrder(h: Handlers, a: Clock, due: seq<bool>, k: nat)
    requires a.numTimers <= |a.timer| && |due| == a.numTimers && k <= |due| && Tame(h, a.numTimers)
    ensures a.log <= ClockCallFrom(h, a, due, k).log && InSlotOrder(ClockCallFrom(h, a, due, k).log, |a.log|, a.now, k)
    decreases |due| - k
  {
    if k < |due| {
      if due[k] {
        var b, r := ClockCall(h, a, k), ClockCallFrom(h, a, due, k);
        CallsInOrder(h, b, due, k + 1);
        assert r.log[|a.log|] == Firing(a.now, k);
      } else {
        CallsInOrder(h, a, due, k + 1);
      }
    }
  }

  /** The timers that fire in one tick are called in the order of their slots. */
  lemma TickInOrder(h: Handlers, a: Clock)
    requires a.numTimers <= |a.timer| && Tame(h, a.numTimers)
    ensures a.log <= ClockTick(h, a).log && InSlotOrder(ClockTick(h, a).log, |a.log|, a.now + 1, 0)
  {
    var now := a.now + 1;
    CallsInOrder(h, a.(timer := ServeAll(a.timer, a.numTimers, now), now := now), DueList(a.timer, a.numTimers, now), 0);
  }

  /** When timer i fired, in order. */
  function FiringsOf(log: seq<Firing>, i: nat): seq<nat> {
    if log == [] then []
    else FiringsOf(log[..|log| - 1], i) + if log[|log| - 1].id == i then [log[|log| - 1].time] else []
  }

  lemma OneFiringMore(log: seq<Firing>, f: Firing, i: nat)
    ensures FiringsOf(log + [f], i) == FiringsOf(log, i) + if f.id == i then [f.time] else []
  {
    assert (log + [f])[..|log|] == log;
  }

  lemma {:induction false} CallsFire(h: Handlers, a: Clock, due: seq<bool>, k: nat, i: nat)
    requires a.numTimers <= |a.timer| && |due| == a.numTimers && k <= |due| && Tame(h, a.numTimers) && i < a.numTimers
    ensures FiringsOf(ClockCallFrom(h, a, due, k).log, i) == FiringsOf(a.log, i) + if k <= i && due[i] then [a.now] else []
    decreases |due| - k
  {
    if k < |due| {
      if due[k] {
        OneFiringMore(a.log, Firing(a.now, k), i);
        CallsFire(h, ClockCall(h, a, k), due, k + 1, i);
      } else {
        CallsFire(h, a, due, k + 1, i);
      }
    }
  }

  /** One tick, for a timer that no handler touches. */
  lemma TickFires(h: Handlers, a: Clock, i: nat)
    requires a.numTimers <= |a.timer| && i < a.numTimers && Tame(h, a.numTimers) && LeavesAlone(h, i)
    ensures var t, g := a.timer[i], ClockTick(h, a);
      if t.active && t.timeToFire == a.now + 1
      then FiringsOf(g.log, i) == FiringsOf(a.log, i) + [a.now + 1]
           && g.timer[i] == if t.continuous then t.(timeToFire := t.timeToFire + t.period) else t.(active := false)
      else FiringsOf(g.log, i) == FiringsOf(a.log, i) && g.timer[i] == t
  {
    var now := a.now + 1;
    var c := a.(timer := ServeAll(a.timer, a.numTimers, now), now := now);
    CallsLeaveAlone(h, c, DueList(a.timer, a.numTimers, now), 0, i);
    CallsFire(h, c, DueList(a.timer, a.numTimers, now), 0, i);
  }

  /** The first k times of a timer with this deadline and period. */
  function Times(first: nat, period: nat, k: nat): (r: seq<nat>)
    ensures |r| == k && forall j | 0 <= j < k :: r[j] == first + j * period
  {
    seq(k, (j: nat) => first + j * period)
  }

  lemma TimesMore(first: nat, period: nat, k: nat)
    ensures Times(first, period, k + 1) == Times(first, period, k) + [first + k * period]
    ensures first + (k + 1) * period == first + k * period + period
  {
  }

  /** A continuous timer that nobody touches fires at its deadline and then every period, once
      each time and at no other time, however many ticks go by; its deadline is the next of
      those times. */
  lemma {:induction false} FiresPeriodically(h: Handlers, a: Clock, i: nat, n: nat) returns (k: nat)
    requires a.numTimers <= |a.timer| && i < a.numTimers && Tame(h, a.numTimers) && LeavesAlone(h, i)
    requires a.timer[i].active && a.timer[i].continuous && a.timer[i].period >= 1 && a.now < a.timer[i].timeToFire
    ensures FiringsOf(ClockTicks(h, a, n).log, i) == FiringsOf(a.log, i) + Times(a.timer[i].timeToFire, a.timer[i].period, k)
    ensures ClockTicks(h, a, n).timer[i] == a.timer[i].(timeToFire := a.timer[i].timeToFire + k * a.timer[i].period)
    ensures a.timer[i].timeToFire + k * a.timer[i].period > a.now + n
    ensures k > 0 ==> a.timer[i].timeToFire + (k - 1) * a.timer[i].period <= a.now + n
    decreases n
  {
    if n == 0 {
      k := 0;
    } else {
      k := FiresPeriodically(h, a, i, n - 1);
      k := NextFires(h, a.timer[i], FiringsOf(a.log, i), ClockTicks(h, a, n - 1), i, k);
    }
  }

  lemma NextFires(h: Handlers, t: Timer, before: seq<nat>, b: Clock, i: nat, k: nat) returns (k': nat)
    requires b.numTimers <= |b.timer| && i < b.numTimers && Tame(h, b.numTimers) && LeavesAlone(h, i)
    requires t.active && t.continuous && t.period >= 1 && b.timer[i] == t.(timeToFire := t.timeToFire + k * t.period)
    requires FiringsOf(b.log, i) == before + Times(t.timeToFire, t.period, k) && t.timeToFire + k * t.period > b.now
    requires k > 0 ==> t.timeToFire + (k - 1) * t.period <= b.now
    ensures var g := ClockTick(h, b);
      && g.timer[i] == t.(timeToFire := t.timeToFire + k' * t.period) && FiringsOf(g.log, i) == before + Times(t.timeToFire, t.period, k')
      && t.timeToFire + k' * t.period > g.now && (k' > 0 ==> t.timeToFire + (k' - 1) * t.period <= g.now)
  {
    TickFires(h, b, i);
    TimesMore(t.timeToFire, t.period, k);
    k' := if b.timer[i].timeToFire == b.now + 1 then k + 1 else k;
  }

  /** One that is not continuous fires once, at its deadline, and is off from then on. */
  lemma {:induction false} FiresOnce(h: Handlers, a: Clock, i: nat, n: nat)
    requires a.numTimers <= |a.timer| && i < a.numTimers && Tame(h, a.numTimers) && LeavesAlone(h, i)
    requires a.timer[i].active && !a.timer[i].continuous && a.now < a.timer[i].timeToFire
    ensures var over := a.timer[i].timeToFire <= a.now + n;
      && FiringsOf(ClockTicks(h, a, n).log, i) == FiringsOf(a.log, i) + (if over then [a.timer[i].timeToFire] else [])
      && ClockTicks(h, a, n).timer[i] == a.timer[i].(active := !over)
    decreases n
  {
    if n > 0 {
      FiresOnce(h, a, i, n - 1);
      TickFires(h, ClockTicks(h, a, n - 1), i);
    }
  }

  /** And one that is off does not fire. */
  lemma {:induction false} FiresNever(h: Handlers, a: Clock, i: nat, n: nat)
    requires a.numTimers <= |a.timer| && i < a.numTimers && Tame(h, a.numTimers) && LeavesAlone(h, i) && !a.timer[i].active
    ensures FiringsOf(ClockTicks(h, a, n).log, i) == FiringsOf(a.log, i) && ClockTicks(h, a, n).timer[i] == a.timer[i]
    decreases n
  {
    if n > 0 {
      FiresNever(h, a, i, n - 1);
      TickFires(h, ClockTicks(h, a, n - 1), i);
    }
  }

  /** The same for the engine with its countdown, over any number of ticks. */
  lemma EnginePeriodic(h: Handlers, c: Sys, i: nat, n: nat) returns (k: nat)
    requires Inv(c) && Tame(h, c.numTimers) && i < c.numTimers && LeavesAlone(h, i) && c.timer[i].active && c.timer[i].continuous
    ensures FiringsOf(Ticks(h, c, n).log, i) == FiringsOf(c.log, i) + Times(c.timer[i].timeToFire, c.timer[i].period, k)
    ensures |Ticks(h, c, n).timer| == |c.timer|
    ensures Ticks(h, c, n).timer[i] == c.timer[i].(timeToFire := c.timer[i].timeToFire + k * c.timer[i].period)
    ensures c.timer[i].timeToFire + k * c.timer[i].period > Now(c) + n
    ensures k > 0 ==> c.timer[i].timeToFire + (k - 1) * c.timer[i].period <= Now(c) + n
  {
    EngineStart(h, c, i, n);
    k := FiresPeriodically(h, Abs(c), i, n);
  }

  lemma EngineStart(h: Handlers, c: Sys, i: nat, n: nat)
    requires Inv(c) && Tame(h, c.numTimers) && i < c.numTimers
    ensures c.timer[i].active ==> Now(c) < c.timer[i].timeToFire && (c.timer[i].continuous ==> c.timer[i].period >= 1)
    ensures ClockTicks(h, Abs(c), n) == Abs(Ticks(h, c, n))
  {
    assert DeadlineOk(c, i);
    TicksRefine(h, c, n);
  }

  lemma EngineOnce(h: Handlers, c: Sys, i: nat, n: nat)
    requires Inv(c) && Tame(h, c.numTimers) && i < c.numTimers && LeavesAlone(h, i) && c.timer[i].active && !c.timer[i].continuous
    ensures var over, g := c.timer[i].timeToFire <= Now(c) + n, Ticks(h, c, n);
      && FiringsOf(g.log, i) == FiringsOf(c.log, i) + (if over then [c.timer[i].timeToFire] else [])
      && |g.timer| == |c.timer| && g.timer[i] == c.timer[i].(active := !over)
  {
    EngineStart(h, c, i, n);
    FiresOnce(h, Abs(c), i, n);
  }

  // ---- small facts about the invariant ----------------------------------------------------------------------------

  lemma LoggedOk(c: Sys, f: Firing)
    requires Inv(c)
    ensures Inv(c.(log := c.log + [f]))
  {
    var r := c.(log := c.log + [f]);
    forall i | 0 <= i < r.numTimers
      ensures DeadlineOk(r, i)
    {
      assert DeadlineOk(c, i);
    }
  }

  lemma StoppedOk(c: Sys)
    requires Inv(c)
    ensures Inv(c.(countdown := 0).(countdown := c.period))
  {
    var r := c.(countdown := 0).(countdown := c.period);
    forall i | 0 <= i < r.numTimers
      ensures DeadlineOk(r, i)
    {
      assert DeadlineOk(c, i);
    }
  }

  lemma IdleSlotOk(c: Sys, i: nat, t: Timer)
    requires Inv(c) && 0 < i < c.numTimers && !t.active
    ensures Inv(c.(timer := c.timer[i := t]))
  {
    var r := c.(timer := c.timer[i := t]);
    forall j | 0 <= j < r.numTimers
      ensures DeadlineOk(r, j)
    {
      assert DeadlineOk(c, j);
    }
  }

  lemma RegisteredOk(c: Sys, r: Sys, id: nat)
    requires Inv(c) && 0 < id <= c.numTimers && id < MAX_TIMERS && |r.timer| == MAX_TIMERS
    requires r.numTimers == (if id == c.numTimers then c.numTimers + 1 else c.numTimers) && r.total == c.total
    requires forall i | 0 <= i < MAX_TIMERS && i != id :: r.timer[i] == c.timer[i]
    requires r.timer[id].active ==> r.total + r.period <= r.timer[id].timeToFire && r.timer[id].period >= 1
    requires 1 <= r.countdown <= r.period <= c.period
    ensures Inv(r)
  {
    forall j | 0 <= j < r.numTimers
      ensures DeadlineOk(r, j)
    {
      if j != id { assert DeadlineOk(c, j); }
    }
  }
}
