/** bx_pc_system_c: the timer half of pc_system.cc and pc_system.h, fields and loops as
    they are there.  A timer's callback is the function `handlers`. */
module PcSystem {
  import opened TimerModel

  class BxPcSystem {
    const timer: array<Timer>
    var numTimers: nat
    var triggeredTimer: nat
    var currCountdown: nat
    var currCountdownPeriod: nat
    var ticksTotal: nat
    var lastTimeUsec: nat
    var usecSinceLast: nat
    const handlers: Handlers
    var firings: seq<Firing>      // what the devices have seen so far

    function Snap(): Sys
      reads this, timer
    {
      Sys(timer[..], numTimers, currCountdown, currCountdownPeriod, ticksTotal, firings)
    }

    ghost predicate Valid()
      reads this, timer
    {
      Inv(Snap()) && Tame(handlers, numTimers)
    }

    /** The time in ticks. */
    function TimeTicks(): (t: int)
      requires Valid()
      reads this, timer
      ensures t == Abs(Snap()).now
    {
      ticksTotal + (currCountdownPeriod - currCountdown)
    }

    // ---- handlers ask for timers ------------------------------------------------------------

    method ActivateTimerTicks(i: nat, t: nat, continuous: bool)
      requires timer.Length == MAX_TIMERS && 0 < i < numTimers <= MAX_TIMERS && currCountdown <= currCountdownPeriod < TWO32
      modifies this`currCountdown, this`currCountdownPeriod, timer
      ensures Snap() == Act(old(Snap()), Activate(i, t, continuous))
      ensures var now, ticks := old(ticksTotal + (currCountdownPeriod - currCountdown)), if t < 1 then 1 else t;
        && timer[i] == old(timer[i]).(period := ticks, timeToFire := now + ticks, active := true, continuous := continuous)
        && ticksTotal + (currCountdownPeriod - currCountdown) == now && currCountdown <= ticks
        && (ticks >= old(currCountdown) ==> currCountdown == old(currCountdown))
      ensures forall j | 0 <= j < timer.Length && j != i :: timer[j] == old(timer[j])
    {
      ghost var c := Snap();
      var ticks := t;
      if ticks < 1 {
        ticks := 1;
      }
      timer[i] := timer[i].(period := ticks);
      timer[i] := timer[i].(timeToFire := ticksTotal + (currCountdownPeriod - currCountdown) + ticks);
      timer[i] := timer[i].(active := true);
      timer[i] := timer[i].(continuous := continuous);
      if ticks < currCountdown {
        currCountdownPeriod := currCountdownPeriod - (currCountdown - ticks % TWO32);
        currCountdown := ticks % TWO32;
      }
      assert timer[..] == c.timer[i := c.timer[i].(period := ticks, timeToFire := Now(c) + ticks, active := true, continuous := continuous)];
    }

    method DeactivateTimer(i: nat)
      requires timer.Length == MAX_TIMERS && 0 < i < numTimers <= MAX_TIMERS && currCountdown <= currCountdownPeriod
      modifies timer
      ensures Snap() == Act(old(Snap()), Deactivate(i))
      ensures timer[i] == old(timer[i]).(active := false) && forall j | 0 <= j < timer.Length && j != i :: timer[j] == old(timer[j])
    {
      ghost var c := Snap();
      timer[i] := timer[i].(active := false);
      assert timer[..] == c.timer[i := c.timer[i].(active := false)];
    }
  
    // ---- events -----------------------------------------------------------------------------------

    /** Run the callback of a timer that fired, and is the one named in triggeredTimer: it sees the
        time and asks for timers. */
    method Callback(id: nat)
      requires Valid() && triggeredTimer == id
      modifies this`currCountdown, this`currCountdownPeriod, this`firings, timer
      ensures Valid() && Snap() == Call(handlers, old(Snap()), id)
    {
      ghost var c := Snap();
      var acts := handlers(id, TimeTicks(), timer[..], firings);
      firings := firings + [Firing(TimeTicks(), id)];
      ghost var logged := Snap();
      LoggedOk(c, Firing(Now(c), id));
      var j := 0;
      while j < |acts|
        invariant 0 <= j <= |acts| && Valid() && numTimers == c.numTimers
        invariant Snap() == Acts(logged, acts[..j])
      {
        assert OnTimers(numTimers, acts[j]);
        assert acts[..j + 1][..j] == acts[..j];
        ActRefines(Snap(), acts[j]);
        match acts[j] {
          case Activate(i, ticks, continuous) => ActivateTimerTicks(i, ticks, continuous);
          case Deactivate(i) => DeactivateTimer(i);
        }
        j := j + 1;
      }
      assert acts[..|acts|] == acts;
    }

    method CountdownEvent()
      requires currCountdown == 0 && currCountdownPeriod > 0
      requires Inv(Snap().(countdown := currCountdownPeriod)) && Tame(handlers, numTimers)
      modifies this`currCountdown, this`currCountdownPeriod, this`ticksTotal, this`triggeredTimer, this`firings, timer
      ensures Valid() && Snap() == Event(handlers, old(Snap()))
      ensures old(triggeredTimer) == 0 ==> triggeredTimer == 0
    {
      ghost var c := Snap();
      AdvancedAnyway(c);
      var triggered := ServiceTimers();
      CallTriggered(triggered);
    }

    lemma AdvancedAnyway(c: Sys)
      requires c.countdown == 0 < c.period && Inv(c.(countdown := c.period))
      ensures Inv(Advanced(c)) && Advanced(c).numTimers == c.numTimers
    {
      AdvancedOk(c.(countdown := c.period));
      CountdownApart(c, c.period);
    }

    // pc_system.cc:362-370
    method CallTriggered(triggered: seq<bool>)
      requires Valid() && |triggered| == numTimers
      modifies this`currCountdown, this`currCountdownPeriod, this`triggeredTimer, this`firings, timer
      ensures Valid() && Snap() == CallFrom(handlers, old(Snap()), triggered, 0)
      ensures old(triggeredTimer) == 0 ==> triggeredTimer == 0
    {
      ghost var start := Snap();
      var i := 0;
      while i < numTimers
        invariant 0 <= i <= numTimers == start.numTimers && Valid()
        invariant CallFrom(handlers, Snap(), triggered, i) == CallFrom(handlers, start, triggered, 0)
        invariant old(triggeredTimer) == 0 ==> triggeredTimer == 0
      {
        if triggered[i] {
          triggeredTimer := i;
          Callback(i);
          triggeredTimer := 0;
        }
        i := i + 1;
      }
    }

    // pc_system.cc:322-360
    method ServiceTimers() returns (triggered: seq<bool>)
      requires timer.Length == MAX_TIMERS && numTimers <= MAX_TIMERS
      modifies this`currCountdown, this`currCountdownPeriod, this`ticksTotal, timer
      ensures triggered == DueList(old(timer[..]), numTimers, old(ticksTotal + currCountdownPeriod))
      ensures Snap() == Advanced(old(Snap()))
    {
      ghost var c := Snap();
      ticksTotal := ticksTotal + currCountdownPeriod;
      var minTimeToFire;
      triggered, minTimeToFire := ServiceAll();
      Rearm(minTimeToFire);
      AdvancedIs(c, timer[..], minTimeToFire, currCountdown);
    }

    // pc_system.cc:359-360
    method Rearm(minTimeToFire: int)
      modifies this`currCountdown, this`currCountdownPeriod
      ensures currCountdown == currCountdownPeriod == Low32(minTimeToFire - ticksTotal)
    {
      currCountdownPeriod := Low32(minTimeToFire - ticksTotal);
      currCountdown := currCountdownPeriod;
    }

    // pc_system.cc:325-354
    method ServiceAll() returns (triggered: seq<bool>, minTimeToFire: int)
      requires timer.Length == MAX_TIMERS && numTimers <= MAX_TIMERS
      modifies timer
      ensures triggered == DueList(old(timer[..]), numTimers, ticksTotal)
      ensures timer[..] == ServeAll(old(timer[..]), numTimers, ticksTotal)
      ensures AllServed(old(timer[..]), timer[..], triggered, numTimers, ticksTotal, minTimeToFire)
      ensures minTimeToFire == Earliest(timer[..], numTimers)
    {
      ghost var was := timer[..];
      ghost var served := ServeAll(was, numTimers, ticksTotal);
      minTimeToFire := -1;
      triggered := [];
      var i := 0;
      while i < numTimers
        invariant 0 <= i <= numTimers && |triggered| == i
        invariant forall j | 0 <= j < i :: triggered[j] == Due(was[j], ticksTotal)
        invariant forall j | 0 <= j < i :: timer[j] == served[j]
        invariant forall j | i <= j < MAX_TIMERS :: timer[j] == was[j]
        invariant minTimeToFire == Earliest(served, i)
      {
        var due;
        due, minTimeToFire := ServiceOne(i, minTimeToFire);
        triggered := triggered + [due];
        i := i + 1;
      }
      assert timer[..] == served;
      ServedMeans(was, numTimers, ticksTotal);
    }

    // pc_system.cc:326-353
    method ServiceOne(i: nat, min: int) returns (due: bool, minTimeToFire: int)
      requires i < timer.Length
      modifies timer
      ensures due == Due(old(timer[i]), ticksTotal) && timer[i] == Served(old(timer[i]), ticksTotal)
      ensures forall j | 0 <= j < timer.Length && j != i :: timer[j] == old(timer[j])
      ensures minTimeToFire == if timer[i].active && (min == -1 || timer[i].timeToFire < min) then timer[i].timeToFire else min
    {
      due := false;
      minTimeToFire := min;
      if timer[i].active {
        if ticksTotal == timer[i].timeToFire {
          due := true;
          if !timer[i].continuous {
            timer[i] := timer[i].(active := false);
          } else {
            timer[i] := timer[i].(timeToFire := timer[i].timeToFire + timer[i].period);
            if min == -1 || timer[i].timeToFire < min {
              minTimeToFire := timer[i].timeToFire;
            }
          }
        } else if min == -1 || timer[i].timeToFire < min {
          minTimeToFire := timer[i].timeToFire;
        }
      }
    }

    // ---- ticks --------------------------------------------------------------------------------------

    method Tick1()
      requires Valid()
      modifies this`currCountdown, this`currCountdownPeriod, this`ticksTotal, this`triggeredTimer, this`firings, timer
      ensures Valid() && Snap() == TimerModel.Tick1(handlers, old(Snap()))
      ensures old(triggeredTimer) == 0 ==> triggeredTimer == 0
    {
      ghost var c := Snap();
      Tick1Refines(handlers, c);
      currCountdown := currCountdown - 1;
      if currCountdown == 0 {
        StoppedOk(c);
        CountdownEvent();
      }
    }

    // pc_system.h:114-115
    method Skip()
      requires Valid()
      modifies this`currCountdown, this`currCountdownPeriod, this`ticksTotal, this`triggeredTimer, this`firings, timer
      ensures Valid() && Snap() == Ticks(handlers, old(Snap()), old(currCountdown))
      ensures old(triggeredTimer) == 0 ==> triggeredTimer == 0
    {
      TicksToEvent(handlers, Snap());
      StoppedOk(Snap());
      currCountdown := 0;
      CountdownEvent();
    }

    /** n ticks at once: the same as n single ticks, down to the order of the callbacks. */
    method TickN(n: nat)
      requires Valid()
      modifies this`currCountdown, this`currCountdownPeriod, this`ticksTotal, this`triggeredTimer, this`firings, timer
      ensures Valid() && Snap() == Ticks(handlers, old(Snap()), n)
      ensures old(triggeredTimer) == 0 ==> triggeredTimer == 0
    {
      ghost var c, done := Snap(), 0;
      var left := n;
      while left >= currCountdown
        invariant left >= 0 && done + left == n && Valid() && numTimers == c.numTimers && Snap() == Ticks(handlers, c, done)
        invariant old(triggeredTimer) == 0 ==> triggeredTimer == 0
        decreases left
      {
        ghost var step := currCountdown;
        TicksAdd(handlers, c, done, step);
        left := left - currCountdown;
        Skip();
        done := done + step;
      }
      TicksAdd(handlers, c, done, left);
      CountDown(left);
    }

    // pc_system.h:120
    method CountDown(n: nat)
      requires Valid() && n < currCountdown
      modifies this`currCountdown
      ensures Valid() && Snap() == Ticks(handlers, old(Snap()), n)
    {
      TicksShort(handlers, Snap(), n);
      currCountdown := currCountdown - n;
    }

    // ---- registration --------------------------------------------------------------------------------

    /** Take the first free slot, unless the table is full, which the source only looks for in
        debug builds.  A new active timer may shorten the countdown. */
    method RegisterTimerTicks(funct: int, t: nat, continuous: bool, active: bool) returns (id: nat, full: bool)
      requires Valid() && (numTimers < MAX_TIMERS ==> Tame(handlers, numTimers + 1))
      modifies this`numTimers, this`currCountdown, this`currCountdownPeriod, timer
      ensures Valid() && firings == old(firings)
      ensures full <==> old(numTimers) == MAX_TIMERS && forall i | 0 <= i < MAX_TIMERS :: old(timer[i].inUse)
      ensures full ==> id == MAX_TIMERS && Snap() == old(Snap())
      ensures !full ==> 0 < id < numTimers && numTimers == (if id == old(numTimers) then old(numTimers) + 1 else old(numTimers))
      ensures !full ==> (id < old(numTimers) ==> !old(timer[id].inUse)) && forall i | 0 <= i < id :: old(timer[i].inUse)
      ensures !full ==> timer[id] == Timer(true, Max(t, 1), old(Abs(Snap()).now) + Max(t, 1), active, continuous, funct)
      ensures forall i | 0 <= i < MAX_TIMERS && i != id :: timer[i] == old(timer[i])
      ensures Abs(Snap()).now == old(Abs(Snap()).now)
    {
      ghost var c := Snap();
      var ticks := if t < 1 then 1 else t;
      id := 0;
      while id < numTimers && timer[id].inUse
        invariant 0 <= id <= numTimers
        invariant forall i | 0 <= i < id :: timer[i].inUse
      {
        id := id + 1;
      }
      full := id == MAX_TIMERS;
      if full {
        return;      // timer[id] would lie behind the table
      }
      timer[id] := Timer(true, ticks, ticksTotal + (currCountdownPeriod - currCountdown) + ticks, active, continuous, funct);
      if active && ticks < currCountdown {
        currCountdownPeriod := currCountdownPeriod - (currCountdown - ticks % TWO32);
        currCountdown := ticks % TWO32;
      }
      if id == numTimers {
        numTimers := numTimers + 1;
      }
      RegisteredOk(c, Snap(), id);
    }

    /** Give up a stopped timer; false is the panic about one that is still active. */
    method UnregisterTimer(i: nat) returns (ok: bool)
      requires Valid() && 0 < i < numTimers
      modifies timer
      ensures Valid() && ok == !old(timer[i].active)
      ensures !ok ==> Snap() == old(Snap())
      ensures ok ==> !timer[i].inUse && !timer[i].active && Snap() == old(Snap()).(timer := old(Snap()).timer[i := timer[i]])
    {
      ghost var c := Snap();
      if timer[i].active {
        return false;
      }
      timer[i] := Timer(false, 0x7fff_ffff_ffff_ffff, 0x7fff_ffff_ffff_ffff, timer[i].active, false, 0);
      assert timer[..] == c.timer[i := timer[i]];
      IdleSlotOk(c, i, timer[i]);
      return true;
    }

    // ---- microseconds ---------------------------------------------------------------------------------

    /** A time stamp for a caller that must never see the same one twice: while the clock
        does not run backwards every result is one more than the one before, or one more
        than the clock. */
    method TimeUsecSequential(thisTimeUsec: nat) returns (t: nat)
      requires thisTimeUsec >= lastTimeUsec
      modifies this`lastTimeUsec, this`usecSinceLast
      ensures t == lastTimeUsec + usecSinceLast && lastTimeUsec == thisTimeUsec
      ensures t > old(lastTimeUsec + usecSinceLast) && t > thisTimeUsec
      ensures t == old(lastTimeUsec + usecSinceLast) + 1 || t == thisTimeUsec + 1
    {
      if thisTimeUsec != lastTimeUsec {
        var diffUsec := thisTimeUsec - lastTimeUsec;
        lastTimeUsec := thisTimeUsec;
        if diffUsec >= usecSinceLast {
          usecSinceLast := 0;
        } else {
          usecSinceLast := usecSinceLast - diffUsec;
        }
      }
      usecSinceLast := usecSinceLast + 1;
      t := thisTimeUsec + usecSinceLast;
    }
  }
}
