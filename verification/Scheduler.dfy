/** schedule, do_timer's counter and sys_nice. */
module Scheduler {
  import opened SchedModel

  /** One tick less, down to 0, and around the end of the word. */
  ghost function ChargedTo(c: Long): Long { if c > 0 then c - 1 else if c == -0x8000_0000 then 0x7fff_ffff else 0 }

  /** The tick does not end the task's turn: it has time left, or the clock interrupted the kernel. */
  ghost predicate KeepsRunning(cpl: int, c: Long) { cpl == 0 || c > 1 || c == -0x8000_0000 }

  class Cpu {
    const task: array<Slot>
    var current: nat

    function Snap(): Sched
      reads this, task
    {
      Sched(task[..], current)
    }

    ghost predicate Valid()
      reads this, task
    {
      Inv(Snap())
    }

    // sched.c:170-192
    method Alert(jiffies: nat)
      requires Valid()
      modifies task
      ensures Snap() == AllAlerted(old(Snap()), jiffies)
      ensures forall i | 1 <= i < NR_TASKS && old(task[i]).Used? :: task[i].Used? && AlertedAs(old(task[i]).p, task[i].p, jiffies)
      ensures task[0] == old(task[0]) && forall i | 1 <= i < NR_TASKS && old(task[i]).Empty? :: task[i].Empty?
    {
      ghost var s := Snap();
      var i := 63;
      while i >= 1
        invariant 0 <= i <= 63 && current == s.current
        invariant forall k | 0 <= k <= i :: task[k] == s.task[k]
        invariant forall k | i < k < NR_TASKS :: task[k] == AllAlerted(s, jiffies).task[k]
      {
        if task[i].Used? {
          var p := task[i].p;
          if p.timeout != 0 && p.timeout < jiffies {
            p := p.(timeout := 0);
            if p.state == Interruptible {
              p := p.(state := Running);
            }
          }
          if p.alarm != 0 && p.alarm < jiffies {
            p := p.(signal := p.signal + {SIGALRM}, alarm := 0);
          }
          if p.signal - (p.blocked - {SIGKILL, SIGSTOP}) != {} && p.state == Interruptible {
            p := p.(state := Running);
          }
          DeliverableMeans(p);
          DeliverableMeans(Alerted(s.task[i].p, jiffies));
          task[i] := Used(p);
        }
        i := i - 1;
      }
      assert task[..] == AllAlerted(s, jiffies).task;
      forall k | 1 <= k < NR_TASKS && s.task[k].Used?
        ensures AlertedAs(s.task[k].p, task[k].p, jiffies)
      {
        AlertedMeans(s.task[k].p, jiffies);
      }
    }

    lemma DeliverableMeans(p: Proc)
      ensures p.signal - (p.blocked - {SIGKILL, SIGSTOP}) != {} <==> Deliverable(p)
      ensures forall st :: Deliverable(p.(state := st)) == Deliverable(p)
    {
      if Deliverable(p) {
        var g :| g in p.signal && !(g in p.blocked && g != SIGKILL && g != SIGSTOP);
        assert g in p.signal - (p.blocked - {SIGKILL, SIGSTOP});
      } else if x :| x in p.signal - (p.blocked - {SIGKILL, SIGSTOP}) {
        assert Deliverable(p);
      }
    }

    /** One pass over the tasks, from the last slot down. */
    method Pick() returns (next: nat, c: int)
      requires Valid()
      ensures Best(Snap(), next, c)
    {
      c, next := -1, 0;
      var i := 63;
      while i >= 1
        invariant 0 <= i <= 63
        invariant c == -1 ==> next == 0 && forall k | i < k :: !Eligible(Snap(), k)
        invariant c != -1 ==> i < next && Eligible(Snap(), next) && c == task[next].p.counter
        invariant forall k {:trigger Eligible(Snap(), k)} | i < k && Eligible(Snap(), k) :: task[k].p.counter < c || (task[k].p.counter == c && k <= next)
      {
        if task[i].Used? && task[i].p.state == Running && task[i].p.counter > c {
          assert Eligible(Snap(), i);
          c, next := task[i].p.counter, i;
        }
        i := i - 1;
      }
    }

    // sched.c:216-220
    method RechargeAll()
      requires Valid()
      modifies task
      ensures Snap() == Recharge(old(Snap()))
    {
      ghost var s := Snap();
      var i := 63;
      while i >= 1
        invariant 0 <= i <= 63 && current == s.current
        invariant forall k | 0 <= k <= i :: task[k] == s.task[k]
        invariant forall k | i < k < NR_TASKS :: task[k] == Recharge(s).task[k]
      {
        if task[i].Used? {
          task[i] := Used(task[i].p.(counter := ToLong(task[i].p.counter / 2 + task[i].p.priority)));
        }
        i := i - 1;
      }
      assert task[..] == Recharge(s).task;
    }

    /** schedule: at most one recharge, then the best runnable task. */
    method Schedule(jiffies: nat) returns (ghost passes: nat)
      requires Valid()
      modifies this`current, task
      ensures Valid() && Scheduled(old(Snap()), jiffies, Snap())
      ensures 1 <= passes <= 2
    {
      ghost var s := Snap();
      Alert(jiffies);
      assert Valid();
      ghost var s1 := Snap();
      passes := 0;
      var next, c := 0, 0;
      while c == 0
        invariant Valid() && current == old(current) && c >= -1
        invariant passes == 0 ==> Snap() == s1 && c == 0
        invariant passes == 1 ==> Best(s1, next, c) && Snap() == if c == 0 then Recharge(s1) else s1
        invariant passes == 2 ==> c != 0 && Spent(s1) && Snap() == Recharge(s1) && Best(Snap(), next, c)
        invariant passes <= 2
        decreases 2 - passes
      {
        ghost var before := Snap();
        next, c := Pick();
        passes := passes + 1;
        SpentIffZero(before, next, c);
        if passes == 2 {
          TwoPasses(s1, next, c);
        }
        if c == 0 {
          RechargeAll();
        }
      }
      SpentIffZero(s1, next, c);
      current := next;
    }

    lemma SpentIffZero(s: Sched, next: nat, c: int)
      requires Inv(s)
      ensures Best(s, next, c) ==> (c == 0 <==> Spent(s)) && c >= -1
    {
      if Best(s, next, c) && exists i :: Eligible(s, i) {
        assert Eligible(s, next);
      }
    }

    /** The end of do_timer: charge the current task and, when its time is up and the clock
        did not interrupt the kernel, schedule. */
    method DoTimer(cpl: int, jiffies: nat)
      requires Valid()
      modifies this`current, task
      ensures Valid()
      ensures KeepsRunning(cpl, old(task[current]).p.counter) ==>
        current == old(current) && task[..] == old(task[..])[current := Used(old(task[current]).p.(counter := ChargedTo(old(task[current]).p.counter)))]
      ensures if cpl != 0 && old(ToLong(task[current].p.counter - 1)) <= 0 then Scheduled(old(Ticked(Snap())), jiffies, Snap()) else Snap() == old(Ticked(Snap()))
    {
      ghost var s := Snap();
      TickedMeans(s);
      task[current] := Used(task[current].p.(counter := ToLong(task[current].p.counter - 1)));
      if task[current].p.counter > 0 {
        assert Snap() == Ticked(s);
        return;
      }
      task[current] := Used(task[current].p.(counter := 0));
      assert Snap() == Ticked(s);
      if cpl == 0 {
        return;
      }
      ghost var _ := Schedule(jiffies);
    }

    /** sys_nice: the priority stays positive, also where the difference wraps. */
    method SysNice(increment: Long)
      requires Valid()
      modifies task
      ensures Valid() && Snap() == Niced(old(Snap()), increment)
      ensures var p := old(task[current]).p;
        task[current] == Used(p.(priority := if 0 < p.priority - increment < 0x8000_0000 then p.priority - increment else p.priority))
      ensures forall i | 0 <= i < NR_TASKS && i != current :: task[i] == old(task[i])
    {
      NicedMeans(Snap(), increment);
      if ToLong(task[current].p.priority - increment) > 0 {
        task[current] := Used(task[current].p.(priority := ToLong(task[current].p.priority - increment)));
      }
      assert Snap() == Niced(old(Snap()), increment);
    }
  }
}
