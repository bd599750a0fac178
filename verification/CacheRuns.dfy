/** Whole runs of fs/buffer.c: every task holds buffers, and the tasks and the disk take
    their uninterrupted steps in any order.  A step is enabled by what the code checks and
    by nothing else; that the cache stays well formed, that a held buffer keeps its block
    and that every block reads as last written is proved for all runs. */
module CacheRuns {
  import opened CacheModel
  import opened CacheLists
  import opened CacheSteps

  datatype Sys = Sys(c: Cache, holds: seq<seq<nat>>)    // holds[t][b]: task t's uses of buffer b

  datatype Op =
    | Hold(t: nat, b: int, d: Word, k: Word)       // find_buffer found the block, b_count++
    | Recycle(t: nat, b: int, d: Word, k: Word)    // getblk gives an unused buffer to the block
    | Drop(t: nat, b: int)                         // b_count--
    | Write(t: nat, b: int, x: Block)              // the user stores and marks it dirty
    | Submit(t: nat, b: int, request: Io)          // ll_rw_block
    | Complete(b: int)                             // the disk interrupt
    | Fail(b: int)                                 // the disk interrupt of a read that failed

  predicate By(op: Op, t: nat) {
    !op.Complete? && !op.Fail? && op.t == t
  }

  predicate Shaped(s: Sys) {
    Sizes(s.c) && forall t | 0 <= t < |s.holds| :: |s.holds[t]| == |s.c.dev|
  }

  /** What the code has checked when it takes the step. */
  ghost predicate Enabled(s: Sys, op: Op) {
    && Shaped(s) && Buf(s.c, op.b)
    && (op.Complete? || op.Fail? || op.t < |s.holds|)
    && match op
       case Hold(t, b, d, k) => Key(s.c, b, d, k)
       case Recycle(t, b, d, k) => Free(s.c, b) && (d == 0 || Absent(s.c, d, k))
       case Drop(t, b) => s.holds[t][b] > 0 && s.c.count[b] > 0
       case Write(t, b, x) => s.holds[t][b] > 0 && Writable(s.c, b)
       case Submit(t, b, request) =>
         s.c.io[b] == Idle && ((request == Reading && !s.c.uptodate[b]) || (request == Writing && s.c.dirt[b]))
       case Complete(b) => true
       case Fail(b) => s.c.io[b] == Reading
  }

  function Adjusted(holds: seq<seq<nat>>, t: nat, b: int, n: nat): seq<seq<nat>>
    requires t < |holds| && 0 <= b < |holds[t]|
  {
    var h: seq<nat> := holds[t][b := n];
    holds[t := h]
  }

  /** Corrupt lists would end in the panic "Free block list corrupted". */
  function Relisted(c: Cache, b: int, d: Word, k: Word): Cache
    requires Sizes(c) && Buf(c, b)
  {
    if LinksFit(c, b) && HeadsFit(Rekeyed(Removed(c, b), b, d, k), b) then Requeued(c, b, d, k) else c
  }

  function Next(s: Sys, op: Op): Sys
    requires Enabled(s, op)
  {
    match op
    case Hold(t, b, d, k) => Sys(Counted(s.c, b), Adjusted(s.holds, t, b, s.holds[t][b] + 1))
    case Recycle(t, b, d, k) => Sys(Relisted(s.c, b, d, k), Adjusted(s.holds, t, b, s.holds[t][b] + 1))
    case Drop(t, b) => Sys(Uncounted(s.c, b), Adjusted(s.holds, t, b, s.holds[t][b] - 1))
    case Write(t, b, x) => Sys(Wrote(s.c, b, x), s.holds)
    case Submit(t, b, request) => Sys(Submitted(s.c, b, request), s.holds)
    case Complete(b) => Sys(Completed(s.c, b), s.holds)
    case Fail(b) => Sys(Failed(s.c, b), s.holds)
  }

  // ---- the invariant ------------------------------------------------------------------------

  function UsesOf(h: seq<nat>, b: int): nat { if 0 <= b < |h| then h[b] else 0 }

  ghost function Total(holds: seq<seq<nat>>, b: int): nat {
    if holds == [] then 0 else UsesOf(holds[0], b) + Total(holds[1..], b)
  }

  ghost predicate AllCounted(s: Sys)
    requires Shaped(s)
  {
    forall b {:trigger s.c.count[b]} | Buf(s.c, b) :: s.c.count[b] == Total(s.holds, b)
  }

  /** The cache is well formed and b_count is the number of uses of all tasks together. */
  ghost predicate SysInv(s: Sys) {
    Shaped(s) && Inv(s.c) && AllCounted(s)
  }

  lemma {:induction false} TotalAdjusted(holds: seq<seq<nat>>, t: nat, h: seq<nat>, b: int)
    requires t < |holds|
    ensures Total(holds[t := h], b) == Total(holds, b) - UsesOf(holds[t], b) + UsesOf(h, b)
    ensures UsesOf(holds[t], b) <= Total(holds, b)
  {
    if t == 0 {
      assert holds[t := h][1..] == holds[1..];
    } else {
      TotalAdjusted(holds[1..], t - 1, h, b);
      assert holds[t := h][1..] == holds[1..][t - 1 := h];
    }
  }

  lemma {:induction false} TwoUsers(holds: seq<seq<nat>>, t: nat, u: nat, b: int)
    requires t < |holds| && u < |holds| && t != u
    ensures UsesOf(holds[t], b) + UsesOf(holds[u], b) <= Total(holds, b)
  {
    TotalAdjusted(holds, t, [], b);
    TotalAdjusted(holds[t := []], u, [], b);
  }

  lemma HoldsOf(s: Sys, t: nat)
    requires SysInv(s) && t < |s.holds|
    ensures Holds(s.c, s.holds[t])
  {
    forall b | Buf(s.c, b)
      ensures s.holds[t][b] <= s.c.count[b]
    {
      TotalAdjusted(s.holds, t, [], b);
    }
  }

  /** One step of one task, except a store, is quiet in the sense of CacheModel. */
  lemma OwnQuiet(s: Sys, op: Op, t: nat)
    requires SysInv(s) && Enabled(s, op) && By(op, t) && !op.Write?
    ensures t < |s.holds| == |Next(s, op).holds|
    ensures Quiet(s.c, Next(s, op).c, s.holds[t], Next(s, op).holds[t])
  {
    HoldsOf(s, t);
    var h := s.holds[t];
    match op
    case Hold(_, b, d, k) => CountedQuiet(s.c, h, b);
    case Recycle(_, b, d, k) => RelistedQuiet(s.c, h, b, d, k);
    case Drop(_, b) => UncountedQuiet(s.c, h, b);
    case Submit(_, b, request) => SubmittedQuiet(s.c, h, b, request);
  }

  lemma RelistedQuiet(c: Cache, h: seq<nat>, b: int, d: Word, k: Word)
    requires Inv(c) && Holds(c, h) && Buf(c, b) && Free(c, b) && (d == 0 || Absent(c, d, k))
    ensures Quiet(c, Relisted(c, b, d, k), h, h[b := h[b] + 1])
    ensures Recycled(c, Relisted(c, b, d, k), b, d, k)
  {
    var g' := RequeuedOk(c, b, d, k);
    RecycledQuiet(c, Requeued(c, b, d, k), g', h, b, d, k);
  }

  lemma DiskQuiet(s: Sys, op: Op, held: seq<nat>)
    requires SysInv(s) && Enabled(s, op) && (op.Complete? || op.Fail?) && Holds(s.c, held)
    ensures Quiet(s.c, Next(s, op).c, held, held)
  {
    if op.Complete? { CompletedQuiet(s.c, held, op.b); } else { FailedQuiet(s.c, held, op.b); }
  }

  lemma NextInv(s: Sys, op: Op)
    requires SysInv(s) && Enabled(s, op)
    ensures Inv(Next(s, op).c) && |Next(s, op).c.dev| == |s.c.dev|
  {
    if op.Complete? || op.Fail? {
      DiskQuiet(s, op, s.c.count);
    } else {
      HoldsOf(s, op.t);
      if op.Write? { WroteArray(s.c, s.holds[op.t], op.b, op.x); } else { OwnQuiet(s, op, op.t); }
    }
  }

  /** How the step changes the count of buffer b. */
  lemma NextCount(s: Sys, op: Op, b: int)
    requires SysInv(s) && Enabled(s, op) && Buf(s.c, b) && Shaped(Next(s, op)) && |Next(s, op).c.dev| == |s.c.dev|
    ensures Next(s, op).c.count[b] == Total(Next(s, op).holds, b)
  {
    if op.Hold? || op.Recycle? || op.Drop? {
      TotalAdjusted(s.holds, op.t, Next(s, op).holds[op.t], b);
      if op.Recycle? {
        HoldsOf(s, op.t);
        RelistedQuiet(s.c, s.holds[op.t], op.b, op.d, op.k);
      }
    } else {
      assert Next(s, op).holds == s.holds && Next(s, op).c.count == s.c.count;
    }
  }

  lemma NextKeeps(s: Sys, op: Op)
    requires SysInv(s) && Enabled(s, op)
    ensures SysInv(Next(s, op)) && |Next(s, op).c.dev| == |s.c.dev| && |Next(s, op).holds| == |s.holds|
  {
    NextInv(s, op);
    forall b | Buf(s.c, b)
      ensures Next(s, op).c.count[b] == Total(Next(s, op).holds, b)
    {
      NextCount(s, op, b);
    }
  }

  // ---- runs -----------------------------------------------------------------------------------

  function Front(ops: seq<Op>): seq<Op>
    requires ops != []
  {
    ops[..|ops| - 1]
  }

  ghost predicate CanRun(s: Sys, ops: seq<Op>)
    decreases |ops|, 0
  {
    ops == [] || (CanRun(s, Front(ops)) && Enabled(RunAll(s, Front(ops)), ops[|ops| - 1]))
  }

  function RunAll(s: Sys, ops: seq<Op>): Sys
    requires CanRun(s, ops)
    decreases |ops|, 1
  {
    if ops == [] then s else Next(RunAll(s, Front(ops)), ops[|ops| - 1])
  }

  /** Every run of tasks and disk keeps the cache well formed and the uses counted. */
  lemma {:induction false} RunKeepsInv(s: Sys, ops: seq<Op>)
    requires SysInv(s) && CanRun(s, ops)
    ensures SysInv(RunAll(s, ops)) && |RunAll(s, ops).c.dev| == |s.c.dev| && |RunAll(s, ops).holds| == |s.holds|
    decreases |ops|
  {
    if ops != [] {
      RunKeepsInv(s, Front(ops));
      NextKeeps(RunAll(s, Front(ops)), ops[|ops| - 1]);
    }
  }

  lemma {:induction false} RunsAppend(s: Sys, ops: seq<Op>, more: seq<Op>)
    requires CanRun(s, ops)
    ensures CanRun(s, ops + more) <==> CanRun(RunAll(s, ops), more)
    ensures CanRun(s, ops + more) ==> RunAll(s, ops + more) == RunAll(RunAll(s, ops), more)
    decreases |more|
  {
    if more == [] {
      assert ops + more == ops;
    } else {
      RunsAppend(s, ops, Front(more));
      FrontOfBoth(ops, more);
      SameEnd(s, ops + more, RunAll(s, ops), more);
    }
  }

  lemma FrontOfBoth(ops: seq<Op>, more: seq<Op>)
    requires more != []
    ensures ops + more != [] && Front(ops + more) == ops + Front(more) && (ops + more)[|ops + more| - 1] == more[|more| - 1]
  {
  }

  /** Two runs that meet before the same last step end in the same state. */
  lemma SameEnd(s: Sys, a: seq<Op>, s': Sys, b: seq<Op>)
    requires a != [] && b != [] && a[|a| - 1] == b[|b| - 1]
    requires CanRun(s, Front(a)) <==> CanRun(s', Front(b))
    requires CanRun(s, Front(a)) ==> RunAll(s, Front(a)) == RunAll(s', Front(b))
    ensures (CanRun(s, a) <==> CanRun(s', b)) && (CanRun(s, a) ==> RunAll(s, a) == RunAll(s', b))
  {
  }

  // ---- what a held buffer is ------------------------------------------------------------------

  /** The block for which task t last got buffer b. */
  ghost function Meant(ops: seq<Op>, t: nat, b: int): (Word, Word)
    decreases |ops|
  {
    if ops == [] then (0, 0)
    else
      var op := ops[|ops| - 1];
      if (op.Hold? || op.Recycle?) && op.t == t && op.b == b then (op.d, op.k) else Meant(Front(ops), t, b)
  }

  ghost predicate Unheld(s: Sys) {
    forall t, b {:trigger s.holds[t][b]} | 0 <= t < |s.holds| && 0 <= b < |s.holds[t]| :: s.holds[t][b] == 0
  }

  /** One step changes the key of no held buffer. */
  lemma NextKeepsKey(s: Sys, op: Op, t: nat, b: int)
    requires SysInv(s) && Enabled(s, op) && t < |s.holds| && Buf(s.c, b) && s.holds[t][b] > 0
    ensures Sizes(Next(s, op).c) && Buf(Next(s, op).c, b) && Key(Next(s, op).c, b, s.c.dev[b], s.c.block[b])
    ensures !(op.Recycle? && op.b == b)
  {
    NextKeeps(s, op);
    TotalAdjusted(s.holds, t, [], b);
    if op.Recycle? {
      HoldsOf(s, op.t);
      RelistedQuiet(s.c, s.holds[op.t], op.b, op.d, op.k);
    }
  }

  /** In every run, a buffer that a task holds still is the block for which it got it. */
  lemma {:induction false} HeldKeepsBlock(s: Sys, ops: seq<Op>, t: nat, b: int)
    requires SysInv(s) && Unheld(s) && CanRun(s, ops) && t < |s.holds| && Buf(s.c, b)
    ensures SysInv(RunAll(s, ops)) && Buf(RunAll(s, ops).c, b) && t < |RunAll(s, ops).holds|
    ensures RunAll(s, ops).holds[t][b] > 0 ==> Meant(ops, t, b) == (RunAll(s, ops).c.dev[b], RunAll(s, ops).c.block[b])
    decreases |ops|
  {
    RunKeepsInv(s, ops);
    if ops != [] {
      var s1, op := RunAll(s, Front(ops)), ops[|ops| - 1];
      HeldKeepsBlock(s, Front(ops), t, b);
      if s1.holds[t][b] > 0 {
        NextKeepsKey(s1, op, t, b);
      } else if op.Recycle? && op.t == t {
        HoldsOf(s1, t);
        RelistedQuiet(s1.c, s1.holds[t], op.b, op.d, op.k);
      }
    }
  }

  // ---- the last block written -----------------------------------------------------------------

  /** What the last store meant for the block put there, x0 if there was none. */
  ghost function LastWritten(ops: seq<Op>, d: Word, k: Word, x0: Block): Block
    decreases |ops|
  {
    if ops == [] then x0
    else
      var op := ops[|ops| - 1];
      if op.Write? && Meant(Front(ops), op.t, op.b) == (d, k) then op.x else LastWritten(Front(ops), d, k, x0)
  }

  lemma NextArray(s: Sys, op: Op, d: Word, k: Word)
    requires SysInv(s) && Enabled(s, op)
    ensures Sizes(Next(s, op).c)
    ensures Array(Next(s, op).c, d, k) == if op.Write? && Key(s.c, op.b, d, k) then op.x else Array(s.c, d, k)
  {
    if op.Complete? || op.Fail? {
      DiskQuiet(s, op, s.c.count);
    } else {
      HoldsOf(s, op.t);
      if op.Write? { WroteArray(s.c, s.holds[op.t], op.b, op.x); } else { OwnQuiet(s, op, op.t); }
    }
  }

  /** In every run, every block reads as the last block stored for it by any task. */
  lemma {:induction false} ReadsLastWritten(s: Sys, ops: seq<Op>, d: Word, k: Word)
    requires SysInv(s) && Unheld(s) && CanRun(s, ops)
    ensures SysInv(RunAll(s, ops)) && Array(RunAll(s, ops).c, d, k) == LastWritten(ops, d, k, Array(s.c, d, k))
    decreases |ops|
  {
    RunKeepsInv(s, ops);
    if ops != [] {
      var s1, op := RunAll(s, Front(ops)), ops[|ops| - 1];
      ReadsLastWritten(s, Front(ops), d, k);
      RunKeepsInv(s, Front(ops));
      NextArray(s1, op, d, k);
      if op.Write? { HeldKeepsBlock(s, Front(ops), op.t, op.b); }
    }
  }

  // ---- what the others' steps leave -----------------------------------------------------------

  ghost predicate NotBy(ops: seq<Op>, t: nat) { forall i | 0 <= i < |ops| :: !By(ops[i], t) }

  lemma NextRelied(s: Sys, op: Op, t: nat)
    requires SysInv(s) && Enabled(s, op) && t < |s.holds| && !By(op, t)
    ensures t < |Next(s, op).holds| && Next(s, op).holds[t] == s.holds[t]
    ensures Rely(s.c, Next(s, op).c, s.holds[t])
  {
    HoldsOf(s, t);
    if op.Complete? || op.Fail? {
      DiskQuiet(s, op, s.holds[t]);
    } else if op.Write? {
      WroteArray(s.c, s.holds[t], op.b, op.x);
    } else {
      OwnQuiet(s, op, op.t);
      forall b | Buf(s.c, b)
        ensures s.holds[op.t][b] + s.holds[t][b] <= s.c.count[b]
      {
        TwoUsers(s.holds, op.t, t, b);
      }
      QuietIsRelied(s.c, Next(s, op).c, s.holds[op.t], Next(s, op).holds[op.t], s.holds[t]);
    }
  }

  /** Whatever the others do, in any number of steps, a task keeps what it holds. */
  lemma {:induction false} OthersRespect(s: Sys, ops: seq<Op>, t: nat)
    requires SysInv(s) && CanRun(s, ops) && t < |s.holds| && NotBy(ops, t)
    ensures t < |RunAll(s, ops).holds| && RunAll(s, ops).holds[t] == s.holds[t]
    ensures SysInv(RunAll(s, ops)) && Rely(s.c, RunAll(s, ops).c, s.holds[t])
    decreases |ops|
  {
    RunKeepsInv(s, ops);
    if ops == [] {
      HoldsOf(s, t);
    } else {
      var s1 := RunAll(s, Front(ops));
      OthersRespect(s, Front(ops), t);
      NextRelied(s1, ops[|ops| - 1], t);
      RelyTransitive(s.c, s1.c, RunAll(s, ops).c, s.holds[t]);
    }
  }

  ghost predicate DiskOnly(ops: seq<Op>) { forall i | 0 <= i < |ops| :: ops[i].Complete? || ops[i].Fail? }

  lemma NextDiskOnly(s: Sys, op: Op)
    requires SysInv(s) && Enabled(s, op) && (op.Complete? || op.Fail?)
    ensures Sizes(Next(s, op).c) && SameArray(s.c, Next(s, op).c) && SameKeys(s.c, Next(s, op).c) && NoNewDirt(s.c, Next(s, op).c)
  {
    DiskQuiet(s, op, s.c.count);
  }

  /** The disk alone changes no block, no key, and makes nothing dirty. */
  lemma {:induction false} DiskOnlyRun(s: Sys, ops: seq<Op>)
    requires SysInv(s) && CanRun(s, ops) && DiskOnly(ops)
    ensures Sizes(RunAll(s, ops).c) && SameArray(s.c, RunAll(s, ops).c)
    ensures SameKeys(s.c, RunAll(s, ops).c) && NoNewDirt(s.c, RunAll(s, ops).c)
    decreases |ops|
  {
    if ops != [] {
      var s1 := RunAll(s, Front(ops));
      RunKeepsInv(s, Front(ops));
      DiskOnlyRun(s, Front(ops));
      NextDiskOnly(s1, ops[|ops| - 1]);
      SameArrayTransitive(s.c, s1.c, RunAll(s, ops).c);
    }
  }

  lemma SameArrayTransitive(c: Cache, c1: Cache, c2: Cache)
    requires Sizes(c) && Sizes(c1) && Sizes(c2) && SameArray(c, c1) && SameArray(c1, c2)
    ensures SameArray(c, c2)
  {
    forall d, k
      ensures Array(c2, d, k) == Array(c, d, k)
    {
      assert Array(c1, d, k) == Array(c, d, k);
    }
  }

  // ---- histories --------------------------------------------------------------------------------

  /** Nobody holds a buffer, and every block is what the disk has. */
  ghost predicate Fresh(s: Sys) {
    SysInv(s) && Unheld(s) && forall d, k :: Array(s.c, d, k) == DiskAt(s.c, d, k)
  }

  /** The steps lead from the fresh state s0 to s. */
  ghost predicate Reached(s0: Sys, ops: seq<Op>, s: Sys) {
    Fresh(s0) && SysInv(s) && CanRun(s0, ops) && RunAll(s0, ops) == s && |s.c.dev| == |s0.c.dev|
  }

  lemma FreshSystem(s: Sys)
    requires Shaped(s) && Inv(s.c) && Unheld(s) && (forall b | Buf(s.c, b) :: s.c.count[b] == 0)
    requires forall d, k :: Array(s.c, d, k) == DiskAt(s.c, d, k)
    ensures Reached(s, [], s)
  {
    forall b | Buf(s.c, b)
      ensures s.c.count[b] == Total(s.holds, b)
    {
      NothingHeld(s.holds, b);
    }
  }

  lemma {:induction false} NothingHeld(holds: seq<seq<nat>>, b: int)
    requires forall t, b {:trigger holds[t][b]} | 0 <= t < |holds| && 0 <= b < |holds[t]| :: holds[t][b] == 0
    ensures Total(holds, b) == 0
  {
    if holds != [] { NothingHeld(holds[1..], b); }
  }

  lemma ReachedNext(s0: Sys, ops: seq<Op>, s: Sys, op: Op)
    requires Reached(s0, ops, s) && Enabled(s, op)
    ensures Reached(s0, ops + [op], Next(s, op))
  {
    assert Front(ops + [op]) == ops;
    NextKeeps(s, op);
  }

  lemma ReachedMore(s0: Sys, ops: seq<Op>, s: Sys, more: seq<Op>)
    requires Reached(s0, ops, s) && CanRun(s, more)
    ensures Reached(s0, ops + more, RunAll(s, more))
  {
    RunsAppend(s0, ops, more);
    RunKeepsInv(s, more);
  }

  /** A valid buffer shows what was last stored for its block since the start, or what the
      disk had then. */
  lemma ValidIsLastWritten(s0: Sys, ops: seq<Op>, s: Sys, b: int)
    requires Reached(s0, ops, s) && Buf(s.c, b) && s.c.uptodate[b]
    ensures var d, k := s.c.dev[b], s.c.block[b]; s.c.data[b] == LastWritten(ops, d, k, DiskAt(s0.c, d, k))
  {
    assert BufferOk(s.c, b);
    ArrayIs(s.c, b);
    ReadsLastWritten(s0, ops, s.c.dev[b], s.c.block[b]);
  }

  // ---- why a buffer that was read is not valid -----------------------------------------------

  /** Task 0 holds buffer b. */
  ghost predicate Holding(s: Sys, b: int) { SysInv(s) && s.holds != [] && Buf(s.c, b) && s.holds[0][b] > 0 }

  /** The buffer is one of a device, and valid or being read. */
  ghost predicate OnTheWay(s: Sys, b: int)
    requires Shaped(s) && Buf(s.c, b)
  {
    s.c.dev[b] != 0 && (s.c.uptodate[b] || s.c.io[b] == Reading)
  }

  ghost predicate FailsIn(ops: seq<Op>, b: int) { exists i :: 0 <= i < |ops| && ops[i] == Fail(b) }

  /** Only the end of its read without success leaves a held buffer neither valid nor being read. */
  lemma NextOnTheWay(s: Sys, op: Op, b: int)
    requires Holding(s, b) && Enabled(s, op) && !By(op, 0)
    ensures Holding(Next(s, op), b) && Key(Next(s, op).c, b, s.c.dev[b], s.c.block[b])
    ensures OnTheWay(s, b) && op != Fail(b) ==> OnTheWay(Next(s, op), b)
  {
    NextKeeps(s, op);
    NextKeepsKey(s, op, 0, b);
    NextRelied(s, op, 0);
    if op.Recycle? { var _ := RequeuedOk(s.c, op.b, op.d, op.k); }
  }

  lemma {:induction false} RunOnTheWay(s: Sys, ops: seq<Op>, b: int)
    requires Holding(s, b) && CanRun(s, ops) && NotBy(ops, 0)
    ensures Holding(RunAll(s, ops), b) && Key(RunAll(s, ops).c, b, s.c.dev[b], s.c.block[b])
    ensures OnTheWay(s, b) && !FailsIn(ops, b) ==> OnTheWay(RunAll(s, ops), b)
    decreases |ops|
  {
    if ops != [] {
      var s1, op := RunAll(s, Front(ops)), ops[|ops| - 1];
      RunOnTheWay(s, Front(ops), b);
      NextOnTheWay(s1, op, b);
      if FailsIn(Front(ops), b) {
        var i :| 0 <= i < |Front(ops)| && Front(ops)[i] == Fail(b);
        assert ops[i] == Fail(b);
      }
    }
  }

  lemma {:induction false} RunsPrefix(s: Sys, ops: seq<Op>, n: nat)
    requires CanRun(s, ops) && n <= |ops|
    ensures CanRun(s, ops[..n])
    decreases |ops|
  {
    if n < |ops| {
      RunsPrefix(s, Front(ops), n);
      assert Front(ops)[..n] == ops[..n];
    } else {
      assert ops[..n] == ops;
    }
  }

  /** From step `from` of the history on, some read of block (d, k) failed, in a buffer that
      task 0 had for it and held. */
  ghost predicate ReadFailed(s0: Sys, ops: seq<Op>, from: nat, d: Word, k: Word) {
    exists i {:trigger ops[i]} :: from <= i < |ops| && ops[i].Fail? && FailsFor(s0, ops[..i], ops[i].b, d, k)
  }

  ghost predicate FailsFor(s0: Sys, before: seq<Op>, b: int, d: Word, k: Word) {
    CanRun(s0, before) && Holding(RunAll(s0, before), b) && Key(RunAll(s0, before).c, b, d, k)
  }

  /** A held buffer that was valid or being read, and now is neither: its read has failed. */
  lemma HasFailed(s0: Sys, ops: seq<Op>, s: Sys, more: seq<Op>, from: nat, b: int)
    requires Reached(s0, ops, s) && ops <= more && CanRun(s0, more) && NotBy(more[|ops|..], 0)
    requires Holding(s, b) && OnTheWay(s, b) && Shaped(RunAll(s0, more)) && Buf(RunAll(s0, more).c, b) && from <= |ops|
    ensures OnTheWay(RunAll(s0, more), b) || ReadFailed(s0, more, from, s.c.dev[b], s.c.block[b])
  {
    var rest := more[|ops|..];
    assert ops + rest == more;
    RunsAppend(s0, ops, rest);
    RunOnTheWay(s, rest, b);
    if FailsIn(rest, b) { FailedIn(s0, ops, s, rest, from, b); }
  }

  lemma FailedIn(s0: Sys, ops: seq<Op>, s: Sys, rest: seq<Op>, from: nat, b: int)
    requires Reached(s0, ops, s) && CanRun(s, rest) && NotBy(rest, 0) && FailsIn(rest, b) && Holding(s, b) && from <= |ops|
    ensures ReadFailed(s0, ops + rest, from, s.c.dev[b], s.c.block[b])
  {
    var j :| 0 <= j < |rest| && rest[j] == Fail(b);
    FailedThere(s0, ops, s, rest, j, b);
    assert ops + rest[..j] == (ops + rest)[..|ops| + j];
    assert (ops + rest)[|ops| + j] == Fail(b);
  }

  lemma FailedThere(s0: Sys, ops: seq<Op>, s: Sys, rest: seq<Op>, j: nat, b: int)
    requires Reached(s0, ops, s) && CanRun(s, rest) && NotBy(rest, 0) && j <= |rest| && Holding(s, b)
    ensures FailsFor(s0, ops + rest[..j], b, s.c.dev[b], s.c.block[b])
  {
    RunsPrefix(s, rest, j);
    RunOnTheWay(s, rest[..j], b);
    RunsAppend(s0, ops, rest[..j]);
  }

  lemma FailedEver(s0: Sys, ops: seq<Op>, more: seq<Op>, from: nat, to: nat, d: Word, k: Word)
    requires ReadFailed(s0, ops, to, d, k) && from <= to && ops <= more
    ensures ReadFailed(s0, more, from, d, k)
  {
    var i :| to <= i < |ops| && ops[i].Fail? && FailsFor(s0, ops[..i], ops[i].b, d, k);
    assert more[..i] == ops[..i] && more[i] == ops[i];
  }

  // ---- blocks on their way to the disk ----------------------------------------------------------

  /** Buffer b is not a dirty buffer of the device. */
  ghost predicate Flushed(c: Cache, b: int, d: Word) {
    Sizes(c) && Buf(c, b) && !(c.dev[b] == d && c.dirt[b])
  }

  /** No buffer of the block is dirty. */
  ghost predicate Settled(c: Cache, d: Word, k: Word) {
    Sizes(c) && forall b | Buf(c, b) && Key(c, b, d, k) :: !c.dirt[b]
  }

  /** The block reads from the disk as it does through the cache. */
  ghost predicate OnDisk(c: Cache, d: Word, k: Word) {
    Sizes(c) && DiskAt(c, d, k) == Array(c, d, k)
  }

  /** Once, at moment `from` or later, buffer b was not a dirty buffer of the device. */
  ghost predicate OnceFlushed(h: seq<Cache>, from: nat, b: int, d: Word) {
    exists p {:trigger Flushed(h[p], b, d)} :: from <= p < |h| && Flushed(h[p], b, d)
  }

  ghost predicate OnceSettled(h: seq<Cache>, from: nat, d: Word, k: Word) {
    exists p {:trigger Settled(h[p], d, k)} :: from <= p < |h| && Settled(h[p], d, k)
  }

  ghost predicate OnceOnDisk(h: seq<Cache>, from: nat, d: Word, k: Word) {
    exists p {:trigger OnDisk(h[p], d, k)} :: from <= p < |h| && OnDisk(h[p], d, k)
  }

  ghost predicate OneStep(c: Cache, c': Cache) {
    exists s, op {:trigger Next(s, op)} :: SysInv(s) && Enabled(s, op) && s.c == c && Next(s, op).c == c'
  }

  ghost predicate StepTo(h: seq<Cache>, p: nat)
    requires 0 < p < |h|
  {
    OneStep(h[p - 1], h[p])
  }

  ghost predicate MomentOk(c: Cache, n: nat) { Inv(c) && |c.dev| == n }

  /** The successive states of a run, with n buffers. */
  ghost predicate History(h: seq<Cache>, n: nat) {
    && |h| > 0
    && (forall p {:trigger MomentOk(h[p], n)} | 0 <= p < |h| :: MomentOk(h[p], n))
    && (forall p: nat {:trigger StepTo(h, p)} | 0 < p < |h| :: StepTo(h, p))
  }

  ghost function Moments(s: Sys, ops: seq<Op>): seq<Cache>
    requires CanRun(s, ops)
    decreases |ops|
  {
    if ops == [] then [s.c] else Moments(s, Front(ops)) + [RunAll(s, ops).c]
  }

  lemma {:induction false} MomentsAreHistory(s: Sys, ops: seq<Op>)
    requires SysInv(s) && CanRun(s, ops)
    ensures |Moments(s, ops)| == |ops| + 1 && History(Moments(s, ops), |s.c.dev|)
    ensures Moments(s, ops)[|ops|] == RunAll(s, ops).c
    decreases |ops|
  {
    RunKeepsInv(s, ops);
    if ops != [] {
      MomentsAreHistory(s, Front(ops));
      RunKeepsInv(s, Front(ops));
      var h, h' := Moments(s, Front(ops)), Moments(s, ops);
      var s1 := RunAll(s, Front(ops));
      assert Next(s1, ops[|ops| - 1]).c == h'[|ops|];
      HistoryGrows(h, h', |s.c.dev|);
    }
  }

  lemma HistoryGrows(h: seq<Cache>, h': seq<Cache>, n: nat)
    requires History(h, n) && |h'| == |h| + 1 && h'[..|h|] == h && MomentOk(h'[|h|], n) && OneStep(h[|h| - 1], h'[|h|])
    ensures History(h', n)
  {
    forall p | 0 <= p < |h'|
      ensures MomentOk(h'[p], n)
    {
      if p < |h| { assert MomentOk(h[p], n) && h'[p] == h[p]; }
    }
    forall p: nat | 0 < p < |h'|
      ensures StepTo(h', p)
    {
      if p < |h| { assert StepTo(h, p) && h'[p] == h[p] && h'[p - 1] == h[p - 1]; }
    }
  }

  lemma {:induction false} MomentsExtend(s: Sys, ops: seq<Op>, more: seq<Op>)
    requires CanRun(s, ops) && CanRun(s, more) && ops <= more
    ensures |Moments(s, ops)| == |ops| + 1 && Moments(s, ops) <= Moments(s, more)
    decreases |more|
  {
    if ops == more {
      MomentsLength(s, ops);
    } else {
      assert ops <= Front(more);
      MomentsExtend(s, ops, Front(more));
    }
  }

  lemma {:induction false} MomentsLength(s: Sys, ops: seq<Op>)
    requires CanRun(s, ops)
    ensures |Moments(s, ops)| == |ops| + 1
    decreases |ops|
  {
    if ops != [] { MomentsLength(s, Front(ops)); }
  }

  lemma OnceFlushedLater(h: seq<Cache>, h': seq<Cache>, from: nat, b: int, d: Word)
    requires h <= h' && OnceFlushed(h, from, b, d)
    ensures OnceFlushed(h', from, b, d)
  {
    var p :| from <= p < |h| && Flushed(h[p], b, d);
    assert Flushed(h'[p], b, d);
  }

  ghost predicate DirtyAs(c: Cache, b: int, d: Word, k: Word) {
    Sizes(c) && Buf(c, b) && Key(c, b, d, k) && c.dirt[b]
  }

  ghost predicate WrittenAs(c: Cache, b: int, d: Word, k: Word) {
    Sizes(c) && Buf(c, b) && Key(c, b, d, k) && c.io[b] == Writing
  }

  lemma StepIn(h: seq<Cache>, n: nat, p: nat)
    requires History(h, n) && 0 < p < |h|
    ensures MomentOk(h[p - 1], n) && MomentOk(h[p], n) && OneStep(h[p - 1], h[p])
  {
    assert StepTo(h, p);
  }

  lemma CleanedStep(c: Cache, c': Cache, b: int, d: Word, k: Word)
    requires Inv(c) && Inv(c') && |c'.dev| == |c.dev| && OneStep(c, c') && d != 0
    requires DirtyAs(c, b, d, k) && !DirtyAs(c', b, d, k)
    ensures Settled(c', d, k)
  {
    var s, op :| SysInv(s) && Enabled(s, op) && s.c == c && Next(s, op).c == c';
    if op.Recycle? {
      HoldsOf(s, op.t);
      RelistedQuiet(s.c, s.holds[op.t], op.b, op.d, op.k);
    }
    assert Key(c', b, d, k);
    forall x | Buf(c', x)
      ensures x != b ==> !Key(c', x, d, k)
    {
      assert x != b ==> !SameKey(c'.dev, c'.block, b, x);
    }
  }

  /** A dirty buffer of the block becomes clean before it becomes anything else. */
  lemma {:induction false} CleanFirst(h: seq<Cache>, n: nat, from: nat, p: nat, b: int, d: Word, k: Word)
    requires History(h, n) && from <= p < |h| && d != 0
    requires DirtyAs(h[from], b, d, k) && !DirtyAs(h[p], b, d, k)
    ensures OnceSettled(h, from, d, k)
    decreases p - from
  {
    StepIn(h, n, p);
    if DirtyAs(h[p - 1], b, d, k) {
      CleanedStep(h[p - 1], h[p], b, d, k);
    } else {
      CleanFirst(h, n, from, p - 1, b, d, k);
    }
  }

  /** A pass that met each buffer once in a state other than dirty has met each block of
      the device so, however the blocks moved between the buffers meanwhile. */
  lemma PassSettles(h: seq<Cache>, n: nat, from: nat, d: Word, k: Word)
    requires History(h, n) && from < |h|
    requires forall b | 0 <= b < n :: OnceFlushed(h, from, b, d)
    ensures OnceSettled(h, from, d, k)
  {
    var c := h[from];
    assert MomentOk(c, n);
    if b :| Buf(c, b) && Key(c, b, d, k) && c.dirt[b] {
      assert BufferOk(c, b);
      assert OnceFlushed(h, from, b, d);
      var p :| from <= p < |h| && Flushed(h[p], b, d);
      assert MomentOk(h[p], n);
      CleanFirst(h, n, from, p, b, d, k);
    } else {
      assert Settled(c, d, k);
    }
  }

  /** A block with no dirty buffer is on the disk, or is being written there. */
  lemma SettledOnDisk(c: Cache, d: Word, k: Word)
    requires Inv(c) && Settled(c, d, k)
    requires forall b | Buf(c, b) && Key(c, b, d, k) :: c.io[b] != Writing
    ensures OnDisk(c, d, k)
  {
    if b :| Caches(c, b, d, k) {
      assert Caches(c, b, d, k);
      assert BufferOk(c, b);
      ArrayIs(c, b);
    } else {
      ArrayIsDisk(c, d, k);
    }
  }

  /** A buffer that is being written goes on being written until the disk is done. */
  lemma KeepsWriting(s: Sys, op: Op, b: int)
    requires SysInv(s) && Enabled(s, op) && Buf(s.c, b) && s.c.io[b] == Writing
    ensures op != Complete(b) ==> WrittenAs(Next(s, op).c, b, s.c.dev[b], s.c.block[b])
  {
    NextKeeps(s, op);
    if op.Recycle? {
      HoldsOf(s, op.t);
      RelistedQuiet(s.c, s.holds[op.t], op.b, op.d, op.k);
    }
  }

  lemma WrittenStep(c: Cache, c': Cache, b: int, d: Word, k: Word)
    requires Inv(c) && Inv(c') && |c'.dev| == |c.dev| && OneStep(c, c')
    requires WrittenAs(c, b, d, k) && !WrittenAs(c', b, d, k)
    ensures OnDisk(c', d, k)
  {
    var s, op :| SysInv(s) && Enabled(s, op) && s.c == c && Next(s, op).c == c';
    assert BufferOk(c, b);
    KeepsWriting(s, op, b);
    assert op == Complete(b);
    ArrayIs(c', b);
  }

  /** The completion of the request for the block's buffer brings it to the disk. */
  lemma {:induction false} WrittenFirst(h: seq<Cache>, n: nat, from: nat, p: nat, b: int, d: Word, k: Word)
    requires History(h, n) && from <= p < |h|
    requires WrittenAs(h[from], b, d, k) && !WrittenAs(h[p], b, d, k)
    ensures OnceOnDisk(h, from, d, k)
    decreases p - from
  {
    StepIn(h, n, p);
    if WrittenAs(h[p - 1], b, d, k) {
      WrittenStep(h[p - 1], h[p], b, d, k);
    } else {
      WrittenFirst(h, n, from, p - 1, b, d, k);
    }
  }

  ghost predicate NoneWriting(c: Cache) { forall b | 0 <= b < |c.io| :: c.io[b] != Writing }

  /** What was settled once, with its request completed since, was on the disk once: the
      disk then held what the block read as at a moment not before `from`. */
  lemma SettledReachesDisk(h: seq<Cache>, n: nat, from: nat, d: Word, k: Word)
    requires History(h, n) && OnceSettled(h, from, d, k)
    requires NoneWriting(h[|h| - 1])
    ensures OnceOnDisk(h, from, d, k)
  {
    var p :| from <= p < |h| && Settled(h[p], d, k);
    var c := h[p];
    assert MomentOk(c, n) && MomentOk(h[|h| - 1], n);
    if b :| Buf(c, b) && Key(c, b, d, k) && c.io[b] == Writing {
      WrittenFirst(h, n, p, |h| - 1, b, d, k);
      var q :| p <= q < |h| && OnDisk(h[q], d, k);
      assert OnDisk(h[q], d, k);
    } else {
      SettledOnDisk(c, d, k);
    }
  }

  /** Since moment `from`, each of the first n buffers was once not a dirty one of the device. */
  ghost predicate Passed(s0: Sys, ops: seq<Op>, from: nat, n: int, d: Word) {
    CanRun(s0, ops) && forall b {:trigger OnceFlushed(Moments(s0, ops), from, b, d)} | 0 <= b < n :: OnceFlushed(Moments(s0, ops), from, b, d)
  }

  lemma PassGoesOn(s0: Sys, ops: seq<Op>, ops': seq<Op>, s': Sys, from: nat, n: int, d: Word)
    requires Passed(s0, ops, from, n, d) && ops <= ops' && Reached(s0, ops', s') && from <= |ops'| && Flushed(s'.c, n, d)
    ensures Passed(s0, ops', from, n + 1, d)
  {
    MomentsExtend(s0, ops, ops');
    MomentsAreHistory(s0, ops');
    forall b | 0 <= b < n + 1
      ensures OnceFlushed(Moments(s0, ops'), from, b, d)
    {
      if b < n {
        assert OnceFlushed(Moments(s0, ops), from, b, d);
        OnceFlushedLater(Moments(s0, ops), Moments(s0, ops'), from, b, d);
      } else {
        assert Flushed(Moments(s0, ops')[|ops'|], b, d);
      }
    }
  }

  /** Since moment `from`, each block of the device was once in no dirty buffer. */
  ghost predicate Synced(s0: Sys, ops: seq<Op>, from: nat, d: Word) {
    CanRun(s0, ops) && forall k {:trigger OnceSettled(Moments(s0, ops), from, d, k)} :: OnceSettled(Moments(s0, ops), from, d, k)
  }

  lemma SyncedSince(s0: Sys, ops: seq<Op>, from: nat, since: nat, d: Word)
    requires Synced(s0, ops, from, d) && since <= from
    ensures Synced(s0, ops, since, d)
  {
    forall k
      ensures OnceSettled(Moments(s0, ops), since, d, k)
    {
      assert OnceSettled(Moments(s0, ops), from, d, k);
    }
  }

  lemma PassSyncs(s0: Sys, ops: seq<Op>, s: Sys, from: nat, d: Word)
    requires Reached(s0, ops, s) && Passed(s0, ops, from, |s.c.dev|, d) && from <= |ops|
    ensures Synced(s0, ops, from, d)
  {
    MomentsAreHistory(s0, ops);
    forall k
      ensures OnceSettled(Moments(s0, ops), from, d, k)
    {
      PassSettles(Moments(s0, ops), |s.c.dev|, from, d, k);
    }
  }

  /** Once a sync is over and its requests are completed, each block of the device was on
      the disk at some moment since the call, as it read then. */
  lemma SyncedReachesDisk(s0: Sys, ops: seq<Op>, from: nat, more: seq<Op>, d: Word, k: Word)
    requires SysInv(s0) && Synced(s0, ops, from, d) && CanRun(s0, ops + more)
    requires NoneWriting(RunAll(s0, ops + more).c)
    ensures OnceOnDisk(Moments(s0, ops + more), from, d, k)
  {
    var h, h' := Moments(s0, ops), Moments(s0, ops + more);
    MomentsExtend(s0, ops, ops + more);
    MomentsAreHistory(s0, ops + more);
    assert OnceSettled(h, from, d, k);
    var p :| from <= p < |h| && Settled(h[p], d, k);
    assert Settled(h'[p], d, k);
    SettledReachesDisk(h', |s0.c.dev|, from, d, k);
  }
}
