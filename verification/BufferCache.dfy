/** fs/buffer.c as one task executes it.  Between its sleeps the task runs alone; while it
    sleeps the other tasks and the disk take any steps of CacheRuns that the code allows
    them, as `env` chooses.  The ghost history has all steps since the cache was fresh, of
    this task and of the others. */
module BufferCache {
  import opened CacheModel
  import opened CacheLists
  import opened CacheSteps
  import opened CacheRuns

  type Environment = (nat, Sys) -> seq<Op>

  /** The others only take steps that are enabled, and this task, number 0, takes none. */
  ghost predicate Lawful(env: Environment) {
    forall t, s {:trigger env(t, s)} :: SysInv(s) && s.holds != [] ==> CanRun(s, env(t, s)) && NotBy(env(t, s), 0)
  }

  /** Whatever the others can do in some state, some lawful environment does. */
  lemma EveryRunIsLawful(s: Sys, ops: seq<Op>) returns (env: Environment)
    requires CanRun(s, ops) && NotBy(ops, 0)
    ensures Lawful(env) && env(0, s) == ops
  {
    env := (t, x) => if x == s then ops else [];
  }

  /** BADNESS: dirty counts 2, locked 1. */
  function Badness(c: Cache, b: int): nat
    requires 0 <= b < |c.dirt| == |c.io|
  {
    (if c.dirt[b] then 2 else 0) + (if c.io[b] != Idle then 1 else 0)
  }

  ghost predicate Better(c: Cache, a: int, b: int)
    requires Sizes(c) && Buf(c, a) && Buf(c, b)
  {
    c.count[b] > 0 || Badness(c, a) < Badness(c, b)
  }

  /** Nobody else is about: while the task sleeps, only disk requests end. */
  ghost predicate Alone(env: Environment) {
    forall t, s {:trigger env(t, s)} :: SysInv(s) && s.holds != [] ==> DiskOnly(env(t, s))
  }

  /** Buffer b is valid and shows the block last stored at (d, k), by whichever task, since
      the cache was fresh; the block the disk had then, if none was. */
  ghost predicate Read(s0: Sys, ops: seq<Op>, c: Cache, b: int, d: Word, k: Word) {
    Sizes(c) && Buf(c, b) && Key(c, b, d, k) && c.uptodate[b] && c.data[b] == LastWritten(ops, d, k, DiskAt(s0.c, d, k))
  }

  /** Nothing of the device is dirty, no block reads otherwise than before, and once the
      requests are completed the disk has what the blocks were before. */
  ghost predicate WrittenBack(c: Cache, c': Cache, d: Word) {
    && Sizes(c) && Sizes(c') && SameArray(c, c')
    && (forall b | Buf(c', b) && c'.dev[b] == d :: !c'.dirt[b])
    && (forall k, bs {:trigger DiskAt(CompleteAll(c', bs), d, k)} | Drained(c', CompleteAll(c', bs), d) ::
          DiskAt(CompleteAll(c', bs), d, k) == Array(c, d, k))
  }

  /** No request is left for a buffer of the device. */
  ghost predicate Drained(c: Cache, c': Cache, d: Word) {
    Sizes(c) && Sizes(c') && forall b | Buf(c, b) && c.dev[b] == d && b < |c'.io| :: c'.io[b] == Idle
  }

  lemma CleanIsWrittenBack(c: Cache, c': Cache, d: Word)
    requires Inv(c') && Sizes(c) && SameArray(c, c') && forall b | Buf(c', b) && c'.dev[b] == d :: !c'.dirt[b]
    ensures WrittenBack(c, c', d)
  {
    forall k, bs | Drained(c', CompleteAll(c', bs), d)
      ensures DiskAt(CompleteAll(c', bs), d, k) == Array(c, d, k)
    {
      SyncReachesDisk(c', d, k, bs);
      assert Array(c', d, k) == Array(c, d, k);
    }
  }

  /** getblk's promise: the buffer carries the key, is unlocked, and has one more use. */
  ghost predicate Got(c: Cache, b: int, d: Word, k: Word, h: seq<nat>, h': seq<nat>) {
    Sizes(c) && Buf(c, b) && Key(c, b, d, k) && c.io[b] == Idle && |h| == |c.dev| && h' == h[b := h[b] + 1]
  }

  /** Buffer b can be had for block (d, k) without sleeping: it is the block's and unlocked, or
      no buffer is the block's and this one is unused, unlocked and clean. */
  ghost predicate AtOnce(c: Cache, d: Word, k: Word, b: int) {
    Sizes(c) && Buf(c, b) && if d == 0 || Absent(c, d, k) then Free(c, b) else Key(c, b, d, k) && c.io[b] == Idle
  }

  /** It was had so: held once more and otherwise as before, or given to the block. */
  ghost predicate HadAtOnce(c: Cache, c': Cache, d: Word, k: Word, b: int) {
    AtOnce(c, d, k, b) && |c.count| == |c.dev| && if d == 0 || Absent(c, d, k) then Recycled(c, c', b, d, k) else c' == Counted(c, b)
  }

  lemma FoundAtOnce(c: Cache, d: Word, k: Word, b: int)
    requires Inv(c) && d != 0 && Buf(c, b) && Key(c, b, d, k)
    ensures (exists x :: AtOnce(c, d, k, x)) <==> c.io[b] == Idle
    ensures c.io[b] == Idle ==> HadAtOnce(c, Counted(c, b), d, k, b)
  {
    assert !Absent(c, d, k);
    if x :| AtOnce(c, d, k, x) { TheOne(c, d, k, b, x); }
    assert c.io[b] == Idle ==> AtOnce(c, d, k, b);
  }

  lemma ValidAreAtOnce(c: Cache, d: Word, k: Word)
    requires Inv(c)
    ensures forall x | ValidAtOnce(c, d, k, x) :: AtOnce(c, d, k, x)
    ensures forall x, b, c' | ValidAtOnce(c, d, k, x) && HadAtOnce(c, c', d, k, b) :: b == x && c' == Counted(c, x)
  {
    forall x | ValidAtOnce(c, d, k, x)
      ensures AtOnce(c, d, k, x)
      ensures forall b, c' | HadAtOnce(c, c', d, k, b) :: b == x && c' == Counted(c, x)
    {
      assert !Absent(c, d, k);
      forall b, c' | HadAtOnce(c, c', d, k, b)
        ensures b == x && c' == Counted(c, x)
      {
        TheOne(c, d, k, x, b);
      }
    }
  }

  /** The block's buffer is valid and unlocked. */
  ghost predicate ValidAtOnce(c: Cache, d: Word, k: Word, b: int) {
    d != 0 && Sizes(c) && Buf(c, b) && Key(c, b, d, k) && c.io[b] == Idle && c.uptodate[b]
  }

  lemma TheOne(c: Cache, d: Word, k: Word, b: int, x: int)
    requires Inv(c) && d != 0 && Buf(c, b) && Key(c, b, d, k) && AtOnce(c, d, k, x)
    ensures x == b
  {
    assert !Absent(c, d, k);
    assert SameKey(c.dev, c.block, b, x);
  }

  /** If the block's buffer was valid and unlocked, it was had without sleeping, and nothing else
      happened. */
  ghost predicate FoundValid(c: Cache, c': Cache, d: Word, k: Word, atOnce: bool, b: int) {
    forall x {:trigger ValidAtOnce(c, d, k, x)} | ValidAtOnce(c, d, k, x) :: atOnce && b == x && x < |c.count| && c' == Counted(c, x)
  }

  lemma GotValid(c: Cache, c': Cache, d: Word, k: Word, atOnce: bool, b: int)
    requires Inv(c) && (atOnce <==> exists x :: AtOnce(c, d, k, x)) && (atOnce ==> HadAtOnce(c, c', d, k, b))
    ensures FoundValid(c, c', d, k, atOnce, b)
  {
    ValidAreAtOnce(c, d, k);
  }

  lemma StillFound(c: Cache, c1: Cache, c2: Cache, d: Word, k: Word, atOnce: bool, b: int, atOnce': bool, b': int)
    requires FoundValid(c, c1, d, k, atOnce, b)
    requires atOnce && 0 <= b < |c1.uptodate| && c1.uptodate[b] ==> atOnce' && b' == b && c2 == c1
    ensures FoundValid(c, c2, d, k, atOnce', b')
  {
  }

  /** The first n buffers of the device are clean. */
  ghost predicate CleanBelow(c: Cache, d: Word, n: int)
    requires |c.dev| == |c.dirt| && 0 <= n <= |c.dev|
  {
    forall b | 0 <= b < n && c.dev[b] == d :: !c.dirt[b]
  }

  lemma CleanOneMore(c: Cache, c': Cache, held: seq<nat>, env: Environment, d: Word, i: int)
    requires Sizes(c) && Sizes(c') && 0 <= i < |c.dev| && Later(c, c', held, env) && Flushed(c', i, d)
    ensures Alone(env) && CleanBelow(c, d, i) ==> CleanBelow(c', d, i + 1)
  {
  }

  /** A buffer that is held keeps its key while the task sleeps. */
  lemma GotAfterWait(c: Cache, c': Cache, h: seq<nat>, h': seq<nat>, b: int, d: Word, k: Word, env: Environment)
    requires Sizes(c) && Sizes(c') && Buf(c, b) && Key(c, b, d, k) && |h| == |c.dev| && h' == h[b := h[b] + 1] && Later(c, c', h', env)
    ensures Key(c', b, d, k) && |c'.dev| == |c.dev| && (c'.io[b] == Idle ==> Got(c', b, d, k, h, h'))
  {
  }

  lemma GotHeld(c: Cache, b: int, d: Word, k: Word, h: seq<nat>, h': seq<nat>)
    requires Got(c, b, d, k, h, h')
    ensures Buf(c, b) && |c.block| == |c.dev| && Key(c, b, d, k) && |h| == |h'| == |c.dev| && h'[b] > 0
    ensures h' == h[b := h[b] + 1]
  {
  }

  lemma PrefixTransitive(a: seq<Op>, b: seq<Op>, c: seq<Op>)
    requires a <= b <= c
    ensures a <= c
  {
  }

  /** Since the history was a, only others did anything. */
  ghost predicate OnlyOthers(a: seq<Op>, b: seq<Op>) { a <= b && NotBy(b[|a|..], 0) }

  lemma OnlyOthersMore(a: seq<Op>, b: seq<Op>, c: seq<Op>)
    requires OnlyOthers(a, b) && OnlyOthers(b, c)
    ensures OnlyOthers(a, c)
  {
    forall i | 0 <= i < |c[|a|..]|
      ensures !By(c[|a|..][i], 0)
    {
      if i < |b| - |a| { assert c[|a|..][i] == b[|a|..][i]; } else { assert c[|a|..][i] == c[|b|..][i - (|b| - |a|)]; }
    }
  }

  lemma TakenBack(h: seq<nat>, h1: seq<nat>, h2: seq<nat>, x: int)
    requires 0 <= x < |h| && h1 == h[x := h[x] + 1]
    ensures h2 == h1[x := h1[x] - 1] ==> h2 == h
  {
  }

  /** The others' steps of one of the sleeps from number t0 on end at the given place of the
      history. */
  ghost predicate SleptUntil(s0: Sys, ops: seq<Op>, env: Environment, mid: nat, t0: nat, t1: nat) {
    exists n: nat, t: nat :: n <= mid <= |ops| && t0 <= t < t1 && SleepAt(s0, ops, env, n, mid, t)
  }

  ghost predicate SleepAt(s0: Sys, ops: seq<Op>, env: Environment, n: nat, mid: nat, t: nat) {
    n <= mid <= |ops| && CanRun(s0, ops[..n]) && ops[n..mid] == env(t, RunAll(s0, ops[..n]))
  }

  /** A first pass was over before a sleep, and a second one began after it. */
  ghost predicate TwoPasses(s0: Sys, ops: seq<Op>, env: Environment, from: nat, first: nat, mid: nat, t0: nat, t1: nat, d: Word) {
    && from <= first <= mid <= |ops| && Synced(s0, ops[..first], from, d)
    && SleptUntil(s0, ops, env, mid, t0, t1) && Synced(s0, ops, mid, d)
  }

  lemma SleepStays(s0: Sys, before: seq<Op>, now: seq<Op>, later: seq<Op>, env: Environment, t0: nat, t1: nat)
    requires before <= now <= later && CanRun(s0, before) && exists t: nat | t0 <= t < t1 :: now[|before|..] == env(t, RunAll(s0, before))
    ensures SleptUntil(s0, later, env, |now|, t0, t1)
  {
    var t: nat :| t0 <= t < t1 && now[|before|..] == env(t, RunAll(s0, before));
    assert later[..|before|] == before && later[|before|..|now|] == now[|before|..];
    assert SleepAt(s0, later, env, |before|, |now|, t);
  }

  /** What a task that slept, or let others in, still knows. */
  ghost predicate Later(c: Cache, c': Cache, held: seq<nat>, env: Environment) {
    && |c'.dev| == |c.dev| == |held| == |c.block| == |c'.block|
    && (forall b | 0 <= b < |held| && held[b] > 0 :: c'.dev[b] == c.dev[b] && c'.block[b] == c.block[b])
    && (Alone(env) ==> Unshaken(c, c'))
  }

  ghost predicate Unshaken(c: Cache, c': Cache) {
    SameKeys(c, c') && NoNewDirt(c, c') && Sizes(c) && Sizes(c') && SameArray(c, c')
  }

  lemma LaterTransitive(c: Cache, c1: Cache, c2: Cache, held: seq<nat>, env: Environment)
    requires Later(c, c1, held, env) && Later(c1, c2, held, env)
    ensures Later(c, c2, held, env)
  {
    if Alone(env) { SameArrayTransitive(c, c1, c2); }
  }

  lemma LaterAtOnce(c: Cache, held: seq<nat>, env: Environment)
    requires Sizes(c) && |held| == |c.dev|
    ensures Later(c, c, held, env)
  {
  }

  lemma SleptLater(s: Sys, held: seq<nat>, env: Environment, t: nat)
    requires Lawful(env) && SysInv(s) && s.holds != [] && s.holds[0] == held
    ensures CanRun(s, env(t, s)) && Later(s.c, RunAll(s, env(t, s)).c, held, env)
    ensures SysInv(RunAll(s, env(t, s))) && RunAll(s, env(t, s)).holds != [] && RunAll(s, env(t, s)).holds[0] == held
  {
    var ops := env(t, s);
    OthersRespect(s, ops, 0);
    if Alone(env) { DiskOnlyRun(s, ops); }
    var c' := RunAll(s, ops).c;
    forall b | 0 <= b < |held| && held[b] > 0
      ensures c'.dev[b] == s.c.dev[b] && c'.block[b] == s.c.block[b]
    {
      assert Key(c', b, s.c.dev[b], s.c.block[b]);
    }
  }

  lemma FrontAdjusted(held: seq<nat>, rest: seq<seq<nat>>, b: int, n: nat)
    requires 0 <= b < |held|
    ensures Adjusted([held] + rest, 0, b, n) == [held[b := n]] + rest
  {
  }

  lemma RecycleNext(c: Cache, held: seq<nat>, rest: seq<seq<nat>>, b: int, d: Word, k: Word)
    requires Shaped(Sys(c, [held] + rest)) && Buf(c, b) && |held| == |c.dev| && Free(c, b) && (d == 0 || Absent(c, d, k))
    requires LinksFit(c, b) && HeadsFit(Rekeyed(Removed(c, b), b, d, k), b)
    ensures var s, op := Sys(c, [held] + rest), CacheRuns.Recycle(0, b, d, k);
      Enabled(s, op) && Next(s, op) == Sys(Requeued(c, b, d, k), [held[b := held[b] + 1]] + rest)
  {
    FrontAdjusted(held, rest, b, held[b] + 1);
  }

  lemma RequeuedFits(c: Cache, b: int, d: Word, k: Word)
    requires Inv(c) && Buf(c, b)
    ensures LinksFit(c, b) && HeadsFit(Rekeyed(Removed(c, b), b, d, k), b) && Recycled(c, Requeued(c, b, d, k), b, d, k)
  {
    var g := RequeuedOk(c, b, d, k);
  }

  lemma HoldNext(c: Cache, held: seq<nat>, rest: seq<seq<nat>>, b: int)
    requires Shaped(Sys(c, [held] + rest)) && Buf(c, b)
    ensures var s, op := Sys(c, [held] + rest), CacheRuns.Hold(0, b, c.dev[b], c.block[b]);
      |held| == |c.dev| && Enabled(s, op) && Next(s, op) == Sys(Counted(c, b), [held[b := held[b] + 1]] + rest)
  {
    assert ([held] + rest)[0] == held;
    FrontAdjusted(held, rest, b, held[b] + 1);
  }

  lemma DropNext(c: Cache, held: seq<nat>, rest: seq<seq<nat>>, b: int)
    requires Shaped(Sys(c, [held] + rest)) && Buf(c, b) && |held| == |c.dev| && held[b] > 0 && c.count[b] > 0
    ensures var s, op := Sys(c, [held] + rest), CacheRuns.Drop(0, b);
      Enabled(s, op) && Next(s, op) == Sys(Uncounted(c, b), [held[b := held[b] - 1]] + rest)
  {
    assert ([held] + rest)[0] == held;
    FrontAdjusted(held, rest, b, held[b] - 1);
  }

  /** Position i of the ring holds an unused buffer, and no earlier one is as good. */
  ghost predicate LeastRecent(c: Cache, ring: seq<int>, i: int)
    requires Sizes(c) && Within(ring, |c.dev|) && 0 <= i < |ring|
  {
    c.count[ring[i]] == 0 && forall j | 0 <= j < i :: Better(c, ring[i], ring[j])
  }

  class Task {
    var dev: seq<Word>
    var block: seq<Word>
    var count: seq<nat>
    var dirt: seq<bool>
    var uptodate: seq<bool>
    var io: seq<Io>
    var data: seq<Block>
    var next: seq<int>
    var prev: seq<int>
    var nextFree: seq<int>
    var prevFree: seq<int>
    var hash: seq<int>
    var freeList: int
    var disk: map<(Word, Word), Block>

    var held: seq<nat>        // this task's own uses of each buffer
    var rest: seq<seq<nat>>   // the uses of the other tasks
    var slept: nat            // how often this task has slept
    const env: Environment
    ghost const s0: Sys
    ghost var ops: seq<Op>

    function Snap(): Cache
      reads this
    {
      Cache(dev, block, count, dirt, uptodate, io, data, next, prev, nextFree, prevFree, hash, freeList, disk)
    }

    function System(): Sys
      reads this
    {
      Sys(Snap(), [held] + rest)
    }

    ghost predicate Valid()
      reads this
    {
      Lawful(env) && Reached(s0, ops, System()) && |held| == |dev|
    }

    /** The history so far was only extended. */
    ghost predicate Extends(before: seq<Op>)
      reads this
    {
      before <= ops
    }

    /** buffer_init: n clean buffers without a device, all in the ring in order. */
    constructor (n: nat, others: nat, env: Environment, disk: map<(Word, Word), Block>)
      requires n > 0 && Lawful(env)
      ensures Valid() && this.env == env && this.disk == disk && |dev| == n && ops == [] && |rest| == others
      ensures s0 == System() && forall d, k :: Array(Snap(), d, k) == DiskAt(Snap(), d, k)
      ensures forall b | 0 <= b < n :: dev[b] == 0 && count[b] == 0 && held[b] == 0
    {
      this.env := env;
      this.disk := disk;
      dev := seq(n, _ => 0);
      block := seq(n, _ => 0);
      count := seq(n, _ => 0);
      dirt := seq(n, _ => false);
      uptodate := seq(n, _ => false);
      io := seq(n, _ => Idle);
      data := seq(n, _ => []);
      next := seq(n, _ => NIL);
      prev := seq(n, _ => NIL);
      nextFree := seq(n, (i: nat) => if i + 1 == n then 0 else i + 1);
      prevFree := seq(n, (i: nat) => if i == 0 then n - 1 else i - 1);
      hash := seq(NR_HASH, _ => NIL);
      freeList := 0;
      held := seq(n, _ => 0);
      rest := seq(others, _ => seq(n, _ => 0));
      slept := 0;
      ops := [];
      s0 := Sys(Cache(seq(n, _ => 0), seq(n, _ => 0), seq(n, _ => 0), seq(n, _ => false), seq(n, _ => false), seq(n, _ => Idle),
                      seq(n, _ => []), seq(n, _ => NIL), seq(n, _ => NIL),
                      seq(n, (i: nat) => if i + 1 == n then 0 else i + 1), seq(n, (i: nat) => if i == 0 then n - 1 else i - 1),
                      seq(NR_HASH, _ => NIL), 0, disk),
                [seq(n, _ => 0)] + seq(others, _ => seq(n, _ => 0)));
      new;
      assert Snap() == s0.c && held == s0.holds[0] && rest == s0.holds[1..];
      FreshCache(Snap(), n);
      FreshSystem(System());
      assert s0 == System();
    }

    // ---- sleeping ---------------------------------------------------------------------------

    method Sleep()
      requires Valid()
      modifies this
      ensures Valid() && Extends(old(ops)) && held == old(held)
      ensures Later(old(Snap()), Snap(), held, env) && slept == old(slept) + 1
      ensures OnlyOthers(old(ops), ops)
      ensures ops == old(ops) + env(old(slept), old(System())) && NotBy(env(old(slept), old(System())), 0)
    {
      ghost var s, more := System(), env(slept, System());
      SleptLater(s, held, env, slept);
      ReachedMore(s0, ops, s, more);
      Become(RunAll(System(), env(slept, System())));
      slept := slept + 1;
      ops := ops + more;
    }

    method Become(s: Sys)
      requires s.holds != [] && s.holds[0] == held
      modifies this`dev, this`block, this`count, this`dirt, this`uptodate, this`io, this`data, this`next, this`prev,
        this`nextFree, this`prevFree, this`hash, this`freeList, this`disk, this`rest
      ensures System() == s
    {
      rest := s.holds[1..];
      Refill(s.c);
      Relink(s.c);
      assert [held] + rest == s.holds;
      assert Snap() == s.c;
    }

    method Refill(c: Cache)
      modifies this`dev, this`block, this`count, this`dirt, this`uptodate, this`io, this`data
      ensures dev == c.dev && block == c.block && count == c.count && dirt == c.dirt
      ensures uptodate == c.uptodate && io == c.io && data == c.data
    {
      dev, block, count, dirt, uptodate, io, data := c.dev, c.block, c.count, c.dirt, c.uptodate, c.io, c.data;
    }

    method Relink(c: Cache)
      modifies this`next, this`prev, this`nextFree, this`prevFree, this`hash, this`freeList, this`disk
      ensures next == c.next && prev == c.prev && nextFree == c.nextFree && prevFree == c.prevFree
      ensures hash == c.hash && freeList == c.freeList && disk == c.disk
    {
      next, prev, nextFree, prevFree := c.next, c.prev, c.nextFree, c.prevFree;
      hash, freeList, disk := c.hash, c.freeList, c.disk;
    }

    /** Enter an own step into the history. */
    ghost method Record(s: Sys, op: Op)
      requires Lawful(env) && Reached(s0, ops, s) && Enabled(s, op) && System() == Next(s, op) && |held| == |dev|
      modifies this`ops
      ensures Valid() && ops == old(ops) + [op]
    {
      ReachedNext(s0, ops, s, op);
      ops := ops + [op];
    }

    /** Sleep until the buffer is unlocked; false if the fuel runs out first. */
    method WaitOnBuffer(b: int, fuel: nat) returns (ok: bool, left: nat)
      requires Valid() && Buf(Snap(), b)
      modifies this
      ensures slept + left == old(slept) + fuel && (!ok ==> left == 0)
      ensures Valid() && Extends(old(ops)) && held == old(held) && left <= fuel
      ensures Later(old(Snap()), Snap(), held, env)
      ensures ok ==> io[b] == Idle
      ensures left == fuel ==> Snap() == old(Snap())
      ensures old(io[b]) == Idle ==> ok && left == fuel && ops == old(ops)
      ensures OnlyOthers(old(ops), ops)
    {
      left := fuel;
      LaterAtOnce(Snap(), held, env);
      while io[b] != Idle
        invariant slept + left == old(slept) + fuel && OnlyOthers(old(ops), ops)
        invariant left < fuel ==> old(io[b]) != Idle
        invariant Valid() && Extends(old(ops)) && held == old(held) && left <= fuel
        invariant Later(old(Snap()), Snap(), held, env)
        invariant left == fuel ==> Snap() == old(Snap()) && ops == old(ops)
        decreases left
      {
        if left == 0 {
          return false, left;
        }
        ghost var c, before := Snap(), ops;
        Sleep();
        OnlyOthersMore(old(ops), before, ops);
        LaterTransitive(old(Snap()), c, Snap(), held, env);
        left := left - 1;
      }
      return true, left;
    }

    // ---- the lists ------------------------------------------------------------------------------

    /** Take a buffer off its hash chain and off the ring; panic is "Free block list corrupted". */
    method RemoveFromQueues(b: int) returns (panic: bool)
      requires Inv(Snap()) && Buf(Snap(), b)
      modifies this`next, this`prev, this`nextFree, this`prevFree, this`hash, this`freeList
      ensures 0 <= old(nextFree[b]) < |dev| && 0 <= old(prevFree[b]) < |dev|
      ensures !panic && Snap() == Removed(old(Snap()), b)
      ensures exists g :: Detached(Snap(), g, b)
    {
      ghost var g :| ListsOk(Snap(), g);
      ghost var g' := RemovedOk(Snap(), g, b);
      LinksInRange(Snap(), g, b);
      panic := Unlink(b);
    }

    // buffer.c:245-265
    method Unlink(b: int) returns (panic: bool)
      requires Sizes(Snap()) && Buf(Snap(), b)
      requires (next[b] == NIL || 0 <= next[b] < |dev|) && (prev[b] == NIL || 0 <= prev[b] < |dev|)
      requires 0 <= nextFree[b] < |dev| && 0 <= prevFree[b] < |dev|
      modifies this`next, this`prev, this`nextFree, this`prevFree, this`hash, this`freeList
      ensures !panic && Snap() == Removed(old(Snap()), b)
    {
      ghost var c := Snap();
      UnlinkChain(b);
      panic := UnlinkRing(b);
    }

    // buffer.c:247-255
    method UnlinkChain(b: int)
      requires |dev| == |block| == |next| == |prev| && 0 <= b < |dev| && |hash| == NR_HASH
      requires (next[b] == NIL || 0 <= next[b] < |dev|) && (prev[b] == NIL || 0 <= prev[b] < |dev|)
      modifies this`next, this`prev, this`hash
      ensures Snap() == Unchained(old(Snap()), b)
    {
      var k := HashFn(dev[b], block[b]);
      if next[b] != NIL {
        prev := prev[next[b] := prev[b]];
      }
      if prev[b] != NIL {
        next := next[prev[b] := next[b]];
      }
      if hash[k] == b {
        hash := hash[k := next[b]];
      }
    }

    // buffer.c:257-264
    method UnlinkRing(b: int) returns (panic: bool)
      requires |nextFree| == |prevFree| && 0 <= b < |nextFree| && 0 <= nextFree[b] < |nextFree| && 0 <= prevFree[b] < |nextFree|
      modifies this`nextFree, this`prevFree, this`freeList
      ensures !panic && nextFree == old(nextFree)[old(prevFree)[b] := old(nextFree)[b]]
      ensures prevFree == old(prevFree)[old(nextFree)[b] := old(prevFree)[b]]
      ensures freeList == if old(freeList) == b then old(nextFree)[b] else old(freeList)
    {
      if prevFree[b] == NIL || nextFree[b] == NIL {
        return true;
      }
      nextFree := nextFree[prevFree[b] := nextFree[b]];
      prevFree := prevFree[nextFree[b] := prevFree[b]];
      if freeList == b {
        freeList := nextFree[b];
      }
      return false;
    }

    /** Put a buffer at the end of the ring and, if it has a device, in front of its chain. */
    method InsertIntoQueues(b: int, ghost g: Lists)
      requires Detached(Snap(), g, b)
      modifies this`next, this`prev, this`nextFree, this`prevFree, this`hash
      ensures HeadsFit(old(Snap()), b) && Snap() == Inserted(old(Snap()), b)
      ensures exists g' :: Sizes(Snap()) && ListsOk(Snap(), g') && g'.ring == g.ring + [b]
      ensures dev[b] == 0 ==> hash == old(hash) && next[b] == NIL
    {
      ghost var c := Snap();
      ghost var g' := InsertedOk(c, g, b);
      InsertIntoRing(b);
      InsertIntoChain(b);
      assert Snap() == Inserted(c, b);
    }

    // buffer.c:280-283
    method InsertIntoRing(b: int)
      requires |nextFree| == |prevFree| && 0 <= b < |nextFree| && 0 <= freeList < |nextFree| && 0 <= prevFree[freeList] < |nextFree|
      modifies this`nextFree, this`prevFree
      ensures var tail := old(prevFree)[freeList];
        nextFree == old(nextFree)[b := freeList][tail := b] && prevFree == old(prevFree)[b := tail][freeList := b]
    {
      var tail := prevFree[freeList];
      nextFree := nextFree[b := freeList];
      prevFree := prevFree[b := tail];
      nextFree := nextFree[tail := b];
      prevFree := prevFree[freeList := b];
    }

    // buffer.c:286-297
    method InsertIntoChain(b: int)
      requires |dev| == |block| == |next| == |prev| && 0 <= b < |dev| && |hash| == NR_HASH
      requires forall k | 0 <= k < NR_HASH :: hash[k] == NIL || 0 <= hash[k] < |dev|
      modifies this`next, this`prev, this`hash
      ensures var k, h := HashFn(dev[b], block[b]), old(hash);
        if dev[b] == 0 then next == old(next)[b := NIL] && prev == old(prev)[b := NIL] && hash == h
        else (next == old(next)[b := h[k]] && hash == h[k := b]
              && prev == if h[k] == NIL then old(prev)[b := NIL] else old(prev)[b := NIL][h[k] := b])
    {
      prev := prev[b := NIL];
      next := next[b := NIL];
      if dev[b] == 0 {
        return;
      }
      next := next[b := hash[HashFn(dev[b], block[b])]];
      hash := hash[HashFn(dev[b], block[b]) := b];
      if next[b] != NIL {
        prev := prev[next[b] := b];
      }
    }

    /** Walk the hash chain of (d, k). */
    method FindBuffer(d: Word, k: Word) returns (b: int)
      requires Inv(Snap())
      ensures b != NIL ==> d != 0 && Buf(Snap(), b) && Key(Snap(), b, d, k)
      ensures b == NIL ==> d == 0 || Absent(Snap(), d, k)
    {
      ghost var c := Snap();
      ghost var g :| ListsOk(c, g);
      ghost var chain := g.chains[HashFn(d, k)];
      assert ChainOk(c, HashFn(d, k), chain);
      ghost var i := 0;
      b := hash[HashFn(d, k)];
      while b != NIL
        invariant 0 <= i <= |chain|
        invariant b == if i == |chain| then NIL else chain[i]
        invariant forall j | 0 <= j < i :: !Key(c, chain[j], d, k)
        decreases |chain| - i
      {
        assert 0 <= chain[i] < |dev| && chain[i] in chain;
        if dev[b] == d && block[b] == k {
          return;
        }
        assert next[b] == After(chain, i);
        b := next[b];
        i := i + 1;
      }
      forall x | Buf(c, x)
        ensures d != 0 ==> !Key(c, x, d, k)
      {
        assert x in chain ==> exists j :: 0 <= j < |chain| && chain[j] == x;
      }
    }
  
    // ---- uses ---------------------------------------------------------------------------------

    method Hold(b: int)
      requires Valid() && Buf(Snap(), b)
      modifies this`count, this`held, this`ops
      ensures Valid() && Extends(old(ops)) && Snap() == Counted(old(Snap()), b) && held == old(held)[b := old(held)[b] + 1]
    {
      ghost var s := System();
      HoldNext(Snap(), held, rest, b);
      count := count[b := count[b] + 1];
      held := held[b := held[b] + 1];
      Record(s, CacheRuns.Hold(0, b, dev[b], block[b]));
    }

    /** b_count--; panic is "Trying to free free buffer". */
    method Drop(b: int) returns (panic: bool)
      requires Valid() && Buf(Snap(), b) && held[b] > 0
      modifies this`count, this`held, this`ops
      ensures !panic && Valid() && Extends(old(ops)) && held == old(held)[b := old(held)[b] - 1]
      ensures old(count[b]) > 0 && Snap() == Uncounted(old(Snap()), b)
    {
      ghost var s := System();
      HoldsOf(s, 0);
      DropNext(Snap(), held, rest, b);
      panic := count[b] == 0;
      count := count[b := count[b] - 1];
      held := held[b := held[b] - 1];
      Record(s, CacheRuns.Drop(0, b));
    }

    /** The user of a buffer it holds stores into it and marks it dirty. */
    method Store(b: int, x: Block)
      requires Valid() && Buf(Snap(), b) && held[b] > 0 && Writable(Snap(), b)
      modifies this`data, this`dirt, this`uptodate, this`ops
      ensures Valid() && Snap() == Wrote(old(Snap()), b, x) && ops == old(ops) + [Write(0, b, x)]
      ensures Read(s0, ops, Snap(), b, dev[b], block[b]) && data[b] == x
    {
      ghost var s := System();
      data := data[b := x];
      dirt := dirt[b := true];
      uptodate := uptodate[b := true];
      Record(s, Write(0, b, x));
      ValidIsLastWritten(s0, ops, System(), b);
    }

    /** Find a cached block and hold it, unlocked.  The code checks the key again after it
        slept; because the buffer is held, the check never fails (retry). */
    method GetHashTable(d: Word, k: Word, fuel: nat) returns (ok: bool, b: int, retry: bool, left: nat)
      requires Valid()
      modifies this
      ensures slept + left == old(slept) + fuel && (!ok ==> left == 0)
      ensures Valid() && Extends(old(ops)) && left <= fuel && !retry && |dev| == old(|dev|)
      ensures b == NIL ==> ok && left == fuel && Snap() == old(Snap()) && ops == old(ops)
      ensures b != NIL ==> d != 0 && Buf(old(Snap()), b) && Key(old(Snap()), b, d, k)
      ensures b != NIL && old(io)[b] == Idle ==> ok && left == fuel && Snap() == Counted(old(Snap()), b)
      ensures b != NIL && ok && left == fuel ==> old(io)[b] == Idle
      ensures ok && b != NIL ==> Got(Snap(), b, d, k, old(held), held)
      ensures ok && b == NIL ==> (d == 0 || Absent(Snap(), d, k)) && held == old(held)
    {
      b := FindBuffer(d, k);
      if b == NIL {
        return true, NIL, false, fuel;
      }
      ghost var h := held;
      Hold(b);
      ghost var c := Snap();
      ok, left := WaitOnBuffer(b, fuel);
      GotAfterWait(c, Snap(), h, held, b, d, k, env);
      retry := !(dev[b] == d && block[b] == k);
    }

    /** The first buffer in ring order that is unused and of the least badness. */
    method PickUnused() returns (b: int)
      requires Inv(Snap())
      ensures b == NIL <==> forall x | Buf(Snap(), x) :: count[x] > 0
      ensures b != NIL ==> Buf(Snap(), b) && count[b] == 0
      ensures b != NIL ==> forall x | Buf(Snap(), x) && count[x] == 0 :: Badness(Snap(), b) <= Badness(Snap(), x)
      ensures b != NIL ==> forall x | Buf(Snap(), x) && count[x] == 0 ::
        (dirt[b] ==> dirt[x]) && (dirt[b] == dirt[x] && io[b] != Idle ==> io[x] != Idle)
      ensures b != NIL ==> exists g, i :: ListsOk(Snap(), g) && 0 <= i < |g.ring| && g.ring[i] == b && LeastRecent(Snap(), g.ring, i)
    {
      ghost var c := Snap();
      ghost var g :| ListsOk(c, g);
      ghost var ring := g.ring;
      ghost var i, best := 0, -1;
      var tmp := freeList;
      b := NIL;
      var more := true;
      while more
        invariant 0 <= i <= |ring| && (more <==> i < |ring|)
        invariant more ==> tmp == ring[i]
        invariant b == NIL <==> best == -1
        invariant best == -1 ==> forall j | 0 <= j < i :: count[ring[j]] > 0
        invariant best != -1 ==> 0 <= best < i && b == ring[best] && count[b] == 0 && LeastRecent(c, ring, best)
        invariant best != -1 ==> forall j | 0 <= j < i :: !Better(c, ring[j], b) || count[ring[j]] > 0
        decreases |ring| - i
      {
        assert Buf(c, tmp);
        if count[tmp] == 0 {
          if b == NIL || Badness(Snap(), tmp) < Badness(Snap(), b) {
            b := tmp;
            best := i;
            if Badness(Snap(), tmp) == 0 {
              break;
            }
          }
        }
        assert nextFree[tmp] == ring[Succ(|ring|, i)];
        tmp := nextFree[tmp];
        i := i + 1;
        more := tmp != freeList;
      }
    }
  
    // ---- the disk --------------------------------------------------------------------------------

    /** ll_rw_block: lock the buffer and queue the request, unless it is not needed. */
    method LlRwBlock(write: bool, b: int, fuel: nat) returns (ok: bool, left: nat)
      requires Valid() && Buf(Snap(), b)
      modifies this
      ensures slept + left == old(slept) + fuel && (!ok ==> left == 0)
      ensures Valid() && Extends(old(ops)) && held == old(held) && left <= fuel
      ensures Later(old(Snap()), Snap(), held, env)
      ensures ok && write ==> !dirt[b]
      ensures ok && !write ==> uptodate[b] || io[b] == Reading
    {
      ok, left := WaitOnBuffer(b, fuel);
      if !ok || (write && !dirt[b]) || (!write && uptodate[b]) {
        return;
      }
      ghost var c := Snap();
      Submit(b, if write then Writing else Reading);
      LaterTransitive(old(Snap()), c, Snap(), held, env);
    }

    method Submit(b: int, request: Io)
      requires Valid() && Buf(Snap(), b) && io[b] == Idle
      requires (request == Reading && !uptodate[b]) || (request == Writing && dirt[b])
      modifies this`io, this`dirt, this`ops
      ensures Valid() && Extends(old(ops)) && Snap() == Submitted(old(Snap()), b, request)
      ensures Later(old(Snap()), Snap(), held, env)
    {
      ghost var s := System();
      SubmittedQuiet(Snap(), count, b, request);
      io := io[b := request];
      dirt := dirt[b := false];
      Record(s, CacheRuns.Submit(0, b, request));
    }

    /** One pass over all buffers: queue a write for each dirty one of the device. */
    method WriteDirty(d: Word, fuel: nat) returns (ok: bool, left: nat)
      requires Valid()
      modifies this
      ensures slept + left == old(slept) + fuel && (!ok ==> left == 0)
      ensures Valid() && Extends(old(ops)) && held == old(held) && left <= fuel
      ensures Later(old(Snap()), Snap(), held, env)
      ensures ok ==> Synced(s0, ops, |old(ops)|, d)
      ensures ok && Alone(env) ==> forall b | Buf(Snap(), b) && dev[b] == d :: !dirt[b]
    {
      left := fuel;
      ok := true;
      var i := 0;
      LaterAtOnce(Snap(), held, env);
      while i < |dev|
        invariant slept + left == old(slept) + fuel
        invariant 0 <= i <= |dev| && Valid() && Extends(old(ops)) && held == old(held) && left <= fuel
        invariant ok && Later(old(Snap()), Snap(), held, env)
        invariant Passed(s0, ops, |old(ops)|, i, d)
        invariant Alone(env) ==> CleanBelow(Snap(), d, i)
        decreases |dev| - i
      {
        ghost var c, before := Snap(), ops;
        ok, left := WriteOne(d, i, left);
        LaterTransitive(old(Snap()), c, Snap(), held, env);
        if !ok {
          return;
        }
        CleanOneMore(c, Snap(), held, env, d, i);
        PassGoesOn(s0, before, ops, System(), |old(ops)|, i, d);
        i := i + 1;
      }
      PassSyncs(s0, ops, System(), |old(ops)|, d);
    }

    // buffer.c:129-135
    method WriteOne(d: Word, i: int, fuel: nat) returns (ok: bool, left: nat)
      requires Valid() && Buf(Snap(), i)
      modifies this
      ensures slept + left == old(slept) + fuel && (!ok ==> left == 0)
      ensures Valid() && Extends(old(ops)) && held == old(held) && left <= fuel
      ensures Later(old(Snap()), Snap(), held, env)
      ensures ok ==> Flushed(Snap(), i, d)
    {
      LaterAtOnce(Snap(), held, env);
      if dev[i] != d {
        return true, fuel;
      }
      ok, left := WaitOnBuffer(i, fuel);
      if !ok {
        return;
      }
      if dev[i] == d && dirt[i] {
        ghost var c := Snap();
        ok, left := LlRwBlock(true, i, left);
        LaterTransitive(old(Snap()), c, Snap(), held, env);
      }
    }

    /** sync_dev: two passes with sync_inodes, here other activity, between them.  Each block
        of the device was clean at some moment since the call; if nobody else is about, all
        are clean at the end and the disk gets what the blocks were before. */
    method SyncDev(d: Word, fuel: nat) returns (ok: bool, left: nat, ghost first: nat, ghost mid: nat)
      requires Valid()
      modifies this
      ensures slept + left == old(slept) + fuel && (!ok ==> left == 0)
      ensures Valid() && Extends(old(ops)) && held == old(held) && left <= fuel && |dev| == old(|dev|)
      ensures ok ==> left < fuel && Synced(s0, ops, |old(ops)|, d)
      ensures ok ==> TwoPasses(s0, ops, env, |old(ops)|, first, mid, old(slept), slept, d)
      ensures ok && Alone(env) ==> WrittenBack(old(Snap()), Snap(), d)
    {
      first, mid := |ops|, |ops|;
      ok, left := WriteDirty(d, fuel);
      if !ok || left == 0 {
        return false, left, first, mid;
      }
      ghost var c1, before := Snap(), ops;
      first := |before|;
      ok, left, mid := SecondPass(d, left, old(slept));
      LaterTransitive(old(Snap()), c1, Snap(), held, env);
      if ok {
        SyncedSince(s0, ops, mid, |old(ops)|, d);
        assert ops[..first] == before;
        if Alone(env) { CleanIsWrittenBack(old(Snap()), Snap(), d); }
      }
    }

    // buffer.c:137-147
    method SecondPass(d: Word, fuel: nat, ghost t0: nat) returns (ok: bool, left: nat, ghost mid: nat)
      requires Valid() && fuel > 0 && t0 <= slept
      modifies this
      ensures slept + left == old(slept) + fuel && (!ok ==> left == 0) && left < fuel
      ensures Valid() && Extends(old(ops)) && held == old(held) && |dev| == old(|dev|) && |old(ops)| <= mid <= |ops|
      ensures Later(old(Snap()), Snap(), held, env)
      ensures ok ==> SleptUntil(s0, ops, env, mid, t0, slept) && Synced(s0, ops, mid, d)
      ensures ok && Alone(env) ==> forall b | Buf(Snap(), b) && dev[b] == d :: !dirt[b]
    {
      Sleep();
      ghost var c2, now := Snap(), ops;
      mid := |ops|;
      ok, left := WriteDirty(d, fuel - 1);
      LaterTransitive(old(Snap()), c2, Snap(), held, env);
      if ok { SleepStays(s0, old(ops), now, ops, env, t0, slept); }
    }

    // ---- getblk, brelse, bread ------------------------------------------------------------------------

    /** buffer.c:433-441 */
    method Recycle(b: int, d: Word, k: Word) returns (panic: bool)
      requires Valid() && Buf(Snap(), b) && Free(Snap(), b) && (d == 0 || Absent(Snap(), d, k))
      modifies this
      ensures Valid() && Extends(old(ops)) && !panic && |dev| == old(|dev|) && held == old(held)[b := old(held)[b] + 1]
      ensures slept == old(slept)
      ensures Recycled(old(Snap()), Snap(), b, d, k)
    {
      ghost var s := System();
      RequeuedFits(Snap(), b, d, k);
      panic := Requeue(b, d, k);
      held := held[b := held[b] + 1];
      RecordRecycle(s, b, d, k);
    }

    ghost method RecordRecycle(s: Sys, b: int, d: Word, k: Word)
      requires Lawful(env) && Reached(s0, ops, s) && Buf(s.c, b) && Free(s.c, b) && (d == 0 || Absent(s.c, d, k))
      requires LinksFit(s.c, b) && HeadsFit(Rekeyed(Removed(s.c, b), b, d, k), b) && Snap() == Requeued(s.c, b, d, k)
      requires |s.holds| > 0 && |s.holds[0]| == |s.c.dev| == |held| == |dev|
      requires held == s.holds[0][b := s.holds[0][b] + 1] && s.holds == [s.holds[0]] + rest
      modifies this`ops
      ensures Valid() && Extends(old(ops))
    {
      RecycleNext(s.c, s.holds[0], rest, b, d, k);
      Record(s, CacheRuns.Recycle(0, b, d, k));
    }

    method Requeue(b: int, d: Word, k: Word) returns (panic: bool)
      requires Inv(Snap()) && Buf(Snap(), b)
      modifies this`dev, this`block, this`count, this`dirt, this`uptodate, this`next, this`prev, this`nextFree, this`prevFree, this`hash, this`freeList
      ensures !panic && LinksFit(old(Snap()), b) && HeadsFit(Rekeyed(Removed(old(Snap()), b), b, d, k), b)
      ensures Snap() == Requeued(old(Snap()), b, d, k)
    {
      panic := RemoveFromQueues(b);
      ghost var g :| Detached(Snap(), g, b);
      assert Detached(Snap(), g, b);
      Rekey(b, d, k, g);
      InsertIntoQueues(b, g);
    }

    // buffer.c:434-439
    method Rekey(b: int, d: Word, k: Word, ghost g: Lists)
      requires Detached(Snap(), g, b)
      modifies this`dev, this`block, this`count, this`dirt, this`uptodate
      ensures Detached(Snap(), g, b) && Snap() == Rekeyed(old(Snap()), b, d, k)
    {
      DetachedRenamed(Snap(), g, b, d, k);
      count := count[b := 1];
      dirt := dirt[b := false];
      uptodate := uptodate[b := false];
      dev := dev[b := d];
      block := block[b := k];
    }

    /** The buffer for block k of device d, held and unlocked. */
    method GetBlk(d: Word, k: Word, fuel: nat) returns (ok: bool, b: int, left: nat)
      requires Valid()
      modifies this
      ensures slept + left == old(slept) + fuel && (!ok ==> left == 0)
      ensures Valid() && Extends(old(ops)) && left <= fuel && |dev| == old(|dev|)
      ensures ok && left == fuel <==> exists x :: AtOnce(old(Snap()), d, k, x)
      ensures ok && left == fuel ==> HadAtOnce(old(Snap()), Snap(), d, k, b)
      ensures ok ==> Got(Snap(), b, d, k, old(held), held)
    {
      left := fuel;
      ok, b := false, NIL;
      var again := true;
      while again
        invariant slept + left == old(slept) + fuel
        invariant again && left == fuel ==> Snap() == old(Snap())
        invariant left < fuel || !again ==> (ok && left == fuel <==> exists x :: AtOnce(old(Snap()), d, k, x))
        invariant !again && ok && left == fuel ==> HadAtOnce(old(Snap()), Snap(), d, k, b)
        invariant Valid() && Extends(old(ops)) && left <= fuel && |dev| == old(|dev|)
        invariant again ==> held == old(held)
        invariant !again && ok ==> Got(Snap(), b, d, k, old(held), held)
        invariant !again && !ok ==> left == 0
        decreases again, left
      {
        ok, again, b, left := TryGetBlk(d, k, left);
      }
    }

    /** One pass from `repeat:`; again is goto repeat, which only happens after a sleep. */
    method TryGetBlk(d: Word, k: Word, fuel: nat) returns (ok: bool, again: bool, b: int, left: nat)
      requires Valid()
      modifies this
      ensures slept + left == old(slept) + fuel && (!ok ==> left == 0)
      ensures Valid() && Extends(old(ops)) && left <= fuel && |dev| == old(|dev|)
      ensures again ==> left < fuel && held == old(held)
      ensures ok && left == fuel <==> exists x :: AtOnce(old(Snap()), d, k, x)
      ensures ok && left == fuel ==> HadAtOnce(old(Snap()), Snap(), d, k, b)
      ensures !again && ok ==> Got(Snap(), b, d, k, old(held), held)
    {
      var retry;
      again := false;
      ok, b, retry, left := GetHashTable(d, k, fuel);
      if b != NIL {
        FoundAtOnce(old(Snap()), d, k, b);
        return;
      }
      ok, again, b, left := Allocate(d, k, left);
    }

    // buffer.c:393-442
    method Allocate(d: Word, k: Word, fuel: nat) returns (ok: bool, again: bool, b: int, left: nat)
      requires Valid() && (d == 0 || Absent(Snap(), d, k))
      modifies this
      ensures slept + left == old(slept) + fuel && (!ok ==> left == 0)
      ensures Valid() && Extends(old(ops)) && left <= fuel && |dev| == old(|dev|)
      ensures again ==> left < fuel && held == old(held)
      ensures ok && left == fuel <==> exists x :: AtOnce(old(Snap()), d, k, x)
      ensures ok && left == fuel ==> HadAtOnce(old(Snap()), Snap(), d, k, b)
      ensures !again && ok ==> Got(Snap(), b, d, k, old(held), held)
    {
      b := PickUnused();
      if b != NIL {
        ok, again, left := TakeOver(b, d, k, fuel);
        return;
      }
      if fuel == 0 {
        return false, false, NIL, 0;
      }
      Sleep();
      return true, true, NIL, fuel - 1;
    }

    /** buffer.c:411-442: make the chosen buffer clean and give it the new key, unless
        someone else was faster. */
    method TakeOver(b: int, d: Word, k: Word, fuel: nat) returns (ok: bool, again: bool, left: nat)
      requires Valid() && Buf(Snap(), b) && count[b] == 0 && (d == 0 || Absent(Snap(), d, k))
      modifies this
      ensures slept + left == old(slept) + fuel && (!ok ==> left == 0)
      ensures Valid() && Extends(old(ops)) && left <= fuel && |dev| == old(|dev|)
      ensures again ==> left < fuel && held == old(held)
      ensures ok && left == fuel <==> Free(old(Snap()), b)
      ensures ok && left == fuel ==> HadAtOnce(old(Snap()), Snap(), d, k, b)
      ensures !again && ok ==> Got(Snap(), b, d, k, old(held), held)
    {
      var free;
      ok, free, left := MakeClean(b, fuel);
      again := ok && !free;
      if !ok || !free {
        return;
      }
      ghost var before := ops;
      again := RecycleUnlessThere(b, d, k);
      PrefixTransitive(old(ops), before, ops);
    }

    // buffer.c:422-441
    method RecycleUnlessThere(b: int, d: Word, k: Word) returns (again: bool)
      requires Valid() && Buf(Snap(), b) && Free(Snap(), b)
      modifies this
      ensures Valid() && Extends(old(ops)) && |dev| == old(|dev|) && slept == old(slept)
      ensures again <==> !(d == 0 || Absent(old(Snap()), d, k))
      ensures again ==> Snap() == old(Snap()) && held == old(held)
      ensures !again ==> Recycled(old(Snap()), Snap(), b, d, k) && Got(Snap(), b, d, k, old(held), held)
    {
      var other := FindBuffer(d, k);
      again := other != NIL;
      if !again {
        var panic := Recycle(b, d, k);
      }
    }

    /** buffer.c:411-421: wait for the chosen buffer, writing it out while it is dirty; not
        free if someone else took it meanwhile. */
    method MakeClean(b: int, fuel: nat) returns (ok: bool, free: bool, left: nat)
      requires Valid() && Buf(Snap(), b) && count[b] == 0
      modifies this
      ensures slept + left == old(slept) + fuel && (!ok ==> left == 0)
      ensures Valid() && Extends(old(ops)) && held == old(held) && left <= fuel && |dev| == old(|dev|)
      ensures ok && free ==> Free(Snap(), b)
      ensures ok && left == fuel ==> free && Snap() == old(Snap())
      ensures ok && left == fuel <==> Free(old(Snap()), b)
    {
      ok, left := WaitOnBuffer(b, fuel);
      free := true;
      if !ok {
        return;
      }
      if count[b] > 0 {
        return true, false, left;
      }
      while dirt[b]
        invariant slept + left == old(slept) + fuel
        invariant Valid() && Extends(old(ops)) && held == old(held) && left <= fuel && |dev| == old(|dev|)
        invariant io[b] == Idle && count[b] == 0
        invariant left == fuel ==> Snap() == old(Snap())
        invariant Free(old(Snap()), b) ==> left == fuel
        decreases left
      {
        ok, left := SyncAndWait(b, left);
        if !ok {
          return;
        }
        if count[b] > 0 {
          return true, false, left;
        }
      }
      return true, true, left;
    }

    method SyncAndWait(b: int, fuel: nat) returns (ok: bool, left: nat)
      requires Valid() && Buf(Snap(), b)
      modifies this
      ensures slept + left == old(slept) + fuel && (!ok ==> left == 0)
      ensures Valid() && Extends(old(ops)) && held == old(held) && left <= fuel && |dev| == old(|dev|)
      ensures ok ==> left < fuel && io[b] == Idle
    {
      ghost var first, mid;
      ok, left, first, mid := SyncDev(dev[b], fuel);
      if ok {
        ok, left := WaitOnBuffer(b, left);
      }
    }

    method Brelse(b: int, fuel: nat) returns (ok: bool, panic: bool, left: nat)
      requires Valid() && Buf(Snap(), b) && held[b] > 0
      modifies this
      ensures slept + left == old(slept) + fuel && (!ok ==> left == 0)
      ensures Valid() && Extends(old(ops)) && left <= fuel && |dev| == old(|dev|) && !panic
      ensures ok ==> held == old(held)[b := old(held)[b] - 1]
      ensures !ok ==> held == old(held)
    {
      ok, left := WaitOnBuffer(b, fuel);
      panic := false;
      if ok {
        panic := Drop(b);
      }
    }

    /** Read a block: the buffer returned holds the block last written there. */
    method Bread(d: Word, k: Word, fuel: nat) returns (ok: bool, b: int, left: nat)
      requires Valid()
      modifies this
      ensures slept + left == old(slept) + fuel && (!ok ==> left == 0)
      ensures Valid() && Extends(old(ops)) && left <= fuel && |dev| == old(|dev|)
      ensures FoundValid(old(Snap()), Snap(), d, k, ok && left == fuel, b)
      ensures ok && b != NIL ==> Read(s0, ops, Snap(), b, d, k) && |old(held)| == |dev| && held == old(held)[b := old(held)[b] + 1]
      ensures ok && b == NIL ==> held == old(held)
      ensures ok && b == NIL ==> d == 0 || ReadFailed(s0, ops, |old(ops)|, d, k)
    {
      ghost var c := Snap();
      ok, b, left := GetBlk(d, k, fuel);
      GotValid(c, Snap(), d, k, ok && left == fuel, b);
      if !ok {
        return;
      }
      ghost var c1, x, more := Snap(), b, left;
      ok, b, left := ReadGot(b, d, k, left, old(held), old(ops));
      StillFound(c, c1, Snap(), d, k, more == fuel, x, ok && left == fuel, b);
    }

    // buffer.c:484-493
    method ReadGot(x: int, d: Word, k: Word, fuel: nat, ghost h: seq<nat>, ghost before: seq<Op>) returns (ok: bool, b: int, left: nat)
      requires Valid() && Got(Snap(), x, d, k, h, held) && Extends(before)
      modifies this
      ensures slept + left == old(slept) + fuel && (!ok ==> left == 0)
      ensures Valid() && Extends(before) && left <= fuel && |dev| == old(|dev|)
      ensures old(uptodate[x]) ==> ok && b == x && left == fuel && Snap() == old(Snap())
      ensures ok && b != NIL ==> Read(s0, ops, Snap(), b, d, k) && |h| == |dev| && held == h[b := h[b] + 1]
      ensures ok && b == NIL ==> held == h
      ensures ok && b == NIL ==> d == 0 || ReadFailed(s0, ops, |before|, d, k)
    {
      ghost var now := ops;
      GotHeld(Snap(), x, d, k, h, held);
      ok, b, left := ReadHeld(x, d, k, fuel, h);
      PrefixTransitive(before, now, ops);
      if ok && b == NIL && d != 0 { FailedEver(s0, ops, ops, |before|, |now|, d, k); }
    }

    /** buffer.c:484-493: make a held buffer valid, or give it back; h is what this task held
        before it got the buffer. */
    method ReadHeld(x: int, d: Word, k: Word, fuel: nat, ghost h: seq<nat>) returns (ok: bool, b: int, left: nat)
      requires Valid() && Buf(Snap(), x) && Key(Snap(), x, d, k) && held[x] > 0 && |h| == |dev| && held == h[x := h[x] + 1]
      modifies this
      ensures slept + left == old(slept) + fuel && (!ok ==> left == 0)
      ensures Valid() && Extends(old(ops)) && left <= fuel && |dev| == old(|dev|)
      ensures old(uptodate[x]) ==> ok && b == x && left == fuel && Snap() == old(Snap())
      ensures ok && b != NIL ==> b == x && Read(s0, ops, Snap(), b, d, k) && held == old(held)
      ensures ok && b == NIL ==> held == h
      ensures ok && b == NIL ==> d == 0 || ReadFailed(s0, ops, |old(ops)|, d, k)
    {
      ghost var h1 := held;
      ok, left := Fill(x, fuel);
      b := x;
      if !ok {
        return;
      }
      if uptodate[x] {
        ValidIsLastWritten(s0, ops, System(), x);
        return;
      }
      ghost var before := ops;
      var panic;
      ok, panic, left := Brelse(x, left);
      b := NIL;
      TakenBack(h, h1, held, x);
      if d != 0 { FailedEver(s0, before, ops, |old(ops)|, |old(ops)|, d, k); }
    }

    // buffer.c:484-489
    method Fill(b: int, fuel: nat) returns (ok: bool, left: nat)
      requires Valid() && Buf(Snap(), b) && held[b] > 0
      modifies this
      ensures slept + left == old(slept) + fuel && (!ok ==> left == 0)
      ensures Valid() && Extends(old(ops)) && held == old(held) && left <= fuel
      ensures Later(old(Snap()), Snap(), held, env)
      ensures old(uptodate[b]) ==> ok && left == fuel && Snap() == old(Snap())
      ensures ok ==> uptodate[b] || dev[b] == 0 || ReadFailed(s0, ops, |old(ops)|, dev[b], block[b])
    {
      LaterAtOnce(Snap(), held, env);
      if uptodate[b] {
        return true, fuel;
      }
      ok, left := LlRwBlock(false, b, fuel);
      if !ok {
        return;
      }
      ghost var c, s, before := Snap(), System(), ops;
      ok, left := WaitOnBuffer(b, left);
      LaterTransitive(old(Snap()), c, Snap(), held, env);
      PrefixTransitive(old(ops), before, ops);
      if ok && dev[b] != 0 { HasFailed(s0, before, s, ops, |old(ops)|, b); }
    }
  }
}
