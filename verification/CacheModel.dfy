/** The buffer cache of fs/buffer.c as a value: buffer heads indexed by position in
    start_buffer[], their hash and free links, the hash table and the disk. */
module CacheModel {
  const NR_HASH: nat := 307
  const NIL: int := -1

  type Block = seq<int>
  datatype Io = Idle | Reading | Writing    // b_lock, with what the pending request does

  datatype Cache = Cache(
    dev: seq<Word>, block: seq<Word>, count: seq<nat>, dirt: seq<bool>, uptodate: seq<bool>, io: seq<Io>, data: seq<Block>,
    next: seq<int>, prev: seq<int>, nextFree: seq<int>, prevFree: seq<int>,
    hash: seq<int>, freeList: int,
    disk: map<(Word, Word), Block>)

  /** The lists that the pointers stand for. */
  datatype Lists = Lists(ring: seq<int>, chains: seq<seq<int>>)

  type Word = x: int | 0 <= x < 0x1_0000_0000

  function HashFn(dev: Word, block: Word): (k: int)
    ensures 0 <= k < NR_HASH
  {
    (((dev as bv32) ^ (block as bv32)) as int) % NR_HASH
  }

  predicate Sizes(c: Cache) {
    var n := |c.dev|;
    && n > 0 && |c.hash| == NR_HASH
    && |c.block| == |c.count| == |c.dirt| == |c.uptodate| == |c.io| == |c.data| == n
    && |c.next| == |c.prev| == |c.nextFree| == |c.prevFree| == n
  }

  predicate Buf(c: Cache, b: int) { 0 <= b < |c.dev| }

  predicate Key(c: Cache, b: int, dev: Word, block: Word)
    requires Buf(c, b) && |c.block| == |c.dev|
  {
    c.dev[b] == dev && c.block[b] == block
  }

  // ---- lists ------------------------------------------------------------------------------

  function Succ(n: nat, i: nat): nat
    requires i < n
  {
    if i + 1 == n then 0 else i + 1
  }

  ghost predicate Distinct(s: seq<int>) { forall i, j | 0 <= i < j < |s| :: s[i] != s[j] }

  ghost predicate Within(s: seq<int>, n: nat) { forall i | 0 <= i < |s| :: 0 <= s[i] < n }

  /** nextf and prevf make s a circular doubly linked list. */
  ghost predicate Circular(nextf: seq<int>, prevf: seq<int>, s: seq<int>) {
    && |nextf| == |prevf| && Within(s, |nextf|)
    && (forall i {:trigger Succ(|s|, i)} | 0 <= i < |s| :: nextf[s[i]] == s[Succ(|s|, i)] && prevf[s[Succ(|s|, i)]] == s[i])
  }

  function After(s: seq<int>, i: nat): int
    requires i < |s|
  {
    if i + 1 == |s| then NIL else s[i + 1]
  }

  function Before(s: seq<int>, i: nat): int
    requires i < |s|
  {
    if i == 0 then NIL else s[i - 1]
  }

  /** next and prev make s a doubly linked list that ends in NIL both ways. */
  ghost predicate Linear(next: seq<int>, prev: seq<int>, head: int, s: seq<int>) {
    && |next| == |prev| && Within(s, |next|)
    && head == (if s == [] then NIL else s[0])
    && (forall i {:trigger After(s, i)} {:trigger Before(s, i)} | 0 <= i < |s| :: next[s[i]] == After(s, i) && prev[s[i]] == Before(s, i))
  }

  ghost predicate RingOk(c: Cache, ring: seq<int>)
    requires Sizes(c)
  {
    && Distinct(ring) && |ring| > 0 && ring[0] == c.freeList
    && Circular(c.nextFree, c.prevFree, ring)
    && (forall b | Buf(c, b) :: b in ring)
  }

  ghost predicate ChainOk(c: Cache, k: int, chain: seq<int>)
    requires Sizes(c) && 0 <= k < NR_HASH
  {
    && Distinct(chain)
    && Linear(c.next, c.prev, c.hash[k], chain)
    && (forall b | Buf(c, b) :: b in chain <==> c.dev[b] != 0 && HashFn(c.dev[b], c.block[b]) == k)
  }

  ghost predicate ListsOk(c: Cache, g: Lists)
    requires Sizes(c)
  {
    && RingOk(c, g.ring)
    && |g.chains| == NR_HASH
    && (forall k {:trigger ChainOk(c, k, g.chains[k])} | 0 <= k < NR_HASH :: ChainOk(c, k, g.chains[k]))
    && Unhashed(c)
  }

  /** A buffer without a device is on no hash chain. */
  ghost predicate Unhashed(c: Cache)
    requires Sizes(c)
  {
    forall b | Buf(c, b) && c.dev[b] == 0 :: c.next[b] == NIL && c.prev[b] == NIL
  }

  predicate SameKey(dev: seq<Word>, block: seq<Word>, a: int, b: int)
    requires 0 <= a < |dev| == |block| && 0 <= b < |dev|
  {
    dev[a] == dev[b] && block[a] == block[b]
  }

  /** No two buffers carry the same (device, block). */
  ghost predicate UniqueKeys(dev: seq<Word>, block: seq<Word>)
    requires |dev| == |block|
  {
    forall a, b {:trigger SameKey(dev, block, a, b)} | 0 <= a < |dev| && 0 <= b < |dev| && a != b && dev[a] != 0 :: !SameKey(dev, block, a, b)
  }

  ghost predicate Unique(c: Cache)
    requires Sizes(c)
  {
    UniqueKeys(c.dev, c.block)
  }

  // ---- contents ---------------------------------------------------------------------------

  function DiskAt(c: Cache, dev: Word, block: Word): Block {
    if (dev, block) in c.disk then c.disk[(dev, block)] else []
  }

  ghost predicate BufferOk(c: Cache, b: int)
    requires Sizes(c) && Buf(c, b)
  {
    && (c.dirt[b] ==> c.uptodate[b])
    && (c.io[b] == Reading ==> !c.uptodate[b])
    && (c.io[b] == Writing ==> c.uptodate[b])
    && (c.uptodate[b] ==> c.dev[b] != 0)
    && (c.uptodate[b] && !c.dirt[b] && c.io[b] == Idle ==> c.data[b] == DiskAt(c, c.dev[b], c.block[b]))
  }

  ghost predicate Contents(c: Cache)
    requires Sizes(c)
  {
    forall b {:trigger BufferOk(c, b)} | Buf(c, b) :: BufferOk(c, b)
  }

  ghost predicate Inv(c: Cache) {
    Sizes(c) && Unique(c) && Contents(c) && exists g :: ListsOk(c, g)
  }

  /** Buffer b has the block in memory. */
  predicate Caches(c: Cache, b: int, dev: Word, block: Word)
    requires |c.block| == |c.dev| == |c.uptodate|
  {
    Buf(c, b) && Key(c, b, dev, block) && dev != 0 && c.uptodate[b]
  }

  /** The plain array of blocks that the cache and the disk together stand for. */
  ghost function Array(c: Cache, dev: Word, block: Word): Block
    requires Sizes(c)
  {
    if exists b :: Caches(c, b, dev, block) then var b :| Caches(c, b, dev, block); c.data[b] else DiskAt(c, dev, block)
  }

  lemma ArrayIs(c: Cache, b: int)
    requires Sizes(c) && Unique(c) && Buf(c, b) && c.dev[b] != 0 && c.uptodate[b]
    ensures Array(c, c.dev[b], c.block[b]) == c.data[b]
  {
    assert Caches(c, b, c.dev[b], c.block[b]);
    var x :| Caches(c, x, c.dev[b], c.block[b]) && c.data[x] == Array(c, c.dev[b], c.block[b]);
    assert Caches(c, x, c.dev[b], c.block[b]);
    assert SameKey(c.dev, c.block, b, x);
  }

  lemma ArrayIsDisk(c: Cache, dev: Word, block: Word)
    requires Sizes(c)
    requires forall b | Buf(c, b) :: !Caches(c, b, dev, block)
    ensures Array(c, dev, block) == DiskAt(c, dev, block)
  {
  }

  ghost predicate SameArray(c: Cache, c': Cache)
    requires Sizes(c) && Sizes(c')
  {
    forall dev, block :: Array(c', dev, block) == Array(c, dev, block)
  }

  // ---- what tasks may do to each other --------------------------------------------------------

  /** A task's own uses of each buffer are among the counted ones. */
  ghost predicate Holds(c: Cache, held: seq<nat>)
    requires Sizes(c)
  {
    |held| == |c.dev| && forall b | Buf(c, b) :: held[b] <= c.count[b]
  }

  /** Any number of steps of other tasks, as seen by a task that holds `held`: the cache
      stays well formed, and a buffer the task holds keeps its key and stays counted. */
  ghost predicate Rely(c: Cache, c': Cache, held: seq<nat>) {
    && Inv(c) && Inv(c') && |c'.dev| == |c.dev| && Holds(c, held) && Holds(c', held)
    && (forall b | Buf(c, b) && held[b] > 0 :: Key(c', b, c.dev[b], c.block[b]))
  }

  /** One uninterrupted step of a task whose holds go from held to held': the other tasks'
      uses stay counted, only an unused buffer changes its key, and the block array that
      the cache stands for is the same. */
  ghost predicate Quiet(c: Cache, c': Cache, held: seq<nat>, held': seq<nat>) {
    && Inv(c) && Inv(c') && |c'.dev| == |c.dev| && Holds(c, held) && Holds(c', held')
    && (forall b | Buf(c, b) :: c'.count[b] - held'[b] == c.count[b] - held[b])
    && (forall b | Buf(c, b) && c.count[b] > 0 :: Key(c', b, c.dev[b], c.block[b]))
    && SameArray(c, c')
  }

  /** What one task does uninterrupted is within what every other task relies on. */
  lemma QuietIsRelied(c: Cache, c': Cache, mine: seq<nat>, mine': seq<nat>, yours: seq<nat>)
    requires Quiet(c, c', mine, mine') && |yours| == |c.dev|
    requires forall b | Buf(c, b) :: mine[b] + yours[b] <= c.count[b]
    ensures Rely(c, c', yours)
    ensures forall b | Buf(c, b) :: mine'[b] + yours[b] <= c'.count[b]
  {
    forall b | Buf(c, b)
      ensures mine'[b] + yours[b] <= c'.count[b]
    {
      assert c'.count[b] - mine'[b] == c.count[b] - mine[b];
    }
  }

  lemma RelyTransitive(c: Cache, c1: Cache, c2: Cache, held: seq<nat>)
    requires Rely(c, c1, held) && Rely(c1, c2, held)
    ensures Rely(c, c2, held)
  {
    forall b | Buf(c, b) && held[b] > 0
      ensures Key(c2, b, c.dev[b], c.block[b])
    {
      assert Key(c1, b, c.dev[b], c.block[b]);
    }
  }
}
