/** The uninterrupted steps of fs/buffer.c, each shown to be legal towards other tasks. */
module CacheSteps {
  import opened CacheModel
  import opened CacheLists

  /** The block array depends on keys, validity, contents and the disk only. */
  lemma ArrayFrame(c: Cache, c': Cache)
    requires Sizes(c) && Sizes(c') && Unique(c) && Unique(c')
    requires c'.dev == c.dev && c'.block == c.block && c'.uptodate == c.uptodate && c'.data == c.data && c'.disk == c.disk
    ensures SameArray(c, c')
  {
    forall dev, block
      ensures Array(c', dev, block) == Array(c, dev, block)
    {
      if b :| Caches(c, b, dev, block) {
        ArrayIs(c, b);
        ArrayIs(c', b);
      } else {
        ArrayIsDisk(c, dev, block);
        forall b | Buf(c', b)
          ensures !Caches(c', b, dev, block)
        {
          assert !Caches(c, b, dev, block);
        }
        ArrayIsDisk(c', dev, block);
      }
    }
  }

  lemma SameLists(c: Cache, c': Cache)
    requires Inv(c) && Sizes(c') && c'.dev == c.dev && c'.block == c.block
    requires c'.next == c.next && c'.prev == c.prev && c'.nextFree == c.nextFree && c'.prevFree == c.prevFree
    requires c'.hash == c.hash && c'.freeList == c.freeList
    ensures exists g :: ListsOk(c', g)
  {
    var g :| ListsOk(c, g);
    forall k | 0 <= k < NR_HASH
      ensures ChainOk(c', k, g.chains[k])
    {
      assert ChainOk(c, k, g.chains[k]);
    }
    assert ListsOk(c', g);
  }

  // ---- counting -------------------------------------------------------------------------------

  function Counted(c: Cache, b: int): Cache
    requires 0 <= b < |c.count|
  {
    c.(count := c.count[b := c.count[b] + 1])
  }

  function Uncounted(c: Cache, b: int): Cache
    requires 0 <= b < |c.count| && c.count[b] > 0
  {
    c.(count := c.count[b := c.count[b] - 1])
  }

  lemma CountedQuiet(c: Cache, held: seq<nat>, b: int)
    requires Inv(c) && Holds(c, held) && Buf(c, b)
    ensures Quiet(c, Counted(c, b), held, held[b := held[b] + 1])
  {
    SameLists(c, Counted(c, b));
    forall x | Buf(c, x)
      ensures BufferOk(Counted(c, b), x)
    {
      assert BufferOk(c, x);
    }
    ArrayFrame(c, Counted(c, b));
  }

  lemma UncountedQuiet(c: Cache, held: seq<nat>, b: int)
    requires Inv(c) && Holds(c, held) && Buf(c, b) && held[b] > 0
    ensures c.count[b] > 0
    ensures Quiet(c, Uncounted(c, b), held, held[b := held[b] - 1])
  {
    SameLists(c, Uncounted(c, b));
    forall x | Buf(c, x)
      ensures BufferOk(Uncounted(c, b), x)
    {
      assert BufferOk(c, x);
    }
    ArrayFrame(c, Uncounted(c, b));
  }

  // ---- writing ----------------------------------------------------------------------------------

  /** A user stores into a buffer it holds and marks it dirty and, as new_block does for a
      buffer it has not read, valid. */
  function Wrote(c: Cache, b: int, x: Block): Cache
    requires 0 <= b < |c.data| == |c.dirt| == |c.uptodate|
  {
    c.(data := c.data[b := x], dirt := c.dirt[b := true], uptodate := c.uptodate[b := true])
  }

  /** The buffer is valid, or at least no read into it is under way. */
  predicate Writable(c: Cache, b: int)
    requires 0 <= b < |c.io| == |c.dev| == |c.uptodate|
  {
    c.dev[b] != 0 && (c.uptodate[b] || c.io[b] == Idle)
  }

  /** A store into a buffer changes the block array at that block and nowhere else, and
      disturbs no other task. */
  lemma WroteArray(c: Cache, held: seq<nat>, b: int, x: Block)
    requires Inv(c) && Holds(c, held) && Buf(c, b) && Writable(c, b)
    ensures Rely(c, Wrote(c, b, x), held)
    ensures forall d, k :: Array(Wrote(c, b, x), d, k) == if Key(c, b, d, k) then x else Array(c, d, k)
  {
    var c' := Wrote(c, b, x);
    SameLists(c, c');
    forall y | Buf(c, y)
      ensures BufferOk(c', y)
    {
      assert BufferOk(c, y);
    }
    forall d, k
      ensures Array(c', d, k) == if Key(c, b, d, k) then x else Array(c, d, k)
    {
      assert BufferOk(c, b);
      if Key(c, b, d, k) {
        ArrayIs(c', b);
      } else if y :| Caches(c, y, d, k) {
        assert Caches(c, y, d, k);
        ArrayIs(c, y);
        ArrayIs(c', y);
      } else {
        ArrayIsDisk(c, d, k);
        forall y | Buf(c', y)
          ensures !Caches(c', y, d, k)
        {
          assert !Caches(c, y, d, k);
        }
        ArrayIsDisk(c', d, k);
      }
    }
  }

  // ---- requests to the disk -----------------------------------------------------------------------

  function Submitted(c: Cache, b: int, io: Io): Cache
    requires 0 <= b < |c.io| == |c.dirt|
  {
    c.(io := c.io[b := io], dirt := c.dirt[b := false])
  }

  /** ll_rw_block queues a read of an invalid buffer or a write of a dirty one. */
  lemma SubmittedQuiet(c: Cache, held: seq<nat>, b: int, io: Io)
    requires Inv(c) && Holds(c, held) && Buf(c, b) && c.io[b] == Idle
    requires (io == Reading && !c.uptodate[b]) || (io == Writing && c.dirt[b])
    ensures Quiet(c, Submitted(c, b, io), held, held)
  {
    SameLists(c, Submitted(c, b, io));
    forall x | Buf(c, x)
      ensures BufferOk(Submitted(c, b, io), x)
    {
      assert BufferOk(c, x);
    }
    ArrayFrame(c, Submitted(c, b, io));
  }

  /** The disk interrupt that ends a read that failed. */
  function Failed(c: Cache, b: int): Cache
    requires 0 <= b < |c.io|
  {
    c.(io := c.io[b := Idle])
  }

  lemma FailedQuiet(c: Cache, held: seq<nat>, b: int)
    requires Inv(c) && Holds(c, held) && Buf(c, b) && c.io[b] == Reading
    ensures Quiet(c, Failed(c, b), held, held)
  {
    SameLists(c, Failed(c, b));
    forall x | Buf(c, x)
      ensures BufferOk(Failed(c, b), x)
    {
      assert BufferOk(c, x);
    }
    ArrayFrame(c, Failed(c, b));
  }

  /** The disk interrupt that ends a request. */
  function Completed(c: Cache, b: int): Cache
    requires 0 <= b < |c.io| == |c.dev| == |c.block| == |c.data| == |c.uptodate|
  {
    match c.io[b]
    case Idle => c
    case Reading =>
      if c.dev[b] == 0 then c.(io := c.io[b := Idle])
      else c.(io := c.io[b := Idle], uptodate := c.uptodate[b := true], data := c.data[b := DiskAt(c, c.dev[b], c.block[b])])
    case Writing => c.(io := c.io[b := Idle], disk := c.disk[(c.dev[b], c.block[b]) := c.data[b]])
  }

  lemma CompletedBuffer(c: Cache, b: int, x: int)
    requires Inv(c) && Buf(c, b) && Buf(c, x)
    ensures Sizes(Completed(c, b)) && BufferOk(Completed(c, b), x)
  {
    var c' := Completed(c, b);
    assert BufferOk(c, b) && BufferOk(c, x);
    if x != b && c.uptodate[b] {
      assert !SameKey(c.dev, c.block, b, x);
      assert DiskAt(c', c.dev[x], c.block[x]) == DiskAt(c, c.dev[x], c.block[x]);
    }
  }

  lemma CompletedQuiet(c: Cache, held: seq<nat>, b: int)
    requires Inv(c) && Holds(c, held) && Buf(c, b)
    ensures Quiet(c, Completed(c, b), held, held)
  {
    var c' := Completed(c, b);
    forall x | Buf(c, x)
      ensures BufferOk(c', x)
    {
      CompletedBuffer(c, b, x);
    }
    SameLists(c, c');
    forall dev, block
      ensures Array(c', dev, block) == Array(c, dev, block)
    {
      CompletedArray(c, b, dev, block);
    }
  }

  lemma CompletedArray(c: Cache, b: int, dev: Word, block: Word)
    requires Inv(c) && Buf(c, b) && Sizes(Completed(c, b))
    ensures Array(Completed(c, b), dev, block) == Array(c, dev, block)
  {
    var c' := Completed(c, b);
    assert BufferOk(c, b);
    if x :| Caches(c, x, dev, block) {
      assert Caches(c, x, dev, block);
      ArrayIs(c, x);
      ArrayIs(c', x);
    } else {
      ArrayIsDisk(c, dev, block);
      forall y | Buf(c', y) && y != b
        ensures !Caches(c', y, dev, block)
      {
        assert !Caches(c, y, dev, block);
      }
      if Caches(c', b, dev, block) {
        assert !Caches(c, b, dev, block);
        ArrayIs(c', b);
      } else {
        ArrayIsDisk(c', dev, block);
      }
    }
  }

  ghost predicate SameKeys(c: Cache, c': Cache) { c'.dev == c.dev && c'.block == c.block }

  ghost predicate NoNewDirt(c: Cache, c': Cache) {
    |c'.dirt| == |c.dirt| && forall b | 0 <= b < |c.dirt| && c'.dirt[b] :: c.dirt[b]
  }

  /** The given requests complete, one after the other. */
  ghost function CompleteAll(c: Cache, bs: seq<int>): Cache
    decreases |bs|
  {
    if bs == [] then c
    else
      var c1 := CompleteAll(c, bs[..|bs| - 1]);
      var b := bs[|bs| - 1];
      if Sizes(c1) && Buf(c1, b) then Completed(c1, b) else c1
  }

  lemma {:induction false} CompleteAllQuiet(c: Cache, held: seq<nat>, bs: seq<int>)
    requires Inv(c) && Holds(c, held)
    ensures Quiet(c, CompleteAll(c, bs), held, held)
    ensures SameKeys(c, CompleteAll(c, bs)) && NoNewDirt(c, CompleteAll(c, bs))
    decreases |bs|
  {
    if bs == [] {
      assert SameArray(c, c);
    } else {
      var c1 := CompleteAll(c, bs[..|bs| - 1]);
      var b := bs[|bs| - 1];
      CompleteAllQuiet(c, held, bs[..|bs| - 1]);
      if Buf(c1, b) {
        CompletedQuiet(c1, held, b);
        QuietThenQuiet(c, c1, Completed(c1, b), held);
      }
    }
  }

  lemma QuietThenQuiet(c: Cache, c1: Cache, c2: Cache, held: seq<nat>)
    requires Quiet(c, c1, held, held) && Quiet(c1, c2, held, held) && SameKeys(c, c1) && SameKeys(c1, c2)
    ensures Quiet(c, c2, held, held)
  {
    forall b | Buf(c, b)
      ensures c2.count[b] - held[b] == c.count[b] - held[b]
    {
      assert c1.count[b] - held[b] == c.count[b] - held[b];
    }
    forall d, k
      ensures Array(c2, d, k) == Array(c, d, k)
    {
      assert Array(c1, d, k) == Array(c, d, k);
    }
  }

  /** Once no buffer of the device is dirty or being written, the disk is the array. */
  lemma CleanMeansOnDisk(c: Cache, d: Word, k: Word)
    requires Inv(c)
    requires forall b | Buf(c, b) && c.dev[b] == d :: !c.dirt[b] && c.io[b] == Idle
    ensures DiskAt(c, d, k) == Array(c, d, k)
  {
    if b :| Caches(c, b, d, k) {
      assert Caches(c, b, d, k);
      assert BufferOk(c, b);
      ArrayIs(c, b);
    } else {
      ArrayIsDisk(c, d, k);
    }
  }

  /** After sync_dev left nothing dirty, the completion of the pending requests makes the
      disk equal to the block array as it is now. */
  lemma SyncReachesDisk(c: Cache, d: Word, k: Word, bs: seq<int>)
    requires Inv(c) && forall b | Buf(c, b) && c.dev[b] == d :: !c.dirt[b]
    requires Sizes(CompleteAll(c, bs)) && forall b | Buf(c, b) && c.dev[b] == d && b < |CompleteAll(c, bs).io| :: CompleteAll(c, bs).io[b] == Idle
    ensures DiskAt(CompleteAll(c, bs), d, k) == Array(c, d, k)
  {
    CompleteAllQuiet(c, c.count, bs);
    var c' := CompleteAll(c, bs);
    forall b | Buf(c', b) && c'.dev[b] == d
      ensures !c'.dirt[b] && c'.io[b] == Idle
    {
      assert Buf(c, b) && c.dev[b] == d;
    }
    CleanMeansOnDisk(c', d, k);
    assert Array(c', d, k) == Array(c, d, k);
  }

  // ---- a buffer takes a new key ------------------------------------------------------------------------

  /** buffer.c:433-435 and 439-440 */
  function Rekeyed(c: Cache, b: int, dev: Word, block: Word): Cache
    requires 0 <= b < |c.dev| && |c.block| == |c.count| == |c.dirt| == |c.uptodate| == |c.dev|
  {
    c.(dev := c.dev[b := dev], block := c.block[b := block], count := c.count[b := 1],
       dirt := c.dirt[b := false], uptodate := c.uptodate[b := false])
  }

  predicate LinksFit(c: Cache, b: int) {
    Sizes(c) && Buf(c, b) && 0 <= c.nextFree[b] < |c.dev| && 0 <= c.prevFree[b] < |c.dev|
  }

  predicate HeadsFit(c: Cache, b: int) {
    && Sizes(c) && Buf(c, b) && 0 <= c.freeList < |c.dev| && 0 <= c.prevFree[c.freeList] < |c.dev|
    && forall k | 0 <= k < NR_HASH :: c.hash[k] == NIL || 0 <= c.hash[k] < |c.dev|
  }

  /** buffer.c:433-441: the buffer leaves its lists, takes its new key and joins others. */
  function Requeued(c: Cache, b: int, dev: Word, block: Word): Cache
    requires LinksFit(c, b) && HeadsFit(Rekeyed(Removed(c, b), b, dev, block), b)
  {
    Inserted(Rekeyed(Removed(c, b), b, dev, block), b)
  }

  lemma RequeuedOk(c: Cache, b: int, dev: Word, block: Word) returns (g': Lists)
    requires Inv(c) && Buf(c, b)
    ensures LinksFit(c, b) && HeadsFit(Rekeyed(Removed(c, b), b, dev, block), b)
    ensures Recycled(c, Requeued(c, b, dev, block), b, dev, block) && ListsOk(Requeued(c, b, dev, block), g')
  {
    var g :| ListsOk(c, g);
    var g1 := RemovedOk(c, g, b);
    var c2 := Rekeyed(Removed(c, b), b, dev, block);
    DetachedRenamed(Removed(c, b), g1, b, dev, block);
    assert Detached(c2, g1, b);
    g' := InsertedOk(c2, g1, b);
  }

  ghost predicate Free(c: Cache, b: int)
    requires Sizes(c) && Buf(c, b)
  {
    c.count[b] == 0 && c.io[b] == Idle && !c.dirt[b]
  }

  ghost predicate Absent(c: Cache, dev: Word, block: Word)
    requires Sizes(c)
  {
    forall x | Buf(c, x) :: !Key(c, x, dev, block)
  }

  /** getblk hands the buffer it recycles over to its new block. */
  ghost predicate Recycled(c: Cache, c': Cache, b: int, dev: Word, block: Word) {
    && Sizes(c) && Sizes(c') && Buf(c, b) && |c'.dev| == |c.dev|
    && c'.dev == c.dev[b := dev] && c'.block == c.block[b := block] && c'.count == c.count[b := 1]
    && c'.dirt == c.dirt[b := false] && c'.uptodate == c.uptodate[b := false]
    && c'.io == c.io && c'.data == c.data && c'.disk == c.disk
  }

  lemma RecycledQuiet(c: Cache, c': Cache, g': Lists, held: seq<nat>, b: int, dev: Word, block: Word)
    requires Inv(c) && Holds(c, held) && Buf(c, b) && Free(c, b) && (dev == 0 || Absent(c, dev, block))
    requires Recycled(c, c', b, dev, block) && ListsOk(c', g')
    ensures Quiet(c, c', held, held[b := held[b] + 1])
  {
    forall x, y | Buf(c', x) && Buf(c', y) && x != y && c'.dev[x] != 0
      ensures !SameKey(c'.dev, c'.block, x, y)
    {
      if x != b && y != b {
        assert !SameKey(c.dev, c.block, x, y);
      } else if dev != 0 {
        assert !Key(c, if x == b then y else x, dev, block);
      }
    }
    forall x | Buf(c', x)
      ensures BufferOk(c', x)
    {
      assert BufferOk(c, x);
    }
    RecycledArray(c, c', b, dev, block);
  }

  lemma RecycledArray(c: Cache, c': Cache, b: int, dev: Word, block: Word)
    requires Inv(c) && Buf(c, b) && Free(c, b) && Recycled(c, c', b, dev, block) && Unique(c')
    ensures SameArray(c, c')
  {
    forall d, k
      ensures Array(c', d, k) == Array(c, d, k)
    {
      if x :| Caches(c, x, d, k) {
        ArrayIs(c, x);
        if x != b {
          assert Key(c', x, d, k);
          ArrayIs(c', x);
        } else {
          assert BufferOk(c, b);
          forall y | Buf(c', y)
            ensures !Caches(c', y, d, k)
          {
            assert y != b ==> !SameKey(c.dev, c.block, b, y);
          }
          ArrayIsDisk(c', d, k);
        }
      } else {
        ArrayIsDisk(c, d, k);
        forall y | Buf(c', y)
          ensures !Caches(c', y, d, k)
        {
          assert !Caches(c, y, d, k);
        }
        ArrayIsDisk(c', d, k);
      }
    }
  }

  /** The cache as buffer_init leaves it. */
  lemma FreshCache(c: Cache, n: nat)
    requires n > 0 && Sizes(c) && |c.dev| == n && c.freeList == 0
    requires forall b | 0 <= b < n :: c.dev[b] == 0 && c.count[b] == 0 && !c.dirt[b] && !c.uptodate[b] && c.io[b] == Idle
    requires forall b | 0 <= b < n :: c.next[b] == NIL && c.prev[b] == NIL
    requires forall b | 0 <= b < n :: c.nextFree[b] == (if b + 1 == n then 0 else b + 1) && c.prevFree[b] == (if b == 0 then n - 1 else b - 1)
    requires forall k | 0 <= k < NR_HASH :: c.hash[k] == NIL
    ensures Inv(c)
    ensures forall d, k :: Array(c, d, k) == DiskAt(c, d, k)
  {
    var ring := seq(n, i => i);
    var g := Lists(ring, seq(NR_HASH, _ => []));
    assert forall b | Buf(c, b) :: ring[b] == b;
    assert RingOk(c, ring);
    forall k | 0 <= k < NR_HASH
      ensures ChainOk(c, k, g.chains[k])
    {
    }
    assert ListsOk(c, g);
    forall b | Buf(c, b)
      ensures BufferOk(c, b)
    {
    }
  }
}
