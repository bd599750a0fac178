/** The bucket allocator of lib/malloc.c as a value.  Pointers are addresses with 0 for
    NULL; descriptors are records, objects live in a memory of words. */
module BucketModel {
  const PAGE_SIZE: nat := 4096
  const DESC_SIZE: nat := 16
  const BUCKETS: nat := 9
  type Bucket = k: nat | k < BUCKETS
  const SIZES: seq<nat> := [16, 32, 64, 128, 256, 512, 1024, 2048, 4096]

  datatype Desc = Desc(page: nat, next: nat, freeptr: nat, refcnt: nat, size: nat)

  datatype Heap = Heap(
    descs: map<nat, Desc>,    // bucket descriptors, by address
    chains: seq<nat>,         // bucket_dir[].chain
    free: nat,                // free_bucket_desc
    words: map<nat, nat>)     // memory words, by address

  /** Where a descriptor is: in a bucket's chain, in the free list, or being set up. */
  datatype Where = In(k: Bucket) | FreeDesc | Pending

  /** The lists that the pointers spell out. */
  datatype Layout = Layout(
    chain: seq<seq<nat>>,            // per bucket: its descriptors
    free: seq<nat>,                  // free descriptors
    slots: map<nat, seq<nat>>,       // per descriptor: its free slots, by number
    place: map<nat, Where>,
    owner: map<nat, nat>)            // per object page: its descriptor

  function Size(k: Bucket): (s: nat)
    ensures s > 0
  {
    SIZES[k]
  }

  const COUNTS: seq<nat> := [256, 128, 64, 32, 16, 8, 4, 2, 1]

  /** The objects a page of bucket k has room for. */
  function Count(k: Bucket): (c: nat)
    ensures 1 <= c <= 256
  {
    COUNTS[k]
  }

  /** Where slot j begins, counted from the page: j steps of the bucket's size. */
  function Steps(k: Bucket, j: nat): nat { if j == 0 then 0 else Steps(k, j - 1) + Size(k) }

  lemma {:induction false} StepsGrow(k: Bucket, i: nat, j: nat)
    requires i < j
    ensures Steps(k, i) + Size(k) <= Steps(k, j)
    decreases j
  {
    if i < j - 1 {
      StepsGrow(k, i, j - 1);
    }
  }

  lemma {:induction false} StepsTimes(k: Bucket, j: nat)
    ensures Steps(k, j) == j * Size(k)
  {
    if j > 0 {
      StepsTimes(k, j - 1);
    }
  }

  lemma CountFits(k: Bucket)
    ensures Count(k) == PAGE_SIZE / Size(k) && Steps(k, Count(k)) == PAGE_SIZE
  {
    StepsTimes(k, Count(k));
    TablesAgree(k);
  }

  lemma TablesAgree(k: Bucket)
    ensures Count(k) == PAGE_SIZE / Size(k) && Count(k) * Size(k) == PAGE_SIZE
  {
    assert k == 0 || k == 1 || k == 2 || k == 3 || k == 4 || k == 5 || k == 6 || k == 7 || k == 8;
  }

  function Addr(page: nat, k: Bucket, j: nat): nat { page + Steps(k, j) }

  function PageOf(a: nat): nat { a - a % PAGE_SIZE }

  function At(l: seq<nat>, i: nat): nat { if i < |l| then l[i] else 0 }

  predicate Distinct(l: seq<nat>) { forall i, j | 0 <= i < j < |l| :: l[i] != l[j] }

  predicate NextOk(descs: map<nat, Desc>, l: seq<nat>, i: nat)
    requires i < |l|
  {
    l[i] in descs && descs[l[i]].next == At(l, i + 1)
  }

  /** Following next from head lists exactly the descriptors in place w, each once. */
  ghost predicate ListOk(h: Heap, place: map<nat, Where>, head: nat, l: seq<nat>, w: Where) {
    && head == At(l, 0) && Distinct(l)
    && (forall i {:trigger NextOk(h.descs, l, i)} | 0 <= i < |l| :: NextOk(h.descs, l, i))
    && (forall d :: d in l <==> d in place && place[d] == w)
  }

  /** The address of the i-th free slot, 0 behind the last. */
  function SlotAt(page: nat, k: Bucket, fl: seq<nat>, i: nat): nat
  {
    if i < |fl| then Addr(page, k, fl[i]) else 0
  }

  predicate NextSlotOk(words: map<nat, nat>, page: nat, k: Bucket, fl: seq<nat>, i: nat)
    requires i < |fl|
  {
    Addr(page, k, fl[i]) in words && words[Addr(page, k, fl[i])] == SlotAt(page, k, fl, i + 1)
  }

  /** Following the words in the free slots lists exactly them, each once. */
  ghost predicate SlotsOk(words: map<nat, nat>, page: nat, k: Bucket, freeptr: nat, fl: seq<nat>) {
    && freeptr == SlotAt(page, k, fl, 0) && Distinct(fl)
    && (forall j | j in fl :: j < Count(k))
    && (forall i {:trigger NextSlotOk(words, page, k, fl, i)} | 0 <= i < |fl| :: NextSlotOk(words, page, k, fl, i))
  }

  ghost predicate InChain(l: Layout, d: nat) { d in l.place && l.place[d].In? }

  ghost predicate BucketOk(h: Heap, l: Layout, d: nat)
    requires InChain(l, d)
  {
    && d in h.descs && d in l.slots
    && (var b, k := h.descs[d], l.place[d].k;
        && b.page > 0 && b.page % PAGE_SIZE == 0 && b.page in l.owner && l.owner[b.page] == d
        && b.size == Size(k)
        && SlotsOk(h.words, b.page, k, b.freeptr, l.slots[d])
        && |l.slots[d]| <= Count(k) && b.refcnt == Count(k) - |l.slots[d]|)
  }

  ghost predicate ChainOk(h: Heap, l: Layout, k: Bucket)
    requires |h.chains| == |l.chain| == BUCKETS
  {
    ListOk(h, l.place, h.chains[k], l.chain[k], In(k))
  }

  ghost predicate OwnerOk(h: Heap, l: Layout, p: nat)
    requires p in l.owner
  {
    InChain(l, l.owner[p]) && l.owner[p] in h.descs && h.descs[l.owner[p]].page == p
  }

  /** Every next is NULL or a descriptor, also where no list says which. */
  ghost predicate NextsIn(descs: map<nat, Desc>) {
    forall d {:trigger descs[d].next} | d in descs :: descs[d].next == 0 || descs[d].next in descs
  }

  /** A free descriptor counts no object. */
  ghost predicate FreeUnused(h: Heap, l: Layout) {
    forall d {:trigger h.descs[d].refcnt} | d in h.descs && d in l.place && l.place[d] == FreeDesc :: h.descs[d].refcnt == 0
  }

  ghost predicate Inv(h: Heap, l: Layout) { Formed(h, l) && FreeUnused(h, l) }

  /** The lists and the objects are in order, whatever free descriptors count. */
  ghost predicate Formed(h: Heap, l: Layout) {
    && NextsIn(h.descs)
    && |h.chains| == |l.chain| == BUCKETS
    && l.place.Keys == h.descs.Keys && 0 !in h.descs
    && (forall k: Bucket {:trigger ChainOk(h, l, k)} :: ChainOk(h, l, k))
    && ListOk(h, l.place, h.free, l.free, FreeDesc)
    && (forall d {:trigger BucketOk(h, l, d)} | InChain(l, d) :: BucketOk(h, l, d))
    && (forall p {:trigger OwnerOk(h, l, p)} | p in l.owner :: OwnerOk(h, l, p))
    && (forall a | a in h.descs :: PageOf(a) !in l.owner)
  }

  /** Every chained page but perhaps that of descriptor x has an object on it. */
  ghost predicate InUse(l: Layout, x: nat) {
    forall d | InChain(l, d) && d != x :: d in l.slots && |l.slots[d]| < Count(l.place[d].k)
  }

  /** Slot j of descriptor d's page is an allocated object. */
  ghost predicate Live(l: Layout, d: nat, j: nat) {
    InChain(l, d) && d in l.slots && j < Count(l.place[d].k) && j !in l.slots[d]
  }

  ghost function AddrOf(h: Heap, l: Layout, d: nat, j: nat): nat
    requires InChain(l, d) && d in h.descs
  {
    Addr(h.descs[d].page, l.place[d].k, j)
  }

  // ---- what the invariant means -------------------------------------------------------------------

  lemma SlotInPage(page: nat, k: Bucket, j: nat)
    requires j < Count(k) && page % PAGE_SIZE == 0
    ensures page <= Addr(page, k, j) && Addr(page, k, j) + Size(k) <= page + PAGE_SIZE
    ensures PageOf(Addr(page, k, j)) == page
  {
    CountFits(k);
    StepsGrow(k, j, Count(k));
    Inside(page, Steps(k, j));
  }

  lemma Inside(page: nat, x: nat)
    requires page % PAGE_SIZE == 0 && x < PAGE_SIZE
    ensures PageOf(page + x) == page
  {
  }

  lemma SlotsApart(page: nat, k: Bucket, i: nat, j: nat)
    requires i != j
    ensures Addr(page, k, i) + Size(k) <= Addr(page, k, j) || Addr(page, k, j) + Size(k) <= Addr(page, k, i)
  {
    if i < j {
      StepsGrow(k, i, j);
    } else {
      StepsGrow(k, j, i);
    }
  }

  /** Live objects do not overlap, whatever their buckets. */
  lemma ObjectsApart(h: Heap, l: Layout, d: nat, j: nat, e: nat, i: nat)
    requires Inv(h, l) && Live(l, d, j) && Live(l, e, i) && (d, j) != (e, i)
    ensures AddrOf(h, l, d, j) + h.descs[d].size <= AddrOf(h, l, e, i) || AddrOf(h, l, e, i) + h.descs[e].size <= AddrOf(h, l, d, j)
  {
    assert BucketOk(h, l, d) && BucketOk(h, l, e);
    if d == e {
      SlotsApart(h.descs[d].page, l.place[d].k, i, j);
    } else {
      SlotInPage(h.descs[d].page, l.place[d].k, j);
      SlotInPage(h.descs[e].page, l.place[e].k, i);
      PagesApart(h.descs[d].page, h.descs[e].page);
    }
  }

  lemma PagesApart(p: nat, q: nat)
    requires p % PAGE_SIZE == 0 && q % PAGE_SIZE == 0 && p != q
    ensures p + PAGE_SIZE <= q || q + PAGE_SIZE <= p
  {
  }

  predicate AllIn(s: seq<nat>, n: nat) { forall x: nat | x < n :: x in s }

  /** Distinct numbers below n: there are at most n of them, and n only if all are there. */
  lemma {:induction false} Pigeons(s: seq<nat>, n: nat)
    requires Distinct(s) && forall x | x in s :: x < n
    ensures |s| <= n && (|s| == n <==> AllIn(s, n))
    decreases n
  {
    assert |s| > 0 ==> s[0] in s && s[0] < n;
    if n > 0 {
      if n - 1 in s {
        var i :| 0 <= i < |s| && s[i] == n - 1;
        var t := s[..i] + s[i + 1..];
        WithoutOne(s, i, t);
        Pigeons(t, n - 1);
        assert AllIn(t, n - 1) ==> forall x: nat | x < n :: x == n - 1 || x in t;
        forall x: nat | AllIn(s, n) && x < n - 1
          ensures x in t
        {
          assert x in s;
        }
      } else {
        Pigeons(s, n - 1);
        assert AllIn(s, n) ==> n - 1 in s;
      }
    }
  }

  lemma WithoutOne(s: seq<nat>, i: nat, t: seq<nat>)
    requires Distinct(s) && i < |s| && t == s[..i] + s[i + 1..]
    ensures Distinct(t) && forall x: nat :: x in t <==> x in s && x != s[i]
  {
    forall k | 0 <= k < |t|
      ensures t[k] == s[if k < i then k else k + 1]
    {
    }
    forall x: nat | x in s && x != s[i]
      ensures x in t
    {
      var k :| 0 <= k < |s| && s[k] == x;
      assert t[if k < i then k else k - 1] == x;
    }
  }

  /** refcnt counts the live objects: it is 0 exactly when the page has none. */
  lemma RefcntZeroIffDead(h: Heap, l: Layout, d: nat)
    requires Inv(h, l) && InChain(l, d)
    ensures h.descs[d].refcnt == 0 <==> !exists j :: Live(l, d, j)
  {
    assert BucketOk(h, l, d);
    Pigeons(l.slots[d], Count(l.place[d].k));
    if h.descs[d].refcnt != 0 {
      var j :| 0 <= j < Count(l.place[d].k) && j !in l.slots[d];
      assert Live(l, d, j);
    }
  }

  /** Every descriptor is in exactly one of the lists, at one position, unless a task is
      setting it up. */
  lemma OneList(h: Heap, l: Layout, d: nat)
    requires Inv(h, l) && d in h.descs && l.place[d] != Pending
    ensures (d in l.free) != (exists k: Bucket :: d in l.chain[k])
    ensures forall k: Bucket, k': Bucket | d in l.chain[k] && d in l.chain[k'] :: k == k'
  {
    if l.place[d].In? {
      assert ChainOk(h, l, l.place[d].k) && d in l.chain[l.place[d].k];
    }
    forall k: Bucket, k': Bucket | d in l.chain[k] && d in l.chain[k']
      ensures k == k'
    {
      assert ChainOk(h, l, k) && ChainOk(h, l, k');
    }
    forall k: Bucket | d in l.chain[k]
      ensures d !in l.free
    {
      assert ChainOk(h, l, k);
    }
  }

  // ---- one task's part, and what it may rely on ------------------------------------------------------

  datatype Obj = Obj(d: nat, j: nat)

  /** The objects a task has, by address, and the descriptors it is setting up. */
  datatype View = View(mine: map<nat, Obj>, held: set<nat>)

  ghost predicate Mine(h: Heap, l: Layout, v: View, a: nat)
    requires a in v.mine
  {
    var o := v.mine[a];
    Live(l, o.d, o.j) && o.d in h.descs && a == AddrOf(h, l, o.d, o.j)
  }

  ghost predicate ViewOk(h: Heap, l: Layout, v: View) {
    && (forall a {:trigger Mine(h, l, v, a)} | a in v.mine :: Mine(h, l, v, a))
    && (forall d | d in v.held :: d in l.place && l.place[d] == Pending)
  }

  /** e's next leads to d only from inside d's chain. */
  ghost predicate Sane(h: Heap, l: Layout, e: nat, d: nat) {
    e in h.descs && e in l.place && d in l.place && (h.descs[e].next == d ==> l.place[e] == l.place[d])
  }

  /** e is in d's chain, somewhere after d. */
  ghost predicate Behind(l: Layout, e: nat, d: nat) {
    InChain(l, d) && |l.chain| == BUCKETS && Later(l.chain[l.place[d].k], e, d)
  }

  ghost predicate Later(c: seq<nat>, e: nat, d: nat) { exists i, j :: 0 <= i < j < |c| && c[i] == d && c[j] == e }

  ghost predicate SameBytes(h: Heap, g: Heap, a: nat, n: nat) {
    forall x | a <= x < a + n :: (x in h.words <==> x in g.words) && (x in h.words ==> g.words[x] == h.words[x])
  }

  /** A task's object is where it was, as large as it was and holds what it held; and nothing
      comes to lie behind its descriptor in the chain. */
  ghost predicate ObjKept(h: Heap, l: Layout, g: Heap, m: Layout, v: View, a: nat)
    requires a in v.mine
  {
    var d := v.mine[a].d;
    && InChain(l, d) && InChain(m, d) && d in h.descs && d in g.descs
    && m.place[d] == l.place[d] && g.descs[d].page == h.descs[d].page
    && SameBytes(h, g, a, Size(l.place[d].k))
    && (forall e {:trigger Sane(g, m, e, d)} :: Sane(h, l, e, d) ==> Sane(g, m, e, d))
    && (forall e {:trigger Behind(m, e, d)} :: Behind(m, e, d) ==> Behind(l, e, d))
  }

  /** What the holder of v need not fear from a step: its objects, their contents and the
      descriptors it is setting up stay. */
  ghost predicate Keeps(h: Heap, l: Layout, g: Heap, m: Layout, v: View) {
    && Inv(g, m) && ViewOk(g, m, v)
    && h.descs.Keys <= g.descs.Keys
    && (forall a {:trigger ObjKept(h, l, g, m, v, a)} | a in v.mine :: ObjKept(h, l, g, m, v, a))
    && (forall d | d in v.held :: d in h.descs && g.descs[d] == h.descs[d])
  }

  lemma KeepsTransitive(h: Heap, l: Layout, h1: Heap, l1: Layout, h2: Heap, l2: Layout, v: View)
    requires Keeps(h, l, h1, l1, v) && Keeps(h1, l1, h2, l2, v)
    ensures Keeps(h, l, h2, l2, v)
  {
    forall a | a in v.mine
      ensures ObjKept(h, l, h2, l2, v, a)
    {
      assert ObjKept(h, l, h1, l1, v, a) && ObjKept(h1, l1, h2, l2, v, a);
      var d := v.mine[a].d;
      forall e | Sane(h, l, e, d)
        ensures Sane(h2, l2, e, d)
      {
        assert Sane(h1, l1, e, d);
      }
    }
  }

  lemma KeepsNothing(h: Heap, l: Layout, v: View)
    requires Inv(h, l) && ViewOk(h, l, v)
    ensures Keeps(h, l, h, l, v)
  {
    forall a | a in v.mine
      ensures ObjKept(h, l, h, l, v, a)
    {
      assert Mine(h, l, v, a);
    }
  }

  /** A page nobody uses here. */
  ghost predicate FreshPage(h: Heap, l: Layout, p: nat) {
    p > 0 && p % PAGE_SIZE == 0 && p !in l.owner && forall a | a in h.descs :: PageOf(a) != p
  }
}
