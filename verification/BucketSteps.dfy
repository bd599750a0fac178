/** The atomic steps of malloc and free_s, each of which keeps the lists and is harmless to
    every other task. */
module BucketSteps {
  import opened BucketModel

  // ---- lists ----------------------------------------------------------------------------------------

  lemma ListFrame(h: Heap, place: map<nat, Where>, g: Heap, place': map<nat, Where>, head: nat, l: seq<nat>, w: Where)
    requires ListOk(h, place, head, l, w)
    requires forall d | d in l :: d in g.descs && (d in h.descs ==> g.descs[d].next == h.descs[d].next)
    requires forall d :: (d in place' && place'[d] == w) <==> (d in place && place[d] == w)
    ensures ListOk(g, place', head, l, w)
  {
    forall i | 0 <= i < |l|
      ensures NextOk(g.descs, l, i)
    {
      assert NextOk(h.descs, l, i) && l[i] in l;
    }
  }

  lemma ListPush(h: Heap, place: map<nat, Where>, g: Heap, place': map<nat, Where>, head: nat, l: seq<nat>, w: Where, d: nat)
    requires ListOk(h, place, head, l, w) && d !in l && d != 0
    requires d in g.descs && g.descs[d].next == head
    requires forall e | e in l :: e in g.descs && (e in h.descs ==> g.descs[e].next == h.descs[e].next)
    requires forall e :: (e in place' && place'[e] == w) <==> e == d || (e in place && place[e] == w)
    ensures ListOk(g, place', d, [d] + l, w)
  {
    var m := [d] + l;
    forall i | 0 <= i < |m|
      ensures NextOk(g.descs, m, i)
    {
      if i > 0 {
        assert NextOk(h.descs, l, i - 1) && l[i - 1] in l;
      }
    }
    assert forall e :: e in m <==> e == d || e in l;
  }

  lemma ListRemove(h: Heap, place: map<nat, Where>, g: Heap, place': map<nat, Where>, head: nat, l: seq<nat>, w: Where, i: nat)
    requires ListOk(h, place, head, l, w) && i < |l|
    requires forall e | e in l && e != l[i] :: e in g.descs && (e in h.descs ==>
      g.descs[e].next == if i > 0 && e == l[i - 1] then At(l, i + 1) else h.descs[e].next)
    requires forall e :: (e in place' && place'[e] == w) <==> e != l[i] && e in place && place[e] == w
    ensures ListOk(g, place', if i == 0 then At(l, 1) else head, l[..i] + l[i + 1..], w)
  {
    var m := l[..i] + l[i + 1..];
    forall n | 0 <= n < |m|
      ensures NextOk(g.descs, m, n)
    {
      var o := if n < i then n else n + 1;
      assert m[n] == l[o] && l[o] in l && NextOk(h.descs, l, o);
    }
    forall e
      ensures e in m <==> e in l && e != l[i]
    {
      if e in l && e != l[i] {
        var n :| 0 <= n < |l| && l[n] == e;
        assert m[if n < i then n else n - 1] == e;
      }
    }
  }

  // ---- views ------------------------------------------------------------------------------------------

  /** A step that leaves memory, chains and slots of a task's objects alone. */
  lemma QuietKeeps(h: Heap, l: Layout, g: Heap, m: Layout, v: View)
    requires Inv(h, l) && Inv(g, m) && ViewOk(h, l, v) && h.descs.Keys <= g.descs.Keys
    requires forall d | d in v.held :: d in m.place && m.place[d] == Pending && g.descs[d] == h.descs[d]
    requires forall a | a in v.mine :: Steady(h, l, g, m, v.mine[a]) && SameBytes(h, g, a, Size(l.place[v.mine[a].d].k))
    requires forall e, a {:trigger Sane(g, m, e, v.mine[a].d)} | a in v.mine && Sane(h, l, e, v.mine[a].d) :: Sane(g, m, e, v.mine[a].d)
    requires forall e, a {:trigger Behind(m, e, v.mine[a].d)} | a in v.mine && Behind(m, e, v.mine[a].d) :: Behind(l, e, v.mine[a].d)
    ensures Keeps(h, l, g, m, v)
  {
    forall a | a in v.mine
      ensures ObjKept(h, l, g, m, v, a) && Mine(g, m, v, a)
    {
      assert Mine(h, l, v, a) && Steady(h, l, g, m, v.mine[a]);
    }
  }

  /** An object's descriptor stays in its chain with its page and its slot stays taken. */
  ghost predicate Steady(h: Heap, l: Layout, g: Heap, m: Layout, o: Obj) {
    && InChain(l, o.d) && InChain(m, o.d) && o.d in h.descs && o.d in g.descs && m.place[o.d] == l.place[o.d]
    && g.descs[o.d].page == h.descs[o.d].page && (Live(l, o.d, o.j) ==> Live(m, o.d, o.j))
  }

  // ---- a free descriptor is taken ---------------------------------------------------------------------

  ghost predicate CanPop(h: Heap, l: Layout, k: Bucket) { Inv(h, l) && h.free != 0 }

  function Popped(h: Heap, k: Bucket): Heap
    requires h.free in h.descs
  {
    h.(descs := h.descs[h.free := h.descs[h.free].(refcnt := 0, size := Size(k))], free := h.descs[h.free].next)
  }

  ghost function PoppedLayout(h: Heap, l: Layout): Layout
    requires |l.free| > 0
  {
    l.(free := l.free[1..], place := l.place[h.free := Pending])
  }

  lemma PopFacts(h: Heap, l: Layout)
    requires Inv(h, l) && h.free != 0
    ensures |l.free| > 0 && l.free[0] == h.free && h.free in h.descs && h.free in l.place && l.place[h.free] == FreeDesc
    ensures h.descs[h.free].next == At(l.free, 1)
  {
    assert NextOk(h.descs, l.free, 0);
    assert l.free[0] in l.free;
  }

  lemma PopOk(h: Heap, l: Layout, k: Bucket)
    requires CanPop(h, l, k)
    ensures h.free in h.descs && |l.free| > 0 && Inv(Popped(h, k), PoppedLayout(h, l))
  {
    PopFacts(h, l);
    var g, m := Popped(h, k), PoppedLayout(h, l);
    PopLists(h, l, k);
    forall p' | p' in m.owner
      ensures OwnerOk(g, m, p')
    {
      assert OwnerOk(h, l, p');
    }
    forall d | InChain(m, d)
      ensures BucketOk(g, m, d)
    {
      assert BucketOk(h, l, d);
    }
  }

  lemma PopLists(h: Heap, l: Layout, k: Bucket)
    requires CanPop(h, l, k) && h.free in h.descs && |l.free| > 0
    ensures var g, m := Popped(h, k), PoppedLayout(h, l);
      (forall b: Bucket {:trigger ChainOk(g, m, b)} :: ChainOk(g, m, b)) && ListOk(g, m.place, g.free, m.free, FreeDesc)
  {
    PopFacts(h, l);
    var g, m := Popped(h, k), PoppedLayout(h, l);
    ListRemove(h, l.place, g, m.place, h.free, l.free, FreeDesc, 0);
    assert l.free[..0] + l.free[1..] == l.free[1..];
    forall b: Bucket
      ensures ChainOk(g, m, b)
    {
      assert ChainOk(h, l, b);
      ListFrame(h, l.place, g, m.place, h.chains[b], l.chain[b], In(b));
    }
  }

  lemma PopKeeps(h: Heap, l: Layout, k: Bucket, v: View)
    requires CanPop(h, l, k) && ViewOk(h, l, v)
    ensures h.free in h.descs && |l.free| > 0 && l.place[h.free] == FreeDesc && Keeps(h, l, Popped(h, k), PoppedLayout(h, l), v)
  {
    PopFacts(h, l);
    PopOk(h, l, k);
    assert forall a | a in v.mine :: Mine(h, l, v, a);
    QuietKeeps(h, l, Popped(h, k), PoppedLayout(h, l), v);
  }

  // ---- a descriptor gets its page and joins its chain ---------------------------------------------------

  /** The first n slots of a page are threaded, each to the next. */
  ghost predicate Threaded(before: map<nat, nat>, words: map<nat, nat>, p: nat, k: Bucket, n: nat)
  {
    && before.Keys <= words.Keys
    && (forall j {:trigger SlotThreaded(words, p, k, j)} | 0 <= j < n :: SlotThreaded(words, p, k, j))
    && (forall x | x in words && !(p <= x < p + PAGE_SIZE) :: x in before && words[x] == before[x])
  }

  ghost predicate SlotThreaded(words: map<nat, nat>, p: nat, k: Bucket, j: nat) {
    Addr(p, k, j) in words && words[Addr(p, k, j)] == if j + 1 < Count(k) then Addr(p, k, j + 1) else 0
  }

  function Iota(n: nat): (s: seq<nat>)
    ensures |s| == n && (forall i | 0 <= i < n :: s[i] == i) && (forall x: nat :: x in s <==> x < n)
  {
    if n == 0 then [] else Iota(n - 1) + [n - 1]
  }

  ghost predicate CanOpen(h: Heap, l: Layout, d: nat, k: Bucket, p: nat, words: map<nat, nat>) {
    && Inv(h, l)  && d in l.place && l.place[d] == Pending && FreshPage(h, l, p)
    && Threaded(h.words, words, p, k, Count(k))
  }

  function Opened(h: Heap, d: nat, k: Bucket, p: nat, words: map<nat, nat>): Heap
    requires BUCKETS == |h.chains|
  {
    h.(descs := h.descs[d := Desc(p, h.chains[k], p, 0, Size(k))], chains := h.chains[k := d], words := words)
  }

  ghost function OpenedLayout(l: Layout, d: nat, k: Bucket, p: nat): Layout
    requires BUCKETS == |l.chain|
  {
    l.(chain := l.chain[k := [d] + l.chain[k]], slots := l.slots[d := Iota(Count(k))], place := l.place[d := In(k)],
       owner := l.owner[p := d])
  }

  /** Free lists of other pages do not notice. */
  lemma SlotsElsewhere(words: map<nat, nat>, words': map<nat, nat>, page: nat, k: Bucket, freeptr: nat, fl: seq<nat>)
    requires page % PAGE_SIZE == 0 && SlotsOk(words, page, k, freeptr, fl)
    requires forall x | page <= x < page + PAGE_SIZE && x in words :: x in words' && words'[x] == words[x]
    ensures SlotsOk(words', page, k, freeptr, fl)
  {
    forall i | 0 <= i < |fl|
      ensures NextSlotOk(words', page, k, fl, i)
    {
      assert NextSlotOk(words, page, k, fl, i) && fl[i] in fl;
      SlotInPage(page, k, fl[i]);
    }
  }

  lemma OpenSlots(h: Heap, l: Layout, d: nat, k: Bucket, p: nat, words: map<nat, nat>)
    requires CanOpen(h, l, d, k, p, words)
    ensures SlotsOk(words, p, k, p, Iota(Count(k)))
  {
    var fl := Iota(Count(k));
    CountFits(k);
    assert Addr(p, k, 0) == p;
    forall i | 0 <= i < |fl|
      ensures NextSlotOk(words, p, k, fl, i)
    {
      assert SlotThreaded(words, p, k, i);
    }
  }

  lemma OpenLists(h: Heap, l: Layout, d: nat, k: Bucket, p: nat, words: map<nat, nat>)
    requires CanOpen(h, l, d, k, p, words)
    ensures var g, m := Opened(h, d, k, p, words), OpenedLayout(l, d, k, p);
      (forall b: Bucket {:trigger ChainOk(g, m, b)} :: ChainOk(g, m, b)) && ListOk(g, m.place, g.free, m.free, FreeDesc)
  {
    var g, m := Opened(h, d, k, p, words), OpenedLayout(l, d, k, p);
    forall b: Bucket
      ensures ChainOk(g, m, b)
    {
      if b == k {
        assert ChainOk(h, l, k);
        ListPush(h, l.place, g, m.place, h.chains[k], l.chain[k], In(k), d);
      } else {
        assert ChainOk(h, l, b);
        ListFrame(h, l.place, g, m.place, h.chains[b], l.chain[b], In(b));
      }
    }
    ListFrame(h, l.place, g, m.place, h.free, l.free, FreeDesc);
  }

  /** The head of a chain, and of the free descriptors, is a descriptor or NULL. */
  lemma HeadIn(h: Heap, l: Layout, k: Bucket)
    requires Formed(h, l)
    ensures (h.chains[k] == 0 || h.chains[k] in h.descs) && (h.free == 0 || h.free in h.descs)
  {
    assert ChainOk(h, l, k);
    assert l.chain[k] != [] ==> NextOk(h.descs, l.chain[k], 0);
    assert l.free != [] ==> NextOk(h.descs, l.free, 0);
  }

  lemma OpenOk(h: Heap, l: Layout, d: nat, k: Bucket, p: nat, words: map<nat, nat>)
    requires CanOpen(h, l, d, k, p, words)
    ensures Inv(Opened(h, d, k, p, words), OpenedLayout(l, d, k, p))
  {
    var g, m := Opened(h, d, k, p, words), OpenedLayout(l, d, k, p);
    OpenLists(h, l, d, k, p, words);
    HeadIn(h, l, k);
    forall p' | p' in m.owner
      ensures OwnerOk(g, m, p')
    {
      assert p' in l.owner ==> OwnerOk(h, l, p');
    }
    forall e | InChain(m, e)
      ensures BucketOk(g, m, e)
    {
      OpenBuckets(h, l, d, k, p, words, e);
    }
  }

  lemma OpenBuckets(h: Heap, l: Layout, d: nat, k: Bucket, p: nat, words: map<nat, nat>, e: nat)
    requires CanOpen(h, l, d, k, p, words) && InChain(OpenedLayout(l, d, k, p), e)
    ensures BucketOk(Opened(h, d, k, p, words), OpenedLayout(l, d, k, p), e)
  {
    if e == d {
      OpenSlots(h, l, d, k, p, words);
      CountFits(k);
    } else {
      assert BucketOk(h, l, e);
      PagesApart(p, h.descs[e].page);
      SlotsElsewhere(h.words, words, h.descs[e].page, l.place[e].k, h.descs[e].freeptr, l.slots[e]);
    }
  }

  lemma OpenKeeps(h: Heap, l: Layout, d: nat, k: Bucket, p: nat, words: map<nat, nat>, v: View)
    requires CanOpen(h, l, d, k, p, words) && ViewOk(h, l, v) && d !in v.held
    ensures Keeps(h, l, Opened(h, d, k, p, words), OpenedLayout(l, d, k, p), v)
  {
    OpenOk(h, l, d, k, p, words);
    forall a | a in v.mine
      ensures Steady(h, l, Opened(h, d, k, p, words), OpenedLayout(l, d, k, p), v.mine[a])
      ensures SameBytes(h, Opened(h, d, k, p, words), a, Size(l.place[v.mine[a].d].k))
    {
      assert Mine(h, l, v, a);
      OpenSteady(h, l, d, k, p, words, v.mine[a]);
    }
    forall e, a | a in v.mine && Sane(h, l, e, v.mine[a].d)
      ensures Sane(Opened(h, d, k, p, words), OpenedLayout(l, d, k, p), e, v.mine[a].d)
    {
      assert Mine(h, l, v, a);
      OpenSane(h, l, d, k, p, words, e, v.mine[a].d);
    }
    forall e, a | a in v.mine && Behind(OpenedLayout(l, d, k, p), e, v.mine[a].d)
      ensures Behind(l, e, v.mine[a].d)
    {
      assert Mine(h, l, v, a);
      OpenBehind(l, d, k, p, e, v.mine[a].d);
    }
    QuietKeeps(h, l, Opened(h, d, k, p, words), OpenedLayout(l, d, k, p), v);
  }

  /** A new descriptor comes first. */
  lemma OpenBehind(l: Layout, d: nat, k: Bucket, p: nat, e: nat, x: nat)
    requires |l.chain| == BUCKETS && d in l.place && l.place[d] == Pending && InChain(l, x)
    requires Behind(OpenedLayout(l, d, k, p), e, x)
    ensures Behind(l, e, x)
  {
    var b := l.place[x].k;
    var c, c' := l.chain[b], OpenedLayout(l, d, k, p).chain[b];
    LaterInTail(d, c, e, x);
    assert c' == if b == k then [d] + c else c;
  }

  lemma LaterInTail(d: nat, c: seq<nat>, e: nat, x: nat)
    requires x != d
    ensures Later([d] + c, e, x) ==> Later(c, e, x)
  {
    var c' := [d] + c;
    if Later(c', e, x) {
      var i, j :| 0 <= i < j < |c'| && c'[i] == x && c'[j] == e;
      assert c[i - 1] == x && c[j - 1] == e;
    }
  }

  lemma OpenSteady(h: Heap, l: Layout, d: nat, k: Bucket, p: nat, words: map<nat, nat>, o: Obj)
    requires CanOpen(h, l, d, k, p, words) && Live(l, o.d, o.j)
    ensures o.d in h.descs && Steady(h, l, Opened(h, d, k, p, words), OpenedLayout(l, d, k, p), o)
    ensures SameBytes(h, Opened(h, d, k, p, words), AddrOf(h, l, o.d, o.j), Size(l.place[o.d].k))
  {
    assert BucketOk(h, l, o.d);
    SlotInPage(h.descs[o.d].page, l.place[o.d].k, o.j);
    PagesApart(p, h.descs[o.d].page);
  }

  lemma OpenSane(h: Heap, l: Layout, d: nat, k: Bucket, p: nat, words: map<nat, nat>, e: nat, x: nat)
    requires CanOpen(h, l, d, k, p, words) && InChain(l, x) && Sane(h, l, e, x)
    ensures Sane(Opened(h, d, k, p, words), OpenedLayout(l, d, k, p), e, x)
  {
    assert ChainOk(h, l, k);
    assert l.chain[k] != [] ==> l.chain[k][0] in l.chain[k];
  }

  // ---- an object is taken -------------------------------------------------------------------------------

  ghost predicate CanTake(h: Heap, l: Layout, d: nat) {
    Inv(h, l) && InChain(l, d) && d in h.descs && h.descs[d].freeptr != 0
  }

  function Took(h: Heap, d: nat): Heap
    requires d in h.descs && h.descs[d].freeptr in h.words
  {
    h.(descs := h.descs[d := h.descs[d].(freeptr := h.words[h.descs[d].freeptr], refcnt := h.descs[d].refcnt + 1)])
  }

  ghost function TookLayout(l: Layout, d: nat): Layout
    requires d in l.slots && |l.slots[d]| > 0
  {
    l.(slots := l.slots[d := l.slots[d][1..]])
  }

  lemma TakeFacts(h: Heap, l: Layout, d: nat)
    requires CanTake(h, l, d)
    ensures d in l.slots && |l.slots[d]| > 0 && h.descs[d].freeptr in h.words && l.slots[d][0] < Count(l.place[d].k)
    ensures h.descs[d].freeptr == AddrOf(h, l, d, l.slots[d][0])
    ensures Inv(Took(h, d), TookLayout(l, d)) && Live(TookLayout(l, d), d, l.slots[d][0]) && !Live(l, d, l.slots[d][0])
  {
    assert BucketOk(h, l, d);
    var b, k, fl := h.descs[d], l.place[d].k, l.slots[d];
    assert NextSlotOk(h.words, b.page, k, fl, 0) && fl[0] in fl;
    var g, m := Took(h, d), TookLayout(l, d);
    forall w: Bucket
      ensures ChainOk(g, m, w)
    {
      assert ChainOk(h, l, w);
      ListFrame(h, l.place, g, m.place, h.chains[w], l.chain[w], In(w));
    }
    ListFrame(h, l.place, g, m.place, h.free, l.free, FreeDesc);
    assert forall j | j in fl[1..] :: j in fl;
    forall i | 0 <= i < |fl| - 1
      ensures NextSlotOk(g.words, b.page, k, fl[1..], i)
    {
      assert NextSlotOk(h.words, b.page, k, fl, i + 1);
    }
    forall p' | p' in m.owner
      ensures OwnerOk(g, m, p')
    {
      assert OwnerOk(h, l, p');
    }
    forall e | InChain(m, e)
      ensures BucketOk(g, m, e)
    {
      assert BucketOk(h, l, e);
    }
  }

  lemma TakeKeeps(h: Heap, l: Layout, d: nat, v: View)
    requires CanTake(h, l, d) && ViewOk(h, l, v)
    ensures d in l.slots && |l.slots[d]| > 0 && h.descs[d].freeptr in h.words
    ensures Keeps(h, l, Took(h, d), TookLayout(l, d), v)
  {
    TakeFacts(h, l, d);
    assert forall a | a in v.mine :: Mine(h, l, v, a);
    QuietKeeps(h, l, Took(h, d), TookLayout(l, d), v);
  }

  // ---- an object is given back ----------------------------------------------------------------------------

  ghost predicate CanGive(h: Heap, l: Layout, d: nat, j: nat) { Inv(h, l) && Live(l, d, j) }

  function Gave(h: Heap, d: nat, obj: nat): Heap
    requires d in h.descs && h.descs[d].refcnt > 0
  {
    h.(words := h.words[obj := h.descs[d].freeptr],
       descs := h.descs[d := h.descs[d].(freeptr := obj, refcnt := h.descs[d].refcnt - 1)])
  }

  ghost function GaveLayout(l: Layout, d: nat, j: nat): Layout
    requires d in l.slots
  {
    l.(slots := l.slots[d := [j] + l.slots[d]])
  }

  lemma GiveSlots(h: Heap, l: Layout, d: nat, j: nat)
    requires CanGive(h, l, d, j)
    ensures d in h.descs && h.descs[d].refcnt > 0
    ensures var g := Gave(h, d, AddrOf(h, l, d, j));
      SlotsOk(g.words, h.descs[d].page, l.place[d].k, AddrOf(h, l, d, j), [j] + l.slots[d])
    ensures |l.slots[d]| < Count(l.place[d].k)
  {
    assert BucketOk(h, l, d);
    var b, k, fl := h.descs[d], l.place[d].k, l.slots[d];
    Pigeons(fl, Count(k));
    var fl', g := [j] + fl, Gave(h, d, AddrOf(h, l, d, j));
    forall i | 0 <= i < |fl'|
      ensures NextSlotOk(g.words, b.page, k, fl', i)
    {
      if i > 0 {
        assert NextSlotOk(h.words, b.page, k, fl, i - 1) && fl[i - 1] in fl;
        SlotsApart(b.page, k, j, fl[i - 1]);
      }
    }
  }

  lemma GiveOk(h: Heap, l: Layout, d: nat, j: nat)
    requires CanGive(h, l, d, j)
    ensures d in h.descs && h.descs[d].refcnt > 0
    ensures Inv(Gave(h, d, AddrOf(h, l, d, j)), GaveLayout(l, d, j))
  {
    GiveSlots(h, l, d, j);
    assert BucketOk(h, l, d);
    var obj := AddrOf(h, l, d, j);
    var g, m := Gave(h, d, obj), GaveLayout(l, d, j);
    forall w: Bucket
      ensures ChainOk(g, m, w)
    {
      assert ChainOk(h, l, w);
      ListFrame(h, l.place, g, m.place, h.chains[w], l.chain[w], In(w));
    }
    ListFrame(h, l.place, g, m.place, h.free, l.free, FreeDesc);
    SlotInPage(h.descs[d].page, l.place[d].k, j);
    forall p' | p' in m.owner
      ensures OwnerOk(g, m, p')
    {
      assert OwnerOk(h, l, p');
    }
    forall e | InChain(m, e)
      ensures BucketOk(g, m, e)
    {
      assert BucketOk(h, l, e);
      if e != d {
        SlotsElsewhere(h.words, g.words, h.descs[e].page, l.place[e].k, h.descs[e].freeptr, l.slots[e]);
      }
    }
  }

  lemma GiveKeeps(h: Heap, l: Layout, d: nat, j: nat, v: View)
    requires CanGive(h, l, d, j) && ViewOk(h, l, v)
    requires forall a | a in v.mine :: v.mine[a] != Obj(d, j)
    ensures d in h.descs && h.descs[d].refcnt > 0
    ensures Keeps(h, l, Gave(h, d, AddrOf(h, l, d, j)), GaveLayout(l, d, j), v)
  {
    GiveOk(h, l, d, j);
    var g, m := Gave(h, d, AddrOf(h, l, d, j)), GaveLayout(l, d, j);
    forall a | a in v.mine
      ensures Steady(h, l, g, m, v.mine[a]) && SameBytes(h, g, a, Size(l.place[v.mine[a].d].k))
    {
      assert Mine(h, l, v, a);
      var o := v.mine[a];
      assert BucketOk(h, l, o.d) && BucketOk(h, l, d);
      ObjectsApart(h, l, d, j, o.d, o.j);
    }
    QuietKeeps(h, l, g, m, v);
  }

  // ---- an empty page is given back --------------------------------------------------------------------------

  ghost predicate CanClose(h: Heap, l: Layout, k: Bucket, i: nat) {
    Inv(h, l)  && i < |l.chain[k]| && l.chain[k][i] in h.descs && h.descs[l.chain[k][i]].refcnt == 0
  }

  /** The descriptor after prev (the first, for 0) leaves its chain and joins the free
      descriptors. */
  function Closed(h: Heap, k: Bucket, prev: nat, d: nat): Heap
    requires BUCKETS == |h.chains| && d in h.descs && (prev != 0 ==> prev in h.descs)
  {
    var b := h.descs[d];
    var h1 := if prev != 0 then h.(descs := h.descs[prev := h.descs[prev].(next := b.next)])
              else h.(chains := h.chains[k := b.next]);
    h1.(descs := h1.descs[d := b.(next := h.free)], free := d)
  }

  ghost function ClosedLayout(h: Heap, l: Layout, k: Bucket, i: nat): Layout
    requires BUCKETS == |l.chain| && i < |l.chain[k]| && l.chain[k][i] in h.descs
  {
    var c, d := l.chain[k], l.chain[k][i];
    l.(chain := l.chain[k := c[..i] + c[i + 1..]], free := [d] + l.free, place := l.place[d := FreeDesc],
       owner := l.owner - {h.descs[d].page})
  }

  ghost function Prev(l: Layout, k: Bucket, i: nat): nat
    requires BUCKETS == |l.chain| && i < |l.chain[k]|
  {
    if i == 0 then 0 else l.chain[k][i - 1]
  }

  lemma CloseFacts(h: Heap, l: Layout, k: Bucket, i: nat)
    requires CanClose(h, l, k, i)
    ensures InChain(l, l.chain[k][i]) && l.place[l.chain[k][i]] == In(k)
    ensures h.descs[l.chain[k][i]].next == At(l.chain[k], i + 1)
    ensures Prev(l, k, i) != l.chain[k][i]
    ensures i > 0 ==> Prev(l, k, i) in h.descs && Prev(l, k, i) != 0 && l.place[Prev(l, k, i)] == In(k)
  {
    var c := l.chain[k];
    assert ChainOk(h, l, k) && NextOk(h.descs, c, i) && c[i] in c;
    if i > 0 {
      assert NextOk(h.descs, c, i - 1) && c[i - 1] in c;
    }
  }

  lemma CloseLists(h: Heap, l: Layout, k: Bucket, i: nat)
    requires CanClose(h, l, k, i)
    ensures i > 0 ==> Prev(l, k, i) in h.descs && Prev(l, k, i) != 0
    ensures var g, m := Closed(h, k, Prev(l, k, i), l.chain[k][i]), ClosedLayout(h, l, k, i);
      && (forall b: Bucket {:trigger ChainOk(g, m, b)} :: ChainOk(g, m, b))
      && ListOk(g, m.place, g.free, m.free, FreeDesc)
  {
    CloseFacts(h, l, k, i);
    var c, d := l.chain[k], l.chain[k][i];
    var g, m := Closed(h, k, Prev(l, k, i), d), ClosedLayout(h, l, k, i);
    forall b: Bucket
      ensures ChainOk(g, m, b)
    {
      if b == k {
        assert ChainOk(h, l, k);
        ListRemove(h, l.place, g, m.place, h.chains[k], c, In(k), i);
      } else {
        assert ChainOk(h, l, b);
        ListFrame(h, l.place, g, m.place, h.chains[b], l.chain[b], In(b));
      }
    }
    ListPush(h, l.place, g, m.place, h.free, l.free, FreeDesc, d);
  }

  lemma CloseOk(h: Heap, l: Layout, k: Bucket, i: nat)
    requires CanClose(h, l, k, i)
    ensures i > 0 ==> Prev(l, k, i) in h.descs && Prev(l, k, i) != 0
    ensures Inv(Closed(h, k, Prev(l, k, i), l.chain[k][i]), ClosedLayout(h, l, k, i))
  {
    CloseLists(h, l, k, i);
    CloseFacts(h, l, k, i);
    var d := l.chain[k][i];
    var g, m := Closed(h, k, Prev(l, k, i), d), ClosedLayout(h, l, k, i);
    assert BucketOk(h, l, d);
    forall p' | p' in m.owner
      ensures OwnerOk(g, m, p')
    {
      assert OwnerOk(h, l, p');
    }
    forall e | InChain(m, e)
      ensures BucketOk(g, m, e)
    {
      assert BucketOk(h, l, e);
    }
  }

  lemma CloseKeeps(h: Heap, l: Layout, k: Bucket, i: nat, v: View)
    requires CanClose(h, l, k, i) && ViewOk(h, l, v)
    ensures i > 0 ==> Prev(l, k, i) in h.descs && Prev(l, k, i) != 0
    ensures Keeps(h, l, Closed(h, k, Prev(l, k, i), l.chain[k][i]), ClosedLayout(h, l, k, i), v)
  {
    CloseOk(h, l, k, i);
    CloseFacts(h, l, k, i);
    var d := l.chain[k][i];
    var g, m := Closed(h, k, Prev(l, k, i), d), ClosedLayout(h, l, k, i);
    forall a | a in v.mine
      ensures Steady(h, l, g, m, v.mine[a]) && SameBytes(h, g, a, Size(l.place[v.mine[a].d].k))
    {
      assert Mine(h, l, v, a);
      RefcntZeroIffDead(h, l, d);
    }
    forall e, a | a in v.mine && Sane(h, l, e, v.mine[a].d)
      ensures Sane(g, m, e, v.mine[a].d)
    {
      assert Steady(h, l, g, m, v.mine[a]);
      CloseSane(h, l, k, i, e, v.mine[a].d);
    }
    forall e, a | a in v.mine && Behind(m, e, v.mine[a].d)
      ensures Behind(l, e, v.mine[a].d)
    {
      assert Steady(h, l, g, m, v.mine[a]);
      CloseBehind(h, l, k, i, e, v.mine[a].d);
    }
    QuietKeeps(h, l, g, m, v);
  }

  lemma CloseBehind(h: Heap, l: Layout, k: Bucket, i: nat, e: nat, x: nat)
    requires CanClose(h, l, k, i) && InChain(l, x) && x != l.chain[k][i] && Behind(ClosedLayout(h, l, k, i), e, x)
    ensures Behind(l, e, x)
  {
    var b := l.place[x].k;
    var c, c' := l.chain[b], ClosedLayout(h, l, k, i).chain[b];
    var y, z :| 0 <= y < z < |c'| && c'[y] == x && c'[z] == e;
    if b == k {
      var y0, z0 := if y < i then y else y + 1, if z < i then z else z + 1;
      assert c[y0] == x && c[z0] == e;
    }
  }

  lemma CloseSane(h: Heap, l: Layout, k: Bucket, i: nat, e: nat, d: nat)
    requires CanClose(h, l, k, i) && InChain(l, d) && d != l.chain[k][i] && Sane(h, l, e, d)
    requires i > 0 ==> Prev(l, k, i) in h.descs && Prev(l, k, i) != 0
    ensures Sane(Closed(h, k, Prev(l, k, i), l.chain[k][i]), ClosedLayout(h, l, k, i), e, d)
  {
    CloseFacts(h, l, k, i);
    var c := l.chain[k];
    assert ChainOk(h, l, k);
    if i > 0 && e == c[i - 1] && At(c, i + 1) == d {
      assert c[i + 1] in c;
    }
    assert l.free != [] ==> l.free[0] in l.free;
  }

  // ---- a page of descriptors is added -------------------------------------------------------------------------

  const PER_PAGE: nat := 256

  ghost predicate CanInit(h: Heap, l: Layout, p: nat) { Inv(h, l) && FreshPage(h, l, p) }

  function DescAt(p: nat, n: nat): nat { p + n * DESC_SIZE }

  function NewDescs(p: nat): (s: seq<nat>)
    ensures |s| == PER_PAGE && forall n | 0 <= n < PER_PAGE :: s[n] == DescAt(p, n)
  {
    seq(PER_PAGE, (i: nat) => DescAt(p, i))
  }

  function NewSet(p: nat): set<nat> { set n: nat | n < PER_PAGE :: DescAt(p, n) }

  /** What init_bucket_desc leaves: 256 more descriptors in front of the free list. */
  ghost predicate Initialised(h: Heap, g: Heap, p: nat) {
    && g.chains == h.chains && g.words == h.words && g.free == p
    && g.descs.Keys == h.descs.Keys + NewSet(p)
    && (forall d | d in h.descs :: d in g.descs && g.descs[d] == h.descs[d])
    && (forall n {:trigger NewNext(g, p, n, h.free)} | 0 <= n < PER_PAGE :: NewNext(g, p, n, h.free))
  }

  ghost predicate NewNext(g: Heap, p: nat, n: nat, last: nat) {
    && DescAt(p, n) in g.descs && g.descs[DescAt(p, n)].next == (if n + 1 < PER_PAGE then DescAt(p, n + 1) else last)
    && g.descs[DescAt(p, n)].refcnt == 0
  }

  ghost function InitLayout(l: Layout, p: nat): Layout {
    l.(free := NewDescs(p) + l.free, place := (map d | d in NewSet(p) :: FreeDesc) + l.place)
  }

  lemma NewDescsFacts(h: Heap, l: Layout, p: nat)
    requires CanInit(h, l, p)
    ensures Distinct(NewDescs(p)) && forall d :: d in NewDescs(p) <==> d in NewSet(p)
    ensures forall d | d in NewSet(p) :: d !in h.descs && d != 0 && PageOf(d) == p
  {
    forall n: nat | n < PER_PAGE
      ensures PageOf(DescAt(p, n)) == p && DescAt(p, n) in NewDescs(p)
    {
      Inside(p, n * DESC_SIZE);
      assert NewDescs(p)[n] == DescAt(p, n);
    }
  }

  ghost predicate LeadsTo(g: Heap, new_: seq<nat>, head: nat, i: nat)
    requires i < |new_|
  {
    new_[i] in g.descs && g.descs[new_[i]].next == if i + 1 < |new_| then new_[i + 1] else head
  }

  /** New members before a list. */
  lemma ListPrepend(h: Heap, place: map<nat, Where>, g: Heap, place': map<nat, Where>, head: nat, l: seq<nat>, w: Where, new_: seq<nat>)
    requires ListOk(h, place, head, l, w) && Distinct(new_) && forall d | d in new_ :: d !in l
    requires forall i {:trigger LeadsTo(g, new_, head, i)} | 0 <= i < |new_| :: LeadsTo(g, new_, head, i)
    requires forall e | e in l :: e in g.descs && (e in h.descs ==> g.descs[e].next == h.descs[e].next)
    requires forall e :: (e in place' && place'[e] == w) <==> e in new_ || (e in place && place[e] == w)
    ensures ListOk(g, place', At(new_ + l, 0), new_ + l, w)
  {
    var m := new_ + l;
    forall i | 0 <= i < |m|
      ensures NextOk(g.descs, m, i)
    {
      if i >= |new_| {
        assert m[i] == l[i - |new_|] && NextOk(h.descs, l, i - |new_|) && l[i - |new_|] in l;
      } else {
        assert LeadsTo(g, new_, head, i);
      }
    }
    forall i, j | 0 <= i < j < |m|
      ensures m[i] != m[j]
    {
      if i < |new_| <= j {
        assert m[i] in new_ && m[j] in l;
      }
    }
  }

  lemma InitFreeList(h: Heap, l: Layout, g: Heap, p: nat)
    requires CanInit(h, l, p) && Initialised(h, g, p)
    ensures ListOk(g, InitLayout(l, p).place, p, InitLayout(l, p).free, FreeDesc)
  {
    NewDescsFacts(h, l, p);
    var nd := NewDescs(p);
    forall i | 0 <= i < |nd|
      ensures LeadsTo(g, nd, h.free, i)
    {
      assert NewNext(g, p, i, h.free);
    }
    ListPrepend(h, l.place, g, InitLayout(l, p).place, h.free, l.free, FreeDesc, nd);
    assert DescAt(p, 0) == p;
  }

  lemma InitNexts(h: Heap, l: Layout, g: Heap, p: nat)
    requires CanInit(h, l, p) && Initialised(h, g, p)
    ensures NextsIn(g.descs)
  {
    HeadIn(h, l, 0);
    forall d | d in g.descs
      ensures g.descs[d].next == 0 || g.descs[d].next in g.descs
    {
      if d !in h.descs {
        var n: nat :| n < PER_PAGE && d == DescAt(p, n);
        assert NewNext(g, p, n, h.free);
        assert n + 1 < PER_PAGE ==> NewNext(g, p, n + 1, h.free);
      }
    }
  }

  lemma InitUnused(h: Heap, l: Layout, g: Heap, p: nat)
    requires CanInit(h, l, p) && Initialised(h, g, p)
    ensures FreeUnused(g, InitLayout(l, p))
  {
    forall d | d in g.descs && d in InitLayout(l, p).place && InitLayout(l, p).place[d] == FreeDesc
      ensures g.descs[d].refcnt == 0
    {
      if d !in h.descs {
        var n: nat :| n < PER_PAGE && d == DescAt(p, n);
        assert NewNext(g, p, n, h.free);
      }
    }
  }

  lemma InitFormed(h: Heap, l: Layout, g: Heap, p: nat)
    requires CanInit(h, l, p) && Initialised(h, g, p)
    ensures Formed(g, InitLayout(l, p))
  {
    var m := InitLayout(l, p);
    InitNexts(h, l, g, p);
    NewDescsFacts(h, l, p);
    InitFreeList(h, l, g, p);
    forall b: Bucket
      ensures ChainOk(g, m, b)
    {
      assert ChainOk(h, l, b);
      ListFrame(h, l.place, g, m.place, h.chains[b], l.chain[b], In(b));
    }
    forall p' | p' in m.owner
      ensures OwnerOk(g, m, p')
    {
      assert OwnerOk(h, l, p');
    }
    forall e | InChain(m, e)
      ensures BucketOk(g, m, e)
    {
      assert BucketOk(h, l, e);
    }
  }

  lemma InitOk(h: Heap, l: Layout, g: Heap, p: nat)
    requires CanInit(h, l, p) && Initialised(h, g, p)
    ensures Inv(g, InitLayout(l, p))
  {
    InitFormed(h, l, g, p);
    InitUnused(h, l, g, p);
  }

  lemma InitKeeps(h: Heap, l: Layout, g: Heap, p: nat, v: View)
    requires CanInit(h, l, p) && Initialised(h, g, p) && ViewOk(h, l, v)
    ensures Keeps(h, l, g, InitLayout(l, p), v)
  {
    InitOk(h, l, g, p);
    NewDescsFacts(h, l, p);
    var m := InitLayout(l, p);
    forall a | a in v.mine
      ensures Steady(h, l, g, m, v.mine[a])
    {
      assert Mine(h, l, v, a);
    }
    forall e, a | a in v.mine && Sane(h, l, e, v.mine[a].d)
      ensures Sane(g, m, e, v.mine[a].d)
    {
    }
    QuietKeeps(h, l, g, m, v);
  }
}
