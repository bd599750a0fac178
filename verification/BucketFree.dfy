/** What free_s does with the descriptor that its search found, be it the right one or not. */
module BucketFree {
  import opened BucketModel
  import opened BucketSteps

  ghost predicate Good(h: Heap, l: Layout, v: View) { Inv(h, l) && InUse(l, 0) && ViewOk(h, l, v) }

  /** Some live object lies on the page. */
  ghost predicate OnPage(h: Heap, l: Layout, p: nat) {
    exists e, i :: Live(l, e, i) && e in h.descs && h.descs[e].page == p
  }

  lemma OwnedPageInUse(h: Heap, l: Layout, d: nat)
    requires Inv(h, l) && InUse(l, 0) && InChain(l, d)
    ensures d in h.descs && OnPage(h, l, h.descs[d].page)
  {
    assert BucketOk(h, l, d);
    Pigeons(l.slots[d], Count(l.place[d].k));
    var j :| 0 <= j < Count(l.place[d].k) && j !in l.slots[d];
    assert Live(l, d, j);
  }

  lemma UnownedPageEmpty(h: Heap, l: Layout, p: nat)
    requires Inv(h, l) && p !in l.owner
    ensures !OnPage(h, l, p)
  {
    forall e, i | Live(l, e, i) && e in h.descs
      ensures h.descs[e].page != p
    {
      assert BucketOk(h, l, e);
    }
  }

  /** Two descriptors of one page are one. */
  lemma OnePage(h: Heap, l: Layout, d: nat, e: nat)
    requires Inv(h, l) && InChain(l, d) && InChain(l, e) && d in h.descs && e in h.descs && h.descs[d].page == h.descs[e].page
    ensures d == e
  {
    assert BucketOk(h, l, d) && BucketOk(h, l, e);
  }

  lemma NextIn(h: Heap, l: Layout, k: Bucket, i: nat)
    requires Inv(h, l) && i < |l.chain[k]|
    ensures l.chain[k][i] in h.descs && InChain(l, l.chain[k][i]) && l.place[l.chain[k][i]] == In(k) && l.chain[k][i] != 0
    ensures h.descs[l.chain[k][i]].next == At(l.chain[k], i + 1)
  {
    assert ChainOk(h, l, k) && NextOk(h.descs, l.chain[k], i) && l.chain[k][i] in l.chain[k];
  }

  /** A predecessor that is still sane is the predecessor. */
  lemma SanePrev(h: Heap, l: Layout, k: Bucket, d: nat, prev: nat) returns (i: nat)
    requires Inv(h, l) && InChain(l, d) && l.place[d] == In(k) && d in h.descs
    requires prev != 0 ==> Sane(h, l, prev, d) && h.descs[prev].next == d
    requires prev == 0 ==> h.chains[k] == d
    ensures i < |l.chain[k]| && l.chain[k][i] == d && Prev(l, k, i) == prev
  {
    assert ChainOk(h, l, k);
    var c := l.chain[k];
    if prev == 0 {
      i := 0;
    } else {
      assert prev in c;
      var n :| 0 <= n < |c| && c[n] == prev;
      assert NextOk(h.descs, c, n);
      i := n + 1;
    }
  }

  /** A smaller view has less to lose. */
  lemma KeepsFewer(h: Heap, l: Layout, g: Heap, m: Layout, v: View, w: View)
    requires Keeps(h, l, g, m, v) && w.held <= v.held && w.mine.Keys <= v.mine.Keys && forall a | a in w.mine :: w.mine[a] == v.mine[a]
    ensures Keeps(h, l, g, m, w)
  {
    forall a | a in w.mine
      ensures Mine(g, m, w, a) && ObjKept(h, l, g, m, w, a)
    {
      assert Mine(g, m, v, a) && ObjKept(h, l, g, m, v, a);
    }
  }

  // ---- the end of free_s -------------------------------------------------------------------------------

  /** refcnt-- of an unsigned short. */
  function Fewer(n: nat): nat { if n == 0 then 0xFFFF else n - 1 }

  /** malloc.c:283-285, with whatever descriptor was found. */
  function Given(h: Heap, x: nat, obj: nat): Heap
    requires x in h.descs
  {
    h.(words := h.words[obj := h.descs[x].freeptr], descs := h.descs[x := h.descs[x].(freeptr := obj, refcnt := Fewer(h.descs[x].refcnt))])
  }

  ghost predicate PointsTo(h: Heap, y: nat, x: nat) { y in h.descs && h.descs[y].next == x }

  /** malloc.c:293-297: prev if it still leads to x (or x still is the first, for 0), otherwise
      a descriptor of chain k that does, if there is one. */
  ghost predicate TruePrev(h: Heap, l: Layout, k: Bucket, x: nat, prev: nat, p: nat)
    requires |h.chains| == |l.chain| == BUCKETS
  {
    if (prev != 0 && PointsTo(h, prev, x)) || (prev == 0 && h.chains[k] == x) then p == prev
    else if p != 0 then p in l.chain[k] && PointsTo(h, p, x)
    else forall y | y in l.chain[k] :: !PointsTo(h, y, x)
  }

  /** All that free_s may leave behind once its search found x in chain k, behind prev. */
  ghost predicate Ran(h: Heap, l: Layout, k: Bucket, x: nat, prev: nat, obj: nat, g: Heap, corrupted: bool, freed: bool)
    requires |h.chains| == |l.chain| == BUCKETS && x in h.descs
  {
    var h1 := Given(h, x, obj);
    if h1.descs[x].refcnt != 0 then g == h1 && !corrupted && !freed
    else exists p :: Spliced(h1, l, k, x, prev, p, g, corrupted, freed)
  }

  ghost predicate Spliced(h1: Heap, l: Layout, k: Bucket, x: nat, prev: nat, p: nat, g: Heap, corrupted: bool, freed: bool)
    requires |h1.chains| == |l.chain| == BUCKETS && x in h1.descs
  {
    && TruePrev(h1, l, k, x, prev, p) && (p != 0 ==> p in h1.descs)
    && (corrupted <==> p == 0 && h1.chains[k] != x) && (freed <==> !corrupted)
    && g == if corrupted then h1 else Closed(h1, k, p, x)
  }

  /** The search found the object's descriptor, and can take it out of its chain: it was
      found there, or the one before it leads to it. */
  ghost predicate Right(h: Heap, l: Layout, k: nat, d: nat, prev: nat) {
    && InChain(l, d) && (prev != 0 ==> Sane(h, l, prev, d)) && (prev == 0 ==> l.place[d].k == k)
    && (l.place[d].k == k || PointsTo(h, prev, d))
  }

  /** The object's descriptor was found along another chain, and the one looked at before it
      does not lead to it any more. */
  ghost predicate Misled(h: Heap, l: Layout, k: nat, d: nat, prev: nat) {
    InChain(l, d) && l.place[d].k != k && prev != 0 && !PointsTo(h, prev, d)
  }

  lemma GivenChain(h: Heap, l: Layout, k: Bucket, x: nat, obj: nat)
    requires Formed(h, l) && x in h.descs
    ensures ChainOk(Given(h, x, obj), l, k)
  {
    assert ChainOk(h, l, k);
    ListFrame(h, l.place, Given(h, x, obj), l.place, h.chains[k], l.chain[k], In(k));
  }

  /** Found by a walk that never stood on a descriptor being set up, it is one or the other. */
  lemma RightOrMisled(h: Heap, l: Layout, k: Bucket, d: nat, prev: nat)
    requires InChain(l, d) && (prev != 0 ==> Sane(h, l, prev, d)) && (prev == 0 ==> l.place[d] == In(k))
    ensures Right(h, l, k, d, prev) || Misled(h, l, k, d, prev)
  {
  }

  lemma GivenIsGave(h: Heap, l: Layout, v: View, obj: nat)
    requires Good(h, l, v) && obj in v.mine
    ensures var o := v.mine[obj];
      && Live(l, o.d, o.j) && o.d in h.descs && h.descs[o.d].refcnt > 0 && obj == AddrOf(h, l, o.d, o.j)
      && h.descs[o.d].page == PageOf(obj)
      && Given(h, o.d, obj) == Gave(h, o.d, obj) && Inv(Given(h, o.d, obj), GaveLayout(l, o.d, o.j))
      && InUse(GaveLayout(l, o.d, o.j), o.d)
      && Keeps(h, l, Given(h, o.d, obj), GaveLayout(l, o.d, o.j), v.(mine := v.mine - {obj}))
  {
    var o, w := v.mine[obj], v.(mine := v.mine - {obj});
    assert Mine(h, l, v, obj) && BucketOk(h, l, o.d);
    SlotInPage(h.descs[o.d].page, l.place[o.d].k, o.j);
    GiveOk(h, l, o.d, o.j);
    OthersObjects(h, l, v, obj);
    GiveKeeps(h, l, o.d, o.j, w);
  }

  /** Two objects of a task are two. */
  lemma OthersObjects(h: Heap, l: Layout, v: View, obj: nat)
    requires ViewOk(h, l, v) && obj in v.mine
    ensures ViewOk(h, l, v.(mine := v.mine - {obj})) && forall a | a in v.mine && a != obj :: v.mine[a] != v.mine[obj]
  {
    var w := v.(mine := v.mine - {obj});
    assert Mine(h, l, v, obj);
    forall a | a in v.mine && a != obj
      ensures v.mine[a] != v.mine[obj] && Mine(h, l, w, a)
    {
      assert Mine(h, l, v, a);
    }
  }

  /** The predecessor that is used is the true one. */
  lemma RightPrev(h: Heap, l: Layout, k: Bucket, d: nat, prev: nat, p: nat) returns (i: nat)
    requires Inv(h, l) && InChain(l, d) && d in h.descs && TruePrev(h, l, k, d, prev, p) && (p != 0 ==> p in h.descs)
    requires Right(h, l, k, d, prev)
    ensures i < |l.chain[l.place[d].k]| && l.chain[l.place[d].k][i] == d && Prev(l, l.place[d].k, i) == p
    ensures p == 0 ==> l.place[d].k == k && h.chains[k] == d
  {
    var b := l.place[d].k;
    assert ChainOk(h, l, b) && ChainOk(h, l, k);
    var n :| 0 <= n < |l.chain[b]| && l.chain[b][n] == d;
    assert n > 0 ==> NextOk(h.descs, l.chain[b], n - 1) && l.chain[b][n - 1] in l.chain[b];
    i := SanePrev(h, l, b, d, p);
  }

  /** The search found the object's descriptor, and rightly: the object is gone, and its page
      too exactly if nothing is left on it. */
  lemma RightRan(h: Heap, l: Layout, v: View, obj: nat, k: Bucket, prev: nat, g: Heap, corrupted: bool, freed: bool) returns (m: Layout)
    requires Good(h, l, v) && obj in v.mine && v.mine[obj].d in h.descs && Right(h, l, k, v.mine[obj].d, prev)
    requires Ran(h, l, k, v.mine[obj].d, prev, obj, g, corrupted, freed)
    ensures !corrupted && Good(g, m, v.(mine := v.mine - {obj})) && Keeps(h, l, g, m, v.(mine := v.mine - {obj}))
    ensures freed <==> !OnPage(g, m, PageOf(obj))
  {
    var o, w := v.mine[obj], v.(mine := v.mine - {obj});
    GivenIsGave(h, l, v, obj);
    var h1, l1 := Given(h, o.d, obj), GaveLayout(l, o.d, o.j);
    if h1.descs[o.d].refcnt != 0 {
      m := l1;
      assert BucketOk(h1, l1, o.d);
      OwnedPageInUse(h1, l1, o.d);
    } else {
      var p :| Spliced(h1, l, k, o.d, prev, p, g, corrupted, freed);
      assert Right(h1, l1, k, o.d, prev);
      assert TruePrev(h1, l1, k, o.d, prev, p);
      var i := RightPrev(h1, l1, k, o.d, prev, p);
      m := RightClosed(h1, l1, k, o.d, p, i, w, g);
      KeepsTransitive(h, l, h1, l1, g, m, w);
    }
  }

  lemma RightClosed(h: Heap, l: Layout, k: Bucket, d: nat, p: nat, i: nat, w: View, g: Heap) returns (m: Layout)
    requires Inv(h, l) && InChain(l, d) && d in h.descs && h.descs[d].refcnt == 0 && ViewOk(h, l, w) && InUse(l, d)
    requires (p != 0 ==> p in h.descs) && g == Closed(h, k, p, d) && (p == 0 ==> l.place[d].k == k)
    requires i < |l.chain[l.place[d].k]| && l.chain[l.place[d].k][i] == d && Prev(l, l.place[d].k, i) == p
    ensures Good(g, m, w) && Keeps(h, l, g, m, w) && !OnPage(g, m, h.descs[d].page)
  {
    var b := l.place[d].k;
    CloseOk(h, l, b, i);
    CloseKeeps(h, l, b, i, w);
    CloseFacts(h, l, b, i);
    assert BucketOk(h, l, d);
    assert g == Closed(h, b, p, d);
    m := ClosedLayout(h, l, b, i);
    UnownedPageEmpty(g, m, h.descs[d].page);
  }

  /** It found the descriptor by another chain: the object is gone all the same, but if it was
      the last on its page free_s panics. */
  lemma MisledRan(h: Heap, l: Layout, v: View, obj: nat, k: Bucket, prev: nat, g: Heap, corrupted: bool, freed: bool) returns (m: Layout)
    requires Good(h, l, v) && obj in v.mine && v.mine[obj].d in h.descs && Misled(h, l, k, v.mine[obj].d, prev)
    requires Ran(h, l, k, v.mine[obj].d, prev, obj, g, corrupted, freed)
    ensures !freed && Inv(g, m) && Keeps(h, l, g, m, v.(mine := v.mine - {obj}))
    ensures corrupted <==> !OnPage(g, m, PageOf(obj))
    ensures !corrupted ==> Good(g, m, v.(mine := v.mine - {obj}))
  {
    var o := v.mine[obj];
    GivenIsGave(h, l, v, obj);
    var h1, l1 := Given(h, o.d, obj), GaveLayout(l, o.d, o.j);
    m := l1;
    assert BucketOk(h1, l1, o.d);
    if h1.descs[o.d].refcnt != 0 {
      OwnedPageInUse(h1, l1, o.d);
    } else {
      var p :| Spliced(h1, l, k, o.d, prev, p, g, corrupted, freed);
      NotOnChain(h1, l1, k, o.d, p);
      RefcntZeroIffDead(h1, l1, o.d);
      EmptyPage(h1, l1, o.d);
    }
  }

  /** What a descriptor of chain k leads to is in chain k. */
  lemma NextOnChain(h: Heap, l: Layout, k: Bucket, p: nat)
    requires Formed(h, l)
    ensures p in l.chain[k] ==> p in h.descs && (h.descs[p].next == 0 || h.descs[p].next in l.chain[k])
  {
    assert ChainOk(h, l, k);
    if p in l.chain[k] {
      var i :| 0 <= i < |l.chain[k]| && l.chain[k][i] == p;
      assert NextOk(h.descs, l.chain[k], i);
      assert i + 1 < |l.chain[k]| ==> l.chain[k][i + 1] in l.chain[k];
    }
  }

  /** Nothing in another chain leads to d. */
  lemma NotOnChain(h: Heap, l: Layout, k: Bucket, d: nat, p: nat)
    requires Formed(h, l) && InChain(l, d) && l.place[d].k != k
    ensures h.chains[k] != d && !(p in l.chain[k] && PointsTo(h, p, d))
  {
    assert ChainOk(h, l, k) && BucketOk(h, l, d) && d != 0;
    assert l.chain[k] != [] ==> l.chain[k][0] in l.chain[k];
    NextOnChain(h, l, k, p);
  }

  lemma EmptyPage(h: Heap, l: Layout, d: nat)
    requires Inv(h, l) && InChain(l, d) && d in h.descs && !exists j :: Live(l, d, j)
    ensures !OnPage(h, l, h.descs[d].page)
  {
    forall e, i | Live(l, e, i) && e in h.descs
      ensures h.descs[e].page != h.descs[d].page
    {
      assert BucketOk(h, l, e) && BucketOk(h, l, d);
    }
  }

  /** It found a free descriptor that had kept the page's address: that one's count wraps, and
      the object stays taken for ever, as nobody has it any more. */
  lemma StaleRan(h: Heap, l: Layout, v: View, obj: nat, k: Bucket, x: nat, prev: nat, g: Heap, corrupted: bool, freed: bool)
    requires Good(h, l, v) && obj in v.mine && x in h.descs && x in l.place && l.place[x] == FreeDesc
    requires Ran(h, l, k, x, prev, obj, g, corrupted, freed)
    ensures !corrupted && !freed && g == Given(h, x, obj) && g.descs[x].refcnt == 0xFFFF
    ensures Formed(g, l) && Live(l, v.mine[obj].d, v.mine[obj].j) && ViewOk(g, l, v)
  {
    var o := v.mine[obj];
    assert Mine(h, l, v, obj) && BucketOk(h, l, o.d);
    assert h.descs[x].refcnt == 0;
    StaleLists(h, l, x, obj, o.d, o.j);
    forall a | a in v.mine
      ensures Mine(g, l, v, a)
    {
      assert Mine(h, l, v, a);
    }
  }

  lemma StaleLists(h: Heap, l: Layout, x: nat, obj: nat, d: nat, j: nat)
    requires Inv(h, l) && x in h.descs && x in l.place && l.place[x] == FreeDesc && Live(l, d, j) && d in h.descs && obj == AddrOf(h, l, d, j)
    ensures Formed(Given(h, x, obj), l)
  {
    var g := Given(h, x, obj);
    forall w: Bucket
      ensures ChainOk(g, l, w)
    {
      assert ChainOk(h, l, w);
      ListFrame(h, l.place, g, l.place, h.chains[w], l.chain[w], In(w));
    }
    ListFrame(h, l.place, g, l.place, h.free, l.free, FreeDesc);
    forall p' | p' in l.owner
      ensures OwnerOk(g, l, p')
    {
      assert OwnerOk(h, l, p');
    }
    forall e | InChain(l, e)
      ensures BucketOk(g, l, e)
    {
      StaleBucket(h, l, x, obj, d, j, e);
    }
  }

  lemma StaleBucket(h: Heap, l: Layout, x: nat, obj: nat, d: nat, j: nat, e: nat)
    requires Inv(h, l) && x in h.descs && x in l.place && l.place[x] == FreeDesc && Live(l, d, j) && d in h.descs && obj == AddrOf(h, l, d, j)
    requires InChain(l, e)
    ensures BucketOk(Given(h, x, obj), l, e)
  {
    assert BucketOk(h, l, d) && BucketOk(h, l, e);
    var g, b, k, fl := Given(h, x, obj), h.descs[e], l.place[e].k, l.slots[e];
    SlotInPage(h.descs[d].page, l.place[d].k, j);
    if e != d {
      SlotsElsewhere(h.words, g.words, b.page, k, b.freeptr, fl);
    } else {
      forall i | 0 <= i < |fl|
        ensures NextSlotOk(g.words, b.page, k, fl, i)
      {
        assert NextSlotOk(h.words, b.page, k, fl, i) && fl[i] in fl;
        SlotsApart(b.page, k, j, fl[i]);
      }
    }
  }
}
