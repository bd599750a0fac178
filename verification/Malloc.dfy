/** lib/malloc.c.  Other tasks run while get_free_page sleeps and whenever free_s is interrupted
    before it closes interrupts; `env` says what they do, within what Keeps allows. */
module Malloc {
  import opened BucketModel
  import opened BucketSteps
  import opened BucketSearch
  import opened BucketFree

  /** What other tasks leave behind, and the page that get_free_page then finds (0: none). */
  datatype Outcome = Outcome(heap: Heap, page: nat)

  ghost predicate Relied(h: Heap, l: Layout, v: View, out: Outcome, m: Layout) {
    Keeps(h, l, out.heap, m, v) && InUse(m, 0) && (out.page != 0 ==> FreshPage(out.heap, m, out.page))
  }

  ghost predicate Harmless(h: Heap, l: Layout, v: View, out: Outcome) { exists m :: Relied(h, l, v, out, m) }

  ghost predicate Lawful(env: (nat, Heap, View) -> Outcome) {
    forall t, h, l, v {:trigger Harmless(h, l, v, env(t, h, v))} | Good(h, l, v) :: Harmless(h, l, v, env(t, h, v))
  }

  /** An environment that does nothing at all is one of those allowed. */
  lemma IdleIsLawful(env: (nat, Heap, View) -> Outcome)
    requires forall t, h, v :: env(t, h, v) == Outcome(h, 0)
    ensures Lawful(env)
  {
    forall t, h, l, v | Good(h, l, v)
      ensures Harmless(h, l, v, env(t, h, v))
    {
      KeepsNothing(h, l, v);
      assert Relied(h, l, v, env(t, h, v), l);
    }
  }

  /** The smallest bucket that is large enough. */
  ghost predicate Fits(k: Bucket, len: nat) { Size(k) >= len && forall w: Bucket | w < k :: Size(w) < len }

  /** The object's bytes are no other live object's. */
  ghost predicate Apart(h: Heap, l: Layout, o: Obj)
    requires InChain(l, o.d) && o.d in h.descs
  {
    forall e, i | Live(l, e, i) && e in h.descs && Obj(e, i) != o ::
      || AddrOf(h, l, e, i) + Size(l.place[e].k) <= AddrOf(h, l, o.d, o.j)
      || AddrOf(h, l, o.d, o.j) + Size(l.place[o.d].k) <= AddrOf(h, l, e, i)
  }

  lemma LiveApart(h: Heap, l: Layout, o: Obj)
    requires Inv(h, l) && Live(l, o.d, o.j) && o.d in h.descs
    ensures Apart(h, l, o)
  {
    forall e, i | Live(l, e, i) && e in h.descs && Obj(e, i) != o
      ensures AddrOf(h, l, e, i) + Size(l.place[e].k) <= AddrOf(h, l, o.d, o.j) || AddrOf(h, l, o.d, o.j) + Size(l.place[o.d].k) <= AddrOf(h, l, e, i)
    {
      assert BucketOk(h, l, e) && BucketOk(h, l, o.d);
      ObjectsApart(h, l, e, i, o.d, o.j);
    }
  }

  lemma ThreadOne(before: map<nat, nat>, w: map<nat, nat>, page: nat, k: Bucket, j: nat)
    requires Threaded(before, w, page, k, j) && j < Count(k)
    ensures Threaded(before, w[Addr(page, k, j) := if j + 1 < Count(k) then Addr(page, k, j + 1) else 0], page, k, j + 1)
  {
    CountFits(k);
    StepsGrow(k, j, Count(k));
    var w' := w[Addr(page, k, j) := if j + 1 < Count(k) then Addr(page, k, j + 1) else 0];
    forall i | 0 <= i < j + 1
      ensures SlotThreaded(w', page, k, i)
    {
      if i < j {
        assert SlotThreaded(w, page, k, i);
        SlotsApart(page, k, i, j);
      }
    }
  }

  /** The number of the slot at an offset in a page of bucket k. */
  function SlotOf(k: Bucket, offset: nat): nat { if offset < Size(k) then 0 else 1 + SlotOf(k, offset - Size(k)) }

  lemma {:induction false} SlotNumber(k: Bucket, j: nat)
    ensures SlotOf(k, Steps(k, j)) == j
  {
    if j > 0 {
      SlotNumber(k, j - 1);
    }
  }

  /** A free slot's address is none of this task's objects. */
  lemma NotMine(h: Heap, l: Layout, v: View, d: nat, j: nat)
    requires Inv(h, l) && ViewOk(h, l, v) && InChain(l, d) && d in h.descs && d in l.slots && j in l.slots[d]
    ensures AddrOf(h, l, d, j) !in v.mine && AddrOf(h, l, d, j) != 0
  {
    assert BucketOk(h, l, d);
    if AddrOf(h, l, d, j) in v.mine {
      var o := v.mine[AddrOf(h, l, d, j)];
      assert Mine(h, l, v, AddrOf(h, l, d, j)) && BucketOk(h, l, o.d);
      SlotInPage(h.descs[d].page, l.place[d].k, j);
      SlotInPage(h.descs[o.d].page, l.place[o.d].k, o.j);
      OnePage(h, l, d, o.d);
      if o.j != j {
        SlotsApart(h.descs[d].page, l.place[d].k, j, o.j);
      }
    }
  }

  lemma NowInUse(h: Heap, l: Layout, d: nat)
    requires CanTake(h, l, d) && (InUse(l, 0) || InUse(l, d))
    ensures d in l.slots && |l.slots[d]| > 0 && InUse(TookLayout(l, d), 0)
  {
    TakeFacts(h, l, d);
    assert BucketOk(h, l, d);
  }

  /** The first free slot as this task's new object. */
  lemma OpenedAll(h: Heap, l: Layout, d: nat, k: Bucket, p: nat, words: map<nat, nat>, v: View)
    requires CanOpen(h, l, d, k, p, words) && Good(h, l, v) && d !in v.held
    ensures var g, m := Opened(h, d, k, p, words), OpenedLayout(l, d, k, p);
      Inv(g, m) && InUse(m, d) && CanTake(g, m, d) && Keeps(h, l, g, m, v)
  {
    OpenOk(h, l, d, k, p, words);
    OpenKeeps(h, l, d, k, p, words, v);
  }

  /** A slot of descriptor d that nobody had is now this task's object at a. */
  ghost predicate Handed(h: Heap, l: Layout, v: View, g: Heap, m: Layout, v': View, d: nat, a: nat) {
    && a != 0 && a !in v.mine && a in v'.mine && v' == v.(mine := v.mine[a := v'.mine[a]]) && v'.mine[a].d == d
    && m.place == l.place && m.owner == l.owner && m.chain == l.chain && m.free == l.free
    && d in h.descs && h.descs[d].freeptr == a && Good(g, m, v') && InChain(m, d) && d in g.descs && Apart(g, m, v'.mine[a]) && Keeps(h, l, g, m, v)
  }

  lemma TookAll(h: Heap, l: Layout, v: View, d: nat)
    requires CanTake(h, l, d) && ViewOk(h, l, v) && (InUse(l, 0) || InUse(l, d))
    ensures d in l.slots && |l.slots[d]| > 0 && h.descs[d].freeptr in h.words && h.descs[d].freeptr >= h.descs[d].page
    ensures var a, j := h.descs[d].freeptr, l.slots[d][0];
      && SlotOf(l.place[d].k, a - h.descs[d].page) == j
      && Handed(h, l, v, Took(h, d), TookLayout(l, d), v.(mine := v.mine[a := Obj(d, j)]), d, a)
  {
    TakeFacts(h, l, d);
    TakeKeeps(h, l, d, v);
    var a, j := h.descs[d].freeptr, l.slots[d][0];
    SlotNumber(l.place[d].k, j);
    NotMine(h, l, v, d, j);
    MineMore(Took(h, d), TookLayout(l, d), v, a, Obj(d, j));
    NowInUse(h, l, d);
    LiveApart(Took(h, d), TookLayout(l, d), Obj(d, j));
  }

  lemma MineMore(h: Heap, l: Layout, v: View, a: nat, o: Obj)
    requires ViewOk(h, l, v) && Live(l, o.d, o.j) && o.d in h.descs && a == AddrOf(h, l, o.d, o.j)
    ensures ViewOk(h, l, v.(mine := v.mine[a := o]))
  {
    var w := v.(mine := v.mine[a := o]);
    forall b | b in w.mine
      ensures Mine(h, l, w, b)
    {
      assert b != a ==> Mine(h, l, v, b);
    }
  }

  lemma HeldMore(h: Heap, l: Layout, v: View, d: nat)
    requires ViewOk(h, l, v) && d in l.place && l.place[d] == Pending
    ensures ViewOk(h, l, v.(held := v.held + {d}))
  {
    forall a | a in v.mine
      ensures Mine(h, l, v.(held := v.held + {d}), a)
    {
      assert Mine(h, l, v, a);
    }
  }

  /** The object is of the smallest size that holds len. */
  lemma FitsOnce(k: Bucket, len: nat)
    requires Fits(k, len)
    ensures forall w: Bucket | Fits(w, len) :: w == k
  {
  }

  /** Some page of the bucket has a free slot. */
  ghost predicate HasRoom(h: Heap, l: Layout, k: Bucket) {
    |l.chain| == BUCKETS && exists d :: d in l.chain[k] && d in h.descs && h.descs[d].freeptr != 0
  }

  /** The object at a is the first free slot of such a page, and no page was taken for it. */
  ghost predicate FromRoom(h: Heap, l: Layout, m: Layout, k: Bucket, o: Obj, a: nat) {
    |l.chain| == BUCKETS && o.d in l.chain[k] && o.d in h.descs && h.descs[o.d].freeptr == a && m.owner == l.owner && m.chain == l.chain && m.free == l.free
  }

  ghost predicate BucketFor(l: Layout, o: Obj, len: nat) { InChain(l, o.d) && Fits(l.place[o.d].k, len) }

  /** The object is at least as large as the caller says. */
  ghost predicate AtLeast(l: Layout, o: Obj, size: int) { InChain(l, o.d) && Size(l.place[o.d].k) >= size }

  function Part(p: nat, n: nat): set<nat> { set i: nat | i < n :: DescAt(p, i) }

  /** The first n descriptors of a page are there, each leading to the next. */
  ghost predicate Partly(before: map<nat, Desc>, descs: map<nat, Desc>, p: nat, n: nat) {
    && descs.Keys == before.Keys + Part(p, n)
    && (forall d | d in before :: descs[d] == before[d])
    && (forall i {:trigger LinkedAt(descs, p, i)} | 0 <= i < n :: LinkedAt(descs, p, i))
  }

  ghost predicate LinkedAt(descs: map<nat, Desc>, p: nat, i: nat) {
    DescAt(p, i) in descs && descs[DescAt(p, i)].next == DescAt(p, i + 1) && descs[DescAt(p, i)].refcnt == 0
  }

  ghost predicate Vacant(before: map<nat, Desc>, p: nat) {
    forall n: nat {:trigger DescAt(p, n)} | n < PER_PAGE :: DescAt(p, n) !in before
  }

  lemma VacantPage(h: Heap, l: Layout, p: nat)
    requires CanInit(h, l, p)
    ensures Vacant(h.descs, p)
  {
    NewDescsFacts(h, l, p);
  }

  lemma OneMore(before: map<nat, Desc>, descs: map<nat, Desc>, p: nat, n: nat, d: Desc)
    requires Partly(before, descs, p, n) && n < PER_PAGE && Vacant(before, p) && d.next == DescAt(p, n + 1) && d.refcnt == 0
    ensures Partly(before, descs[DescAt(p, n) := d], p, n + 1)
  {
    var descs' := descs[DescAt(p, n) := d];
    assert Part(p, n + 1) == Part(p, n) + {DescAt(p, n)};
    forall i | 0 <= i < n + 1
      ensures LinkedAt(descs', p, i)
    {
      assert i < n ==> LinkedAt(descs, p, i);
    }
  }

  lemma AllLinked(h: Heap, descs: map<nat, Desc>, p: nat, d: Desc)
    requires Partly(h.descs, descs, p, 255) && Vacant(h.descs, p) && d.next == h.free && d.refcnt == 0
    ensures Initialised(h, h.(descs := descs[DescAt(p, 255) := d], free := p), p)
  {
    var g := h.(descs := descs[DescAt(p, 255) := d], free := p);
    forall n | 0 <= n < PER_PAGE
      ensures NewNext(g, p, n, h.free)
    {
      assert n < 255 ==> LinkedAt(descs, p, n);
    }
    assert NewSet(p) == Part(p, 255) + {DescAt(p, 255)};
  }

  /** How a search went: the walks, and what was found where, behind what; h and l are heap
      and lists when interrupts are closed, or when the search ended if it found nothing. */
  datatype SearchLog = SearchLog(h: Heap, l: Layout, k: nat, found: nat, prev: nat, walks: seq<Walk>)

  /** The chains below k were walked and nothing was found; rightly, if no walk went astray. */
  ghost predicate InVain(h0: Heap, l0: Layout, h: Heap, l: Layout, v: View, walks: seq<Walk>, d: nat, page: nat, size: int, k: nat) {
    && Keeps(h0, l0, h, l, v) && Searched(walks, d, page, size, k) && AllInVain(walks) && SamePlace(l0, l, d)
    && (!Astray(walks) && Size(l.place[d].k) >= size ==> l.place[d].k >= k)
  }

  /** d is found exactly if its objects are large enough, and in its chain. */
  ghost predicate FoundInPlace(l: Layout, d: nat, size: int, k: nat, bdesc: nat) {
    InChain(l, d) && if Size(l.place[d].k) < size then bdesc == 0 else bdesc == d && k == l.place[d].k
  }

  /** What becomes of object o, given that free_s found x in chain k behind prev, in the heap h:
      from (h0, l0) on, this task's other objects v are kept where that is said. */
  ghost predicate Settled(h0: Heap, l0: Layout, h: Heap, l: Layout, k: nat, x: nat, prev: nat, o: Obj, page: nat,
                          g: Heap, m: Layout, v: View, corrupted: bool, freed: bool) {
    // the right descriptor: the object is gone, the page goes back exactly if it is empty
    && (x == o.d && Right(h, l, k, x, prev) ==> !corrupted && Good(g, m, v) && Keeps(h0, l0, g, m, v) && (freed <==> !OnPage(g, m, page)))
    // the right one by another chain: the same, but for an empty page there is a panic
    && (x == o.d && Misled(h, l, k, x, prev) ==> !freed && (corrupted <==> !OnPage(g, m, page)) && (!corrupted ==> Good(g, m, v)) && Keeps(h0, l0, g, m, v))
    // a free one: the object stays taken, and nobody has it
    && (x in l.place && l.place[x] == FreeDesc ==> !corrupted && !freed && Formed(g, m) && Live(m, o.d, o.j) && ViewOk(g, m, v))
  }

  ghost predicate SamePlace(l: Layout, m: Layout, d: nat) { InChain(l, d) && InChain(m, d) && m.place[d] == l.place[d] }

  /** The last walk ended in this state, at this descriptor. */
  ghost predicate LastIs(walks: seq<Walk>, h: Heap, l: Layout, k: nat, bdesc: nat, hung: bool, d: nat, page: nat, prev: nat) {
    walks != [] && var w := walks[|walks| - 1];
    w == Walk(h, l, k, w.t, bdesc, hung) && WalkOk(w, d, page) && Leads(w, d, prev)
  }

  /** What interrupts may have left of the search's result when they are closed. */
  ghost predicate ClosedAt(h: Heap, l: Layout, l0: Layout, k: Bucket, bdesc: nat, prev: nat, d: nat, wild: bool) {
    && SamePlace(l0, l, d)
    && (bdesc == d && !wild ==> Right(h, l, k, d, prev) || Misled(h, l, k, d, prev))
    && (bdesc == d && !wild && l.place[d] == In(k) ==> Right(h, l, k, d, prev))
  }

  ghost predicate LogOk(s: SearchLog, d: nat, page: nat, size: int, hung: bool) {
    && Inv(s.h, s.l) && InChain(s.l, d) && Searched(s.walks, d, page, size, if s.found == 0 then s.k else s.k + 1)
    && (s.found == 0 ==> s.k == 9 && !hung && AllInVain(s.walks))
    && (s.found != 0 ==> s.k < 9 && s.walks != [] && LastWalk(s, d, page, hung))
  }

  /** The search, as a whole: what it left of heap and lists to this task, how its walks went,
      and that it went right unless one of them was thrown off. */
  ghost predicate Logged(s: SearchLog, h0: Heap, l0: Layout, v: View, obj: nat, size: int, hung: bool) {
    && obj in v.mine && LogOk(s, v.mine[obj].d, PageOf(obj), size, hung)
    && Good(s.h, s.l, v) && Keeps(h0, l0, s.h, s.l, v)
    && (!Astray(s.walks) ==> !hung && (s.found == 0 <==> !AtLeast(l0, v.mine[obj], size)))
    && (!Astray(s.walks) && s.found != 0 ==> s.found == v.mine[obj].d && Right(s.h, s.l, s.k, s.found, s.prev))
  }

  lemma EndsThere(s: SearchLog, h0: Heap, l0: Layout, v: View, obj: nat, size: int, hung: bool)
    requires obj in v.mine && Good(s.h, s.l, v) && Keeps(h0, l0, s.h, s.l, v) && SamePlace(l0, s.l, v.mine[obj].d) && v.mine[obj].d != 0
    requires Searched(s.walks, v.mine[obj].d, PageOf(obj), size, if s.found == 0 then s.k else s.k + 1)
    requires s.found == 0 ==> s.k == 9 && !hung && AllInVain(s.walks)
    requires s.found != 0 ==> s.k < 9 && hung && LastIs(s.walks, s.h, s.l, s.k, s.found, hung, v.mine[obj].d, PageOf(obj), s.prev)
    requires !Astray(s.walks) ==> !hung && FoundInPlace(s.l, v.mine[obj].d, size, s.k, s.found)
    ensures Logged(s, h0, l0, v, obj, size, hung)
  {
  }

  lemma EndsClosed(s: SearchLog, h0: Heap, l0: Layout, h: Heap, l: Layout, v: View, obj: nat, size: int)
    requires obj in v.mine && Good(s.h, s.l, v) && Keeps(h0, l0, s.h, s.l, v) && SamePlace(l0, l, v.mine[obj].d) && v.mine[obj].d != 0
    requires Searched(s.walks, v.mine[obj].d, PageOf(obj), size, s.k + 1) && s.found != 0 && s.k < 9 && s.found in s.h.descs
    requires LastIs(s.walks, h, l, s.k, s.found, false, v.mine[obj].d, PageOf(obj), s.prev) && (s.prev == 0 || s.prev in s.h.descs)
    requires ClosedAt(s.h, s.l, l, s.k, s.found, s.prev, v.mine[obj].d, s.walks[|s.walks| - 1].t.wild)
    requires !Astray(s.walks) ==> FoundInPlace(l, v.mine[obj].d, size, s.k, s.found)
    ensures Logged(s, h0, l0, v, obj, size, false)
  {
    var w := s.walks[|s.walks| - 1];
    assert !Astray(s.walks) ==> !w.t.astray;
  }

  /** free_s ends without a descriptor, or not at all: nothing was changed. */
  ghost predicate GaveUp(s: SearchLog, v: View, g: Heap, m: Layout, v': View) {
    Good(g, m, v') && g == s.h && m == s.l && v' == v
  }

  /** free_s went on with what it found, and the object is no longer this task's. */
  ghost predicate Released(s: SearchLog, h0: Heap, l0: Layout, v: View, obj: nat, g: Heap, m: Layout, v': View, corrupted: bool, freed: bool) {
    && obj in v.mine && v' == v.(mine := v.mine - {obj}) && |s.h.chains| == |s.l.chain| == BUCKETS && s.found in s.h.descs && s.k < BUCKETS
    && Ran(s.h, s.l, s.k, s.found, s.prev, obj, g, corrupted, freed)
    && Settled(h0, l0, s.h, s.l, s.k, s.found, s.prev, v.mine[obj], PageOf(obj), g, m, v', corrupted, freed)
  }

  /** Heap and lists when interrupts are closed, after the search ended in l1. */
  ghost predicate Begun(h0: Heap, l0: Layout, l1: Layout, v: View, h: Heap, l: Layout, k: Bucket, x: nat, prev: nat, obj: nat, wild: bool) {
    && Good(h, l, v) && Keeps(h0, l0, h, l, v) && x in h.descs && (prev == 0 || prev in h.descs)
    && obj in v.mine && ClosedAt(h, l, l1, k, x, prev, v.mine[obj].d, wild)
  }

  lemma Concluded(s: SearchLog, h0: Heap, l0: Layout, h1: Heap, l1: Layout, v: View, obj: nat, size: int,
                  g: Heap, m: Layout, v': View, corrupted: bool, freed: bool)
    requires obj in v.mine && s.k < 9 && s.found != 0 && SamePlace(l0, l1, v.mine[obj].d) && v.mine[obj].d != 0
    requires LastIs(s.walks, h1, l1, s.k, s.found, false, v.mine[obj].d, PageOf(obj), s.prev)
    requires Searched(s.walks, v.mine[obj].d, PageOf(obj), size, s.k + 1) && (!Astray(s.walks) ==> FoundInPlace(l1, v.mine[obj].d, size, s.k, s.found))
    requires Begun(h0, l0, l1, v, s.h, s.l, s.k, s.found, s.prev, obj, s.walks[|s.walks| - 1].t.wild)
    requires Released(s.(walks := []), h0, l0, v, obj, g, m, v', corrupted, freed)
    ensures Logged(s, h0, l0, v, obj, size, false) && Released(s, h0, l0, v, obj, g, m, v', corrupted, freed)
  {
    EndsClosed(s, h0, l0, h1, l1, v, obj, size);
  }

  ghost predicate LastWalk(s: SearchLog, d: nat, page: nat, hung: bool)
    requires s.walks != []
  {
    var w := s.walks[|s.walks| - 1];
    && w.k == s.k && w.found == s.found && w.hung == hung && WalkOk(w, d, page) && s.found in s.h.descs
    && (s.prev == 0 || s.prev in s.h.descs)
    && (s.found == d && !w.t.wild ==> Right(s.h, s.l, s.k, d, s.prev) || Misled(s.h, s.l, s.k, d, s.prev))
  }

  class Allocator {
    var descs: map<nat, Desc>
    var chains: seq<nat>
    var free: nat
    var words: map<nat, nat>
    var view: View                    // what this task has
    var clock: nat
    const env: (nat, Heap, View) -> Outcome
    ghost var lay: Layout
    ghost var refused: nat            // how often get_free_page found nothing

    function Snap(): Heap
      reads this
    {
      Heap(descs, chains, free, words)
    }

    ghost predicate Valid()
      reads this
    {
      Lawful(env) && Good(Snap(), lay, view)
    }

    method SetHeap(h: Heap)
      modifies this`descs, this`chains, this`free, this`words
      ensures Snap() == h
    {
      descs, chains, free, words := h.descs, h.chains, h.free, h.words;
    }

    /** Others run; afterwards a page may have been found. */
    method Sleep() returns (page: nat)
      requires Valid()
      modifies this
      ensures Valid() && view == old(view)
      ensures Keeps(old(Snap()), old(lay), Snap(), lay, view)
      ensures page != 0 ==> FreshPage(Snap(), lay, page)
      ensures clock == old(clock) + 1
      ensures refused == if page == 0 then old(refused) + 1 else old(refused)
    {
      assert Harmless(Snap(), lay, view, env(clock, Snap(), view));
      var out := env(clock, Snap(), view);
      ghost var m :| Relied(Snap(), lay, view, out, m);
      assert Relied(Snap(), lay, view, out, m);
      SetHeap(out.heap);
      lay := m;
      clock := clock + 1;
      page := out.page;
      if page == 0 {
        refused := refused + 1;
      }
    }

    /** init_bucket_desc; panic if there is no page.  mid and midLay are what the others left
        when get_free_page came back: the page's 256 descriptors go in front of the free ones
        of that moment. */
    method InitBucketDesc() returns (panic: bool, ghost mid: Heap, ghost midLay: Layout, ghost first: nat)
      requires Valid()
      modifies this
      ensures panic ==> refused > old(refused)
      ensures refused >= old(refused) && clock > old(clock)
      ensures Valid() && view == old(view)
      ensures Keeps(old(Snap()), old(lay), Snap(), lay, view) && Keeps(old(Snap()), old(lay), mid, midLay, view)
      ensures !panic ==> FreshPage(mid, midLay, first) && Initialised(mid, Snap(), first) && lay.free == NewDescs(first) + midLay.free
      ensures !panic ==> free != 0
    {
      var page := Sleep();
      mid, midLay, first := Snap(), lay, page;
      if page == 0 {
        return true, mid, midLay, first;
      }
      panic := false;
      LinkDescs(page);
      lay := InitLayout(midLay, page);
      InitOk(mid, midLay, Snap(), page);
      InitKeeps(mid, midLay, Snap(), page, view);
      KeepsTransitive(old(Snap()), old(lay), mid, midLay, Snap(), lay, view);
    }

    // malloc.c:151-164
    method LinkDescs(first: nat)
      requires CanInit(Snap(), lay, first)
      modifies this`descs, this`free
      ensures Initialised(old(Snap()), Snap(), first)
    {
      ghost var h := Snap();
      VacantPage(h, lay, first);
      assert Part(first, 0) == {};
      var bdesc := first;
      var i := 256;
      while i > 1
        invariant 1 <= i <= 256 && bdesc == DescAt(first, 256 - i)
        invariant chains == h.chains && words == h.words && free == h.free
        invariant Partly(h.descs, descs, first, 256 - i)
      {
        OneMore(h.descs, descs, first, 256 - i, Desc(0, bdesc + 16, 0, 0, 0));
        descs := descs[bdesc := Desc(0, bdesc + 16, 0, 0, 0)];
        bdesc := bdesc + 16;
        i := i - 1;
      }
      AllLinked(h, descs, first, Desc(0, free, 0, 0, 0));
      descs := descs[bdesc := Desc(0, free, 0, 0, 0)];
      free := first;
    }

    /** The first descriptor in the chain with a free slot, 0 if there is none. */
    method FindRoom(k: Bucket) returns (bdesc: nat)
      requires Valid()
      ensures bdesc != 0 ==> CanTake(Snap(), lay, bdesc) && lay.place[bdesc] == In(k) && bdesc in lay.chain[k]
      ensures bdesc != 0 <==> HasRoom(Snap(), lay, k)
      ensures bdesc == 0 ==> forall d | d in lay.chain[k] :: d in descs && descs[d].freeptr == 0
    {
      assert ChainOk(Snap(), lay, k);
      bdesc := chains[k];
      ghost var i := 0;
      while bdesc != 0
        invariant 0 <= i <= |lay.chain[k]| && bdesc == At(lay.chain[k], i)
        invariant forall n | 0 <= n < i :: lay.chain[k][n] in descs && descs[lay.chain[k][n]].freeptr == 0
        decreases |lay.chain[k]| - i
      {
        NextIn(Snap(), lay, k, i);
        if descs[bdesc].freeptr != 0 {
          return;
        }
        bdesc := descs[bdesc].next;
        i := i + 1;
      }
    }

    /** The words of a new page, each slot leading to the next. */
    method Thread(page: nat, k: Bucket) returns (w: map<nat, nat>)
      ensures Threaded(words, w, page, k, Count(k))
    {
      CountFits(k);
      w := words;
      var cp := page;
      var j := 0;
      assert Addr(page, k, 0) == page;
      var n := PAGE_SIZE / Size(k);
      while j < n - 1
        invariant 0 <= j < Count(k) && cp == Addr(page, k, j)
        invariant Threaded(words, w, page, k, j)
      {
        assert Addr(page, k, j + 1) == cp + Size(k);
        ThreadOne(words, w, page, k, j);
        w := w[cp := cp + Size(k)];
        cp := cp + Size(k);
        j := j + 1;
      }
      ThreadOne(words, w, page, k, j);
      w := w[cp := 0];
    }

    /** Take a free descriptor and a page for it, and put it in front of the chain.  Other
        tasks may run twice meanwhile; the descriptor being set up is in no list then. */
    method NewBucket(k: Bucket) returns (bdesc: nat, panic: bool)
      requires Valid()
      modifies this
      ensures panic ==> refused > old(refused)
      ensures refused >= old(refused) && clock > old(clock)
      ensures !panic ==> Lawful(env) && Inv(Snap(), lay) && view == old(view) && InUse(lay, bdesc)
      ensures !panic ==> CanTake(Snap(), lay, bdesc) && lay.place[bdesc] == In(k)
      ensures !panic ==> Keeps(old(Snap()), old(lay), Snap(), lay, view)
    {
      bdesc, panic := TakeDesc(k);
      if panic {
        return;
      }
      ghost var h, l := Snap(), lay;
      var page := PageFor(bdesc);
      ghost var h1, l1 := Snap(), lay;
      KeepsTransitive(old(Snap()), old(lay), h, l, h1, l1, view);
      if page == 0 {
        return bdesc, true;
      }
      OpenBucket(k, bdesc, page);
      KeepsTransitive(old(Snap()), old(lay), h1, l1, Snap(), lay, view);
    }

    /** get_free_page for a descriptor that is being set up: it is in no list meanwhile. */
    method PageFor(bdesc: nat) returns (page: nat)
      requires Valid() && bdesc in lay.place && lay.place[bdesc] == Pending && bdesc !in view.held && bdesc in descs
      modifies this
      ensures clock > old(clock)
      ensures Valid() && view == old(view) && refused == if page == 0 then old(refused) + 1 else old(refused)
      ensures Keeps(old(Snap()), old(lay), Snap(), lay, view)
      ensures bdesc in descs && descs[bdesc] == old(descs)[bdesc] && bdesc in lay.place && lay.place[bdesc] == Pending
      ensures page != 0 ==> FreshPage(Snap(), lay, page)
    {
      ghost var h, l := Snap(), lay;
      var held := view.held;
      HeldMore(h, l, view, bdesc);
      view := view.(held := held + {bdesc});
      page := Sleep();
      KeepsFewer(h, l, Snap(), lay, view, view.(held := held));
      view := view.(held := held);
    }

    method TakeDesc(k: Bucket) returns (bdesc: nat, panic: bool)
      requires Valid()
      modifies this
      ensures panic ==> refused > old(refused)
      ensures refused >= old(refused) && clock >= old(clock) && (panic ==> clock > old(clock))
      ensures Lawful(env) && view == old(view)
      ensures !panic ==> Valid() && Keeps(old(Snap()), old(lay), Snap(), lay, view)
      ensures !panic ==> bdesc in lay.place && lay.place[bdesc] == Pending && bdesc !in view.held
      ensures !panic ==> bdesc in descs && descs[bdesc].refcnt == 0 && descs[bdesc].size == Size(k)
    {
      KeepsNothing(Snap(), lay, view);
      bdesc, panic := 0, false;
      if free == 0 {
        ghost var mid, midLay, first;
        panic, mid, midLay, first := InitBucketDesc();
        if panic {
          return;
        }
      }
      ghost var h, l := Snap(), lay;
      bdesc := PopDesc(k);
      KeepsTransitive(old(Snap()), old(lay), h, l, Snap(), lay, view);
    }

    // malloc.c:211-214
    method PopDesc(k: Bucket) returns (bdesc: nat)
      requires Valid() && free != 0
      modifies this`descs, this`free, this`lay
      ensures Valid() && Keeps(old(Snap()), old(lay), Snap(), lay, view)
      ensures bdesc in lay.place && lay.place[bdesc] == Pending && bdesc !in view.held
      ensures bdesc in descs && descs[bdesc].refcnt == 0 && descs[bdesc].size == Size(k)
    {
      ghost var h, l := Snap(), lay;
      PopFacts(h, l);
      bdesc := free;
      free := descs[bdesc].next;
      descs := descs[bdesc := descs[bdesc].(refcnt := 0, size := Size(k))];
      lay := PoppedLayout(h, l);
      PopOk(h, l, k);
      PopKeeps(h, l, k, view);
    }

    method OpenBucket(k: Bucket, bdesc: nat, page: nat)
      requires Valid() && bdesc in lay.place && lay.place[bdesc] == Pending && bdesc !in view.held && FreshPage(Snap(), lay, page)
      requires bdesc in descs && descs[bdesc].refcnt == 0 && descs[bdesc].size == Size(k)
      modifies this`descs, this`chains, this`words, this`lay
      ensures Inv(Snap(), lay) && InUse(lay, bdesc) && CanTake(Snap(), lay, bdesc) && lay.place[bdesc] == In(k)
      ensures Keeps(old(Snap()), old(lay), Snap(), lay, view)
    {
      ghost var h, l := Snap(), lay;
      var w := Thread(page, k);
      words := w;
      descs := descs[bdesc := descs[bdesc].(page := page, freeptr := page, next := chains[k])];
      chains := chains[k := bdesc];
      lay := OpenedLayout(l, bdesc, k, page);
      assert Snap() == Opened(h, bdesc, k, page, w);
      OpenedAll(h, l, bdesc, k, page, w, view);
    }

    /** malloc: an object of the smallest size that is large enough, apart from every other
        live object; nothing this task already had moved or changed. */
    method Alloc(len: nat) returns (retval: nat, badArg: bool, outOfMemory: bool)
      requires Valid()
      modifies this
      ensures outOfMemory ==> refused > old(refused)
      ensures badArg <==> len > 4096
      ensures forall k: Bucket | !badArg && Fits(k, len) :: clock == old(clock) <==> HasRoom(old(Snap()), old(lay), k)
      ensures forall k: Bucket | !badArg && Fits(k, len) && HasRoom(old(Snap()), old(lay), k) ::
        !outOfMemory && retval in view.mine && FromRoom(old(Snap()), old(lay), lay, k, view.mine[retval], retval)
      ensures badArg ==> Snap() == old(Snap()) && view == old(view)
      ensures !badArg && !outOfMemory ==>
        && Valid() && retval != 0 && retval !in old(view.mine) && retval in view.mine
        && view == old(view).(mine := old(view.mine)[retval := view.mine[retval]])
        && BucketFor(lay, view.mine[retval], len)
        && Apart(Snap(), lay, view.mine[retval])
        && Keeps(old(Snap()), old(lay), Snap(), lay, old(view))
    {
      retval, badArg, outOfMemory := 0, false, false;
      var k := 0;
      while k < 9 && SIZES[k] < len
        invariant 0 <= k <= 9 && (forall w | 0 <= w < k :: SIZES[w] < len)
      {
        k := k + 1;
      }
      if k == 9 {
        assert SIZES[8] < len;
        badArg := true;
        return;
      }
      assert SIZES[k] <= 4096;
      FitsOnce(k, len);
      retval, outOfMemory := AllocIn(k);
    }

    // malloc.c:201-240
    method AllocIn(k: Bucket) returns (retval: nat, outOfMemory: bool)
      requires Valid()
      modifies this
      ensures outOfMemory ==> refused > old(refused)
      ensures clock >= old(clock) && (clock == old(clock) <==> HasRoom(old(Snap()), old(lay), k))
      ensures clock == old(clock) ==> !outOfMemory
      ensures !outOfMemory ==>
        && Valid() && retval != 0 && retval !in old(view.mine) && retval in view.mine
        && view == old(view).(mine := old(view.mine)[retval := view.mine[retval]])
        && InChain(lay, view.mine[retval].d) && lay.place[view.mine[retval].d] == In(k)
        && Apart(Snap(), lay, view.mine[retval])
        && Keeps(old(Snap()), old(lay), Snap(), lay, old(view))
      ensures clock == old(clock) ==> FromRoom(old(Snap()), old(lay), lay, k, view.mine[retval], retval)
    {
      retval, outOfMemory := 0, false;
      KeepsNothing(Snap(), lay, view);
      var bdesc := FindRoom(k);
      if bdesc == 0 {
        bdesc, outOfMemory := NewBucket(k);
        if outOfMemory {
          return;
        }
      }
      ghost var h, l := Snap(), lay;
      assert Keeps(old(Snap()), old(lay), h, l, view);
      retval := TakeSlot(bdesc, k);
      KeepsTransitive(old(Snap()), old(lay), h, l, Snap(), lay, old(view));
    }

    // malloc.c:236-239
    method TakeSlot(bdesc: nat, k: Bucket) returns (retval: nat)
      requires CanTake(Snap(), lay, bdesc) && lay.place[bdesc] == In(k) && ViewOk(Snap(), lay, view) && (InUse(lay, 0) || InUse(lay, bdesc))
      modifies this`descs, this`lay, this`view
      ensures Handed(old(Snap()), old(lay), old(view), Snap(), lay, view, bdesc, retval)
    {
      var j;
      TookAll(Snap(), lay, view, bdesc);
      lay := TookLayout(lay, bdesc);
      retval, j := PopSlot(bdesc, k);
      view := view.(mine := view.mine[retval := Obj(bdesc, j)]);
    }

    method PopSlot(bdesc: nat, k: Bucket) returns (retval: nat, j: nat)
      requires bdesc in descs && descs[bdesc].freeptr in words && descs[bdesc].freeptr >= descs[bdesc].page
      modifies this`descs
      ensures Snap() == Took(old(Snap()), bdesc)
      ensures retval == old(descs)[bdesc].freeptr && j == SlotOf(k, retval - old(descs)[bdesc].page)
    {
      retval := descs[bdesc].freeptr;
      j := SlotOf(k, retval - descs[bdesc].page);
      descs := descs[bdesc := descs[bdesc].(freeptr := words[retval])];
      descs := descs[bdesc := descs[bdesc].(refcnt := descs[bdesc].refcnt + 1)];
    }

    // ---- free_s ---------------------------------------------------------------------------------------

    /** Look for the page in one chain.  Before each look and after it an interrupt may change
        the chains, `interrupts` times in all.  What is found is what a walk finds that nobody
        interrupts any more, from the descriptor on where the last interrupt left it
        (WalkFindsIff).  Only a walk that stood on a descriptor that another task was setting
        up can go round for ever. */
    method FindInChain(k: Bucket, page: nat, obj: nat, interrupts: nat)
      returns (bdesc: nat, prev: nat, hung: bool, left: nat, ghost w: Walk)
      requires Valid() && obj in view.mine && page == PageOf(obj)
      modifies this
      ensures Valid() && view == old(view) && Keeps(old(Snap()), old(lay), Snap(), lay, view) && left <= interrupts
      ensures interrupts == 0 ==> !w.t.astray && Snap() == old(Snap()) && lay == old(lay)
      ensures w == Walk(Snap(), lay, k, w.t, bdesc, hung) && WalkOk(w, view.mine[obj].d, page) && Leads(w, view.mine[obj].d, prev)
    {
      ghost var d := view.mine[obj].d;
      KeepsNothing(Snap(), lay, view);
      Owned(obj);
      TrailStart(Snap(), lay, k, page, d);
      prev, hung, left := 0, false, interrupts;
      bdesc := chains[k];
      var n := 0;
      ghost var t := Trail(bdesc, false, false);
      while bdesc != 0
        invariant Valid() && view == old(view) && Keeps(old(Snap()), old(lay), Snap(), lay, view) && left <= interrupts
        invariant OnTrail(Snap(), lay, k, page, d, bdesc, prev, n, t)
        invariant interrupts == 0 ==> !t.astray && Snap() == old(Snap()) && lay == old(lay)
        decreases left, |descs| - n
      {
        if n == |descs| {
          TrailHangs(Snap(), lay, k, page, d, bdesc, prev, n, t);
          hung, w := true, Walk(Snap(), lay, k, t, bdesc, true);
          return;
        }
        ghost var h, l := Snap(), lay;
        var found, next;
        found, next, n, left, t := Advance(k, bdesc, page, obj, prev, n, left, t);
        KeepsTransitive(old(Snap()), old(lay), h, l, Snap(), lay, view);
        if found {
          TrailEnds(Snap(), lay, k, page, d, bdesc, prev, n, t);
          w := Walk(Snap(), lay, k, t, bdesc, false);
          return;
        }
        prev, bdesc := bdesc, next;
      }
      TrailEnds(Snap(), lay, k, page, d, bdesc, prev, n, t);
      w := Walk(Snap(), lay, k, t, bdesc, false);
    }

    /** One look at a descriptor, interrupted before it and after it. */
    method Advance(k: Bucket, bdesc: nat, page: nat, obj: nat, ghost prev: nat, n0: nat, interrupts: nat, ghost t0: Trail)
      returns (found: bool, next: nat, n: nat, left: nat, ghost t: Trail)
      requires Valid() && obj in view.mine && page == PageOf(obj) && bdesc != 0 && n0 < |descs|
      requires OnTrail(Snap(), lay, k, page, view.mine[obj].d, bdesc, prev, n0, t0)
      modifies this
      ensures Valid() && view == old(view) && Keeps(old(Snap()), old(lay), Snap(), lay, view) && left <= interrupts
      ensures left == interrupts ==> Snap() == old(Snap()) && lay == old(lay) && t == t0 && (!found ==> n == n0 + 1)
      ensures found ==> bdesc in descs && descs[bdesc].page == page && n < |descs| && OnTrail(Snap(), lay, k, page, view.mine[obj].d, bdesc, prev, n, t)
      ensures !found ==> OnTrail(Snap(), lay, k, page, view.mine[obj].d, next, bdesc, n, t)
    {
      left, n, t, next, found := interrupts, n0, t0, 0, false;
      KeepsNothing(Snap(), lay, view);
      if left > 0 {
        left := left - 1;
        t := Interrupt(k, bdesc, page, obj, prev, n0, t);
        n := 0;
      }
      if descs[bdesc].page == page {
        found := true;
        return;
      }
      ghost var h, l := Snap(), lay;
      next, n, left, t := StepOn(k, bdesc, page, obj, prev, n, left, t);
      KeepsTransitive(old(Snap()), old(lay), h, l, Snap(), lay, view);
    }

    /** bdesc = bdesc->next, after a look without success and perhaps an interrupt. */
    method StepOn(k: Bucket, bdesc: nat, page: nat, obj: nat, ghost prev: nat, n0: nat, interrupts: nat, ghost t0: Trail)
      returns (next: nat, n: nat, left: nat, ghost t: Trail)
      requires Valid() && obj in view.mine && page == PageOf(obj) && bdesc != 0 && n0 < |descs|
      requires OnTrail(Snap(), lay, k, page, view.mine[obj].d, bdesc, prev, n0, t0) && descs[bdesc].page != page
      modifies this
      ensures Valid() && view == old(view) && Keeps(old(Snap()), old(lay), Snap(), lay, view) && left <= interrupts
      ensures left == interrupts ==> Snap() == old(Snap()) && lay == old(lay) && t == t0 && n == n0 + 1
      ensures OnTrail(Snap(), lay, k, page, view.mine[obj].d, next, bdesc, n, t)
    {
      Owned(obj);
      left, t := interrupts, t0;
      if left > 0 {
        left := left - 1;
        t := Interrupt(k, bdesc, page, obj, prev, n0, t);
        TrailLeaps(Snap(), lay, k, page, view.mine[obj].d, bdesc, prev, 0, t);
        next, n := descs[bdesc].next, 0;
        t := t.(from := next);
      } else {
        KeepsNothing(Snap(), lay, view);
        TrailNext(Snap(), lay, k, page, view.mine[obj].d, bdesc, prev, n0, t);
        next, n := descs[bdesc].next, n0 + 1;
      }
    }

    /** An interrupt while the search stands on bdesc. */
    method Interrupt(k: Bucket, bdesc: nat, page: nat, obj: nat, ghost prev: nat, ghost n: nat, ghost t0: Trail) returns (ghost t: Trail)
      requires Valid() && obj in view.mine && page == PageOf(obj) && bdesc != 0
      requires OnTrail(Snap(), lay, k, page, view.mine[obj].d, bdesc, prev, n, t0)
      modifies this
      ensures Valid() && view == old(view) && Keeps(old(Snap()), old(lay), Snap(), lay, view)
      ensures bdesc in descs && OnTrail(Snap(), lay, k, page, view.mine[obj].d, bdesc, prev, 0, t)
    {
      ghost var h, l := Snap(), lay;
      var _ := Sleep();
      Owned(obj);
      t := TrailInterrupted(h, l, Snap(), lay, view, obj, k, page, bdesc, prev, n, t0);
    }

    lemma Owned(obj: nat)
      requires Valid() && obj in view.mine
      ensures var d := view.mine[obj].d; InChain(lay, d) && d in descs && descs[d].page == PageOf(obj) && d != 0
    {
      var o := view.mine[obj];
      assert Mine(Snap(), lay, view, obj) && BucketOk(Snap(), lay, o.d);
      SlotInPage(descs[o.d].page, lay.place[o.d].k, o.j);
    }

    /** Look for the page in all chains of objects that are not smaller than size: the first
        walk that finds anything is the last. */
    method FindDesc(page: nat, size: int, obj: nat, interrupts: nat)
      returns (k: nat, bdesc: nat, prev: nat, hung: bool, ghost walks: seq<Walk>)
      requires Valid() && obj in view.mine && page == PageOf(obj)
      modifies this
      ensures Valid() && view == old(view) && Keeps(old(Snap()), old(lay), Snap(), lay, view)
      ensures interrupts == 0 ==> !Astray(walks) && Snap() == old(Snap()) && lay == old(lay)
      ensures Searched(walks, view.mine[obj].d, page, size, if bdesc == 0 then k else k + 1)
      ensures bdesc == 0 ==> k == 9 && !hung && AllInVain(walks)
      ensures bdesc != 0 ==> k < 9 && LastIs(walks, Snap(), lay, k, bdesc, hung, view.mine[obj].d, page, prev)
      ensures SamePlace(old(lay), lay, view.mine[obj].d)
      ensures !Astray(walks) ==> !hung && FoundInPlace(lay, view.mine[obj].d, size, k, bdesc)
    {
      ghost var d := view.mine[obj].d;
      KeepsNothing(Snap(), lay, view);
      Owned(obj);
      k, bdesc, prev, hung, walks := 0, 0, 0, false, [];
      var left: nat := interrupts;
      while k < 9
        invariant 0 <= k <= 9 && bdesc == 0 && !hung && Valid() && view == old(view)
        invariant InVain(old(Snap()), old(lay), Snap(), lay, view, walks, d, page, size, k)
        invariant interrupts == 0 ==> left == 0 && !Astray(walks) && Snap() == old(Snap()) && lay == old(lay)
      {
        bdesc, prev, hung, left, walks := TryChain(k, page, size, obj, left, walks, old(Snap()), old(lay));
        if bdesc != 0 {
          return;
        }
        k := k + 1;
      }
    }

    method TryChain(k: Bucket, page: nat, size: int, obj: nat, interrupts: nat, ghost before: seq<Walk>, ghost h0: Heap, ghost l0: Layout)
      returns (bdesc: nat, prev: nat, hung: bool, left: nat, ghost walks: seq<Walk>)
      requires Valid() && obj in view.mine && page == PageOf(obj)
      requires InVain(h0, l0, Snap(), lay, view, before, view.mine[obj].d, page, size, k)
      modifies this
      ensures Valid() && view == old(view)
      ensures interrupts == 0 ==> left == 0 && (Astray(walks) ==> Astray(before)) && Snap() == old(Snap()) && lay == old(lay)
      ensures bdesc == 0 ==> !hung && InVain(h0, l0, Snap(), lay, view, walks, view.mine[obj].d, page, size, k + 1)
      ensures bdesc != 0 ==> Keeps(h0, l0, Snap(), lay, view) && SamePlace(l0, lay, view.mine[obj].d)
      ensures bdesc != 0 ==> Searched(walks, view.mine[obj].d, page, size, k + 1) && LastIs(walks, Snap(), lay, k, bdesc, hung, view.mine[obj].d, page, prev)
      ensures bdesc != 0 && !Astray(walks) ==> !hung && FoundInPlace(lay, view.mine[obj].d, size, k, bdesc)
    {
      ghost var h, l, d := Snap(), lay, view.mine[obj].d;
      if SIZES[k] < size {
        SearchedSmall(before, d, page, size, k);
        return 0, 0, false, interrupts, before;
      }
      Owned(obj);
      ghost var w;
      bdesc, prev, hung, left, w := FindInChain(k, page, obj, interrupts);
      assert ObjKept(h, l, Snap(), lay, view, obj);
      KeepsTransitive(h0, l0, h, l, Snap(), lay, view);
      SearchedMore(before, d, page, size, k, w);
      walks := before + [w];
      if !w.t.astray { StraightWalk(w, d, page); }
    }

    /** free_s.  The object is gone, and its page goes back exactly if nothing is left on it,
        whenever the search found the right descriptor in the right way (Right); it does
        unless an interrupt took the one it stood on out of its chain.  Otherwise s says how
        each walk ended, and each outcome is stated: no descriptor, the panic badAddress; the
        right one but along another chain (Misled), the panic corrupted if the page is empty
        now; a free one that had kept the page's address, and the object stays taken for ever.
        s.h and s.l are heap and lists when interrupts are closed; what is done to them from
        there is Ran, whatever was found. */
    method FreeS(obj: nat, size: int, interrupts: nat)
      returns (freedPage: bool, badAddress: bool, corrupted: bool, hung: bool, ghost s: SearchLog)
      requires Valid() && obj in view.mine
      modifies this
      ensures interrupts == 0 ==> !Astray(s.walks)
      ensures Logged(s, old(Snap()), old(lay), old(view), obj, size, hung)
      ensures badAddress <==> s.found == 0
      ensures hung || badAddress ==> GaveUp(s, old(view), Snap(), lay, view)
      ensures !hung && !badAddress ==> Released(s, old(Snap()), old(lay), old(view), obj, Snap(), lay, view, corrupted, freedPage)
      ensures Lawful(env)
    {
      var page := PageOf(obj);
      Owned(obj);
      var k, bdesc, prev;
      ghost var walks;
      k, bdesc, prev, hung, walks := FindDesc(page, size, obj, interrupts);
      freedPage, badAddress, corrupted := false, bdesc == 0, false;
      ghost var h1, l1 := Snap(), lay;
      s := SearchLog(h1, l1, k, bdesc, prev, walks);
      if hung || bdesc == 0 {
        EndsThere(s, old(Snap()), old(lay), view, obj, size, hung);
        return;
      }
      freedPage, corrupted, s := Conclude(obj, size, k, bdesc, prev, walks, old(Snap()), old(lay));
    }

    // malloc.c:291-321
    method Conclude(obj: nat, size: int, k: Bucket, bdesc: nat, prev: nat, ghost walks: seq<Walk>, ghost h0: Heap, ghost l0: Layout)
      returns (freedPage: bool, corrupted: bool, ghost s: SearchLog)
      requires Valid() && obj in view.mine && bdesc != 0 && Keeps(h0, l0, Snap(), lay, view) && SamePlace(l0, lay, view.mine[obj].d)
      requires Searched(walks, view.mine[obj].d, PageOf(obj), size, k + 1)
      requires LastIs(walks, Snap(), lay, k, bdesc, false, view.mine[obj].d, PageOf(obj), prev)
      requires !Astray(walks) ==> FoundInPlace(lay, view.mine[obj].d, size, k, bdesc)
      modifies this
      ensures s.walks == walks && s.found == bdesc && Logged(s, h0, l0, old(view), obj, size, false)
      ensures Released(s, h0, l0, old(view), obj, Snap(), lay, view, corrupted, freedPage)
      ensures Lawful(env)
    {
      ghost var h1, l1, v, h, l := Snap(), lay, view, Snap(), lay;
      Owned(obj);
      freedPage, corrupted, h, l := Release(obj, k, bdesc, prev, walks[|walks| - 1], h0, l0);
      s := SearchLog(h, l, k, bdesc, prev, walks);
      Concluded(s, h0, l0, h1, l1, v, obj, size, Snap(), lay, view, corrupted, freedPage);
    }

    // malloc.c:282-319, with the last moment before cli
    method Release(obj: nat, k: Bucket, bdesc: nat, prev: nat, ghost w: Walk, ghost h0: Heap, ghost l0: Layout)
      returns (freedPage: bool, corrupted: bool, ghost h: Heap, ghost l: Layout)
      requires Valid() && obj in view.mine && bdesc != 0 && Keeps(h0, l0, Snap(), lay, view)
      requires w == Walk(Snap(), lay, k, w.t, bdesc, false) && WalkOk(w, view.mine[obj].d, PageOf(obj)) && Leads(w, view.mine[obj].d, prev)
      modifies this
      ensures Begun(h0, l0, old(lay), old(view), h, l, k, bdesc, prev, obj, w.t.wild) && Lawful(env)
      ensures Released(SearchLog(h, l, k, bdesc, prev, []), h0, l0, old(view), obj, Snap(), lay, view, corrupted, freedPage)
    {
      ghost var h1, l1, v := Snap(), lay, view;
      Closing(obj, k, bdesc, prev, w);
      h, l := Snap(), lay;
      KeepsTransitive(h0, l0, h1, l1, h, l, v);
      freedPage, corrupted := Finish(obj, k, bdesc, prev);
      KeepsFewer(h0, l0, h, l, v, view);
      if Keeps(h, l, Snap(), lay, view) { KeepsTransitive(h0, l0, h, l, Snap(), lay, view); }
    }

    /** The last interrupt, before cli: "if someone rudely interrupted us". */
    method Closing(obj: nat, k: Bucket, bdesc: nat, prev: nat, ghost w: Walk)
      requires Valid() && obj in view.mine && bdesc != 0
      requires w == Walk(Snap(), lay, k, w.t, bdesc, false) && WalkOk(w, view.mine[obj].d, PageOf(obj)) && Leads(w, view.mine[obj].d, prev)
      modifies this
      ensures Valid() && view == old(view) && Keeps(old(Snap()), old(lay), Snap(), lay, view)
      ensures bdesc in descs && (prev == 0 || prev in descs)
      ensures ClosedAt(Snap(), lay, old(lay), k, bdesc, prev, view.mine[obj].d, w.t.wild)
    {
      ghost var h, l, d := Snap(), lay, view.mine[obj].d;
      var _ := Sleep();
      assert ObjKept(h, l, Snap(), lay, view, obj);
      if bdesc == d && !w.t.wild { RightOrMisled(Snap(), lay, k, d, prev); }
    }

    /** malloc.c:282-319, with whatever was found. */
    method Finish(obj: nat, k: Bucket, bdesc: nat, prev: nat) returns (freedPage: bool, corrupted: bool)
      requires Valid() && obj in view.mine && bdesc in descs && (prev == 0 || prev in descs)
      modifies this`descs, this`chains, this`free, this`words, this`lay, this`view
      ensures view == old(view).(mine := old(view.mine) - {obj})
      ensures Ran(old(Snap()), old(lay), k, bdesc, prev, obj, Snap(), corrupted, freedPage)
      ensures Settled(old(Snap()), old(lay), old(Snap()), old(lay), k, bdesc, prev, old(view).mine[obj], PageOf(obj), Snap(), lay, view, corrupted, freedPage)
    {
      ghost var h, l, v := Snap(), lay, view;
      freedPage, corrupted := FreeFound(obj, k, bdesc, prev);
      view := view.(mine := view.mine - {obj});
      ghost var right := bdesc == v.mine[obj].d && Right(h, l, k, bdesc, prev);
      if right {
        lay := RightRan(h, l, v, obj, k, prev, Snap(), corrupted, freedPage);
      } else if bdesc == v.mine[obj].d && Misled(h, l, k, bdesc, prev) {
        lay := MisledRan(h, l, v, obj, k, prev, Snap(), corrupted, freedPage);
      }
      if l.place[bdesc] == FreeDesc {
        StaleRan(h, l, v, obj, k, bdesc, prev, Snap(), corrupted, freedPage);
        OthersObjects(Snap(), l, v, obj);
      }
    }

    method FreeFound(obj: nat, k: Bucket, bdesc: nat, prev: nat) returns (freedPage: bool, corrupted: bool)
      requires Inv(Snap(), lay) && bdesc in descs && (prev == 0 || prev in descs)
      modifies this`descs, this`chains, this`free, this`words
      ensures Ran(old(Snap()), lay, k, bdesc, prev, obj, Snap(), corrupted, freedPage)
    {
      freedPage, corrupted := false, false;
      GivenChain(Snap(), lay, k, bdesc, obj);
      GiveSlot(obj, bdesc);
      if descs[bdesc].refcnt == 0 {
        ghost var p;
        corrupted, p := Unlink(k, bdesc, prev);
        freedPage := !corrupted;
      }
    }

    // malloc.c:283-285
    method GiveSlot(obj: nat, bdesc: nat)
      requires bdesc in descs
      modifies this`descs, this`words
      ensures Snap() == Given(old(Snap()), bdesc, obj)
    {
      words := words[obj := descs[bdesc].freeptr];
      descs := descs[bdesc := descs[bdesc].(freeptr := obj)];
      descs := descs[bdesc := descs[bdesc].(refcnt := Fewer(descs[bdesc].refcnt))];
    }

    /** The page's last object is gone: take the descriptor out of its chain, even if prev is
        not its predecessor any more, and give the page back. */
    method Unlink(k: Bucket, bdesc: nat, prev0: nat) returns (corrupted: bool, ghost p: nat)
      requires |chains| == |lay.chain| == BUCKETS && ChainOk(Snap(), lay, k) && 0 !in descs && bdesc in descs && (prev0 == 0 || prev0 in descs)
      modifies this`descs, this`chains, this`free
      ensures Spliced(old(Snap()), lay, k, bdesc, prev0, p, Snap(), corrupted, !corrupted)
    {
      var prev := prev0;
      if (prev != 0 && descs[prev].next != bdesc) || (prev == 0 && chains[k] != bdesc) {
        prev := FindPrev(k, bdesc);
      }
      p := prev;
      corrupted := Splice(k, prev, bdesc);
    }

    // malloc.c:300-316
    method Splice(k: Bucket, prev: nat, bdesc: nat) returns (corrupted: bool)
      requires |chains| == BUCKETS && bdesc in descs && (prev != 0 ==> prev in descs)
      modifies this`descs, this`chains, this`free
      ensures corrupted <==> prev == 0 && old(chains)[k] != bdesc
      ensures Snap() == if corrupted then old(Snap()) else Closed(old(Snap()), k, prev, bdesc)
    {
      corrupted := prev == 0 && chains[k] != bdesc;
      if corrupted {
        return;
      }
      if prev != 0 {
        descs := descs[prev := descs[prev].(next := descs[bdesc].next)];
      } else {
        chains := chains[k := descs[bdesc].next];
      }
      descs := descs[bdesc := descs[bdesc].(next := free)];
      free := bdesc;
    }

    /** A descriptor of the chain that leads to bdesc, 0 if there is none. */
    method FindPrev(k: Bucket, bdesc: nat) returns (prev: nat)
      requires |chains| == |lay.chain| == BUCKETS && ChainOk(Snap(), lay, k) && 0 !in descs
      ensures prev != 0 ==> prev in lay.chain[k] && PointsTo(Snap(), prev, bdesc)
      ensures prev == 0 ==> forall y | y in lay.chain[k] :: !PointsTo(Snap(), y, bdesc)
    {
      ghost var c := lay.chain[k];
      prev := chains[k];
      ghost var i := 0;
      while prev != 0
        invariant 0 <= i <= |c| && prev == At(c, i)
        invariant forall n | 0 <= n < i :: !PointsTo(Snap(), c[n], bdesc)
        decreases |c| - i
      {
        assert NextOk(Snap().descs, c, i) && c[i] in c;
        if descs[prev].next == bdesc {
          return;
        }
        prev := descs[prev].next;
        i := i + 1;
      }
      assert i < |c| ==> NextOk(Snap().descs, c, i);
      forall y | y in c
        ensures !PointsTo(Snap(), y, bdesc)
      {
        var n :| 0 <= n < |c| && c[n] == y;
      }
    }
  }
}
