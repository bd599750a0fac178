/** The search of free_s for the descriptor of a page, which interrupts may change the
    chains under: when it is safe, and a heap in which it is not. */
module BucketSearch {
  import opened BucketModel
  import opened BucketSteps

  // ---- where a walk ends ----------------------------------------------------------------------------

  lemma {:induction false} DistinctFits(c: seq<nat>, s: set<nat>)
    requires Distinct(c) && forall x | x in c :: x in s
    ensures |c| <= |s|
  {
    if c != [] {
      var last, front := c[|c| - 1], c[..|c| - 1];
      assert last in c;
      forall x | x in front
        ensures x in s - {last}
      {
        assert x in c;
      }
      DistinctFits(front, s - {last});
    }
  }

  /** The rest of the walk along a chain, if nobody interrupts it any more. */
  function Search(descs: map<nat, Desc>, cur: nat, page: nat, fuel: nat): nat
    decreases fuel
  {
    if fuel == 0 || cur == 0 || cur !in descs then 0
    else if descs[cur].page == page then cur
    else Search(descs, descs[cur].next, page, fuel - 1)
  }

  /** The list that a descriptor in this place is in. */
  function ListIn(l: Layout, w: Where): seq<nat>
    requires |l.chain| == BUCKETS
  {
    match w
    case In(k) => l.chain[k]
    case FreeDesc => l.free
    case Pending => []
  }

  lemma ListInOk(h: Heap, l: Layout, w: Where)
    requires Formed(h, l) && w != Pending
    ensures exists head :: ListOk(h, l.place, head, ListIn(l, w), w)
    ensures |ListIn(l, w)| <= |h.descs|
  {
    if w.In? { assert ChainOk(h, l, w.k); }
    var head :| ListOk(h, l.place, head, ListIn(l, w), w);
    DistinctFits(ListIn(l, w), h.descs.Keys);
  }

  lemma PlaceIn(h: Heap, l: Layout, e: nat) returns (i: nat)
    requires Formed(h, l) && e in l.place && l.place[e] != Pending
    ensures i < |ListIn(l, l.place[e])| && ListIn(l, l.place[e])[i] == e
    ensures e in h.descs && e != 0 && h.descs[e].next == At(ListIn(l, l.place[e]), i + 1)
  {
    ListInOk(h, l, l.place[e]);
    var c := ListIn(l, l.place[e]);
    var head :| ListOk(h, l.place, head, c, l.place[e]);
    assert e in c;
    i :| 0 <= i < |c| && c[i] == e;
    assert NextOk(h.descs, c, i);
  }

  ghost predicate HasPage(descs: map<nat, Desc>, c: seq<nat>, i: nat, page: nat)
    requires i < |c|
  {
    c[i] in descs && descs[c[i]].page == page
  }

  /** A walk along a list ends at the first descriptor from its position on that has the
      page, or runs out. */
  lemma {:induction false} SearchList(h: Heap, place: map<nat, Where>, head: nat, c: seq<nat>, w: Where, i: nat, page: nat, fuel: nat)
    requires ListOk(h, place, head, c, w) && i <= |c| && |c| - i <= fuel && 0 !in h.descs
    ensures var r := Search(h.descs, At(c, i), page, fuel);
      if r == 0 then forall n: nat {:trigger HasPage(h.descs, c, n, page)} | i <= n < |c| :: !HasPage(h.descs, c, n, page)
      else exists n {:trigger HasPage(h.descs, c, n, page)} :: i <= n < |c| && c[n] == r && HasPage(h.descs, c, n, page)
    decreases fuel
  {
    if i < |c| {
      assert NextOk(h.descs, c, i);
      if HasPage(h.descs, c, i, page) {
        assert Search(h.descs, At(c, i), page, fuel) == c[i];
      } else {
        SearchList(h, place, head, c, w, i + 1, page, fuel - 1);
      }
    }
  }

  /** From a descriptor in some list: what the walk finds is in that list, at or behind it,
      and has the page; nothing is found only if none there has it. */
  lemma SearchFrom(h: Heap, l: Layout, e: nat, page: nat)
    requires Formed(h, l) && e in l.place && l.place[e] != Pending
    ensures var r := Search(h.descs, e, page, |h.descs|);
      if r == 0 then forall x | x in h.descs && x in l.place && l.place[x] == l.place[e] && !Ahead(l, x, e) :: h.descs[x].page != page
      else r in h.descs && r in l.place && l.place[r] == l.place[e] && h.descs[r].page == page && !Ahead(l, r, e)
  {
    var c, w := ListIn(l, l.place[e]), l.place[e];
    ListInOk(h, l, w);
    var head :| ListOk(h, l.place, head, c, w);
    var i := PlaceIn(h, l, e);
    var r := Search(h.descs, e, page, |h.descs|);
    SearchList(h, l.place, head, c, w, i, page, |h.descs|);
    if r == 0 {
      forall x | x in h.descs && x in l.place && l.place[x] == w && !Ahead(l, x, e)
        ensures h.descs[x].page != page
      {
        var n := PlaceIn(h, l, x);
        assert n < i ==> Later(c, e, x);
        assert !HasPage(h.descs, c, n, page);
      }
    } else {
      var n :| i <= n < |c| && c[n] == r && HasPage(h.descs, c, n, page);
      NotLater(c, i, n);
      assert r in c;
    }
  }

  /** x is in e's list, somewhere before e. */
  ghost predicate Ahead(l: Layout, x: nat, e: nat) {
    |l.chain| == BUCKETS && e in l.place && Later(ListIn(l, l.place[e]), e, x)
  }

  lemma NotLater(c: seq<nat>, i: nat, n: nat)
    requires Distinct(c) && i <= n < |c|
    ensures !Later(c, c[i], c[n])
  {
  }

  /** The search for a live object's page, resumed at a descriptor that nobody is setting up:
      it finds the object's descriptor if and only if it stands in that descriptor's chain and
      has not passed it. */
  lemma FindsIff(h: Heap, l: Layout, d: nat, e: nat)
    requires Formed(h, l) && InChain(l, d) && d in h.descs && e in l.place && l.place[e] != Pending
    ensures Search(h.descs, e, h.descs[d].page, |h.descs|) == d <==> l.place[e] == l.place[d] && !Behind(l, e, d)
  {
    var page, r := h.descs[d].page, Search(h.descs, e, h.descs[d].page, |h.descs|);
    SearchFrom(h, l, e, page);
    assert BucketOk(h, l, d) && d != 0;
    if l.place[e] == l.place[d] {
      assert Ahead(l, d, e) <==> Behind(l, e, d);
      if r != 0 { assert BucketOk(h, l, r); }
    }
  }

  /** What the search finds instead: nothing in a chain; among the free descriptors the first
      that has kept the page's address, if any has. */
  lemma FindsElse(h: Heap, l: Layout, d: nat, e: nat)
    requires Formed(h, l) && InChain(l, d) && d in h.descs && e in l.place && l.place[e] != Pending
    ensures var r := Search(h.descs, e, h.descs[d].page, |h.descs|);
      && (l.place[e].In? ==> r == d || r == 0)
      && (l.place[e] == FreeDesc ==> (r == 0 <==> forall x | StaleFrom(h, l, e, x) :: h.descs[x].page != h.descs[d].page))
      && (r != 0 && r != d ==> l.place[e] == FreeDesc && StaleFrom(h, l, e, r) && h.descs[r].page == h.descs[d].page)
  {
    var r := Search(h.descs, e, h.descs[d].page, |h.descs|);
    SearchFrom(h, l, e, h.descs[d].page);
    assert BucketOk(h, l, d);
    if l.place[e].In? && r != 0 { assert BucketOk(h, l, r); }
  }

  /** No free descriptor from the free descriptor e on has kept the page's address. */
  ghost predicate NoStale(h: Heap, l: Layout, e: nat, page: nat) {
    e in l.place && l.place[e] == FreeDesc && forall x | StaleFrom(h, l, e, x) :: h.descs[x].page != page
  }

  /** x is a free descriptor that a walk from the free descriptor e on meets. */
  ghost predicate StaleFrom(h: Heap, l: Layout, e: nat, x: nat) {
    x in h.descs && x in l.place && l.place[x] == FreeDesc && !Ahead(l, x, e)
  }

  // ---- the cursor -----------------------------------------------------------------------------------

  /** The search of chain k stands on e, or behind the last for 0, with prev before it: if d
      is in this chain, the search has not passed it. */
  ghost predicate CursorOk(h: Heap, l: Layout, k: Bucket, e: nat, d: nat, prev: nat) {
    && InChain(l, d) && (e != 0 ==> e in l.place && l.place[e] == In(k))
    && (l.place[d] == In(k) ==> e != 0 && !Behind(l, e, d) && (prev != 0 ==> Sane(h, l, prev, d)))
  }

  lemma Somewhere(h: Heap, l: Layout, k: Bucket, d: nat) returns (n: nat)
    requires Inv(h, l) && d in l.place && l.place[d] == In(k)
    ensures n < |l.chain[k]| && l.chain[k][n] == d && d in h.descs && d != 0 && h.descs[d].next == At(l.chain[k], n + 1)
  {
    assert ChainOk(h, l, k) && d in l.chain[k];
    n :| 0 <= n < |l.chain[k]| && l.chain[k][n] == d;
    assert NextOk(h.descs, l.chain[k], n);
  }

  /** Where d is ahead of position n, it is not behind what stands there. */
  lemma NotBehind(l: Layout, k: Bucket, n: nat, j: nat, d: nat)
    requires |l.chain| == BUCKETS && InChain(l, d) && l.place[d] == In(k) && Distinct(l.chain[k])
    requires n <= j < |l.chain[k]| && l.chain[k][j] == d
    ensures !Behind(l, l.chain[k][n], d)
  {
  }

  lemma CursorStart(h: Heap, l: Layout, k: Bucket, d: nat)
    requires Inv(h, l) && InChain(l, d)
    ensures CursorOk(h, l, k, h.chains[k], d, 0)
  {
    assert ChainOk(h, l, k);
    assert l.chain[k] != [] ==> l.chain[k][0] in l.chain[k];
    if l.place[d] == In(k) {
      var j := Somewhere(h, l, k, d);
      NotBehind(l, k, 0, j, d);
      var _ := Somewhere(h, l, k, h.chains[k]);
    }
  }

  lemma CursorNext(h: Heap, l: Layout, k: Bucket, e: nat, d: nat, prev: nat)
    requires Inv(h, l) && CursorOk(h, l, k, e, d, prev) && e != 0 && e != d && e in h.descs
    ensures CursorOk(h, l, k, h.descs[e].next, d, e)
  {
    var n := Somewhere(h, l, k, e);
    assert ChainOk(h, l, k);
    var c := l.chain[k];
    assert n + 1 < |c| ==> c[n + 1] in c;
    if l.place[d] == In(k) {
      var j := Somewhere(h, l, k, d);
      assert j < n ==> Behind(l, e, d);
      NotBehind(l, k, n + 1, j, d);
      var _ := Somewhere(h, l, k, c[n + 1]);
    }
  }

  /** How many of the chain come from e on. */
  ghost function Rest(c: seq<nat>, e: nat): nat { if c == [] then 0 else if c[0] == e then |c| else Rest(c[1..], e) }

  ghost function Remaining(l: Layout, k: Bucket, e: nat): nat { if |l.chain| == BUCKETS then Rest(l.chain[k], e) else 0 }

  lemma {:induction false} RestAt(c: seq<nat>, n: nat)
    requires Distinct(c) && n < |c|
    ensures Rest(c, c[n]) == |c| - n
  {
    if n > 0 { RestAt(c[1..], n - 1); }
  }

  lemma {:induction false} RestOut(c: seq<nat>, e: nat)
    requires e !in c
    ensures Rest(c, e) == 0
  {
    if c != [] { RestOut(c[1..], e); }
  }

  lemma NextRemains(h: Heap, l: Layout, k: Bucket, e: nat)
    requires Inv(h, l) && e in l.place && l.place[e] == In(k)
    ensures e in h.descs && Remaining(l, k, h.descs[e].next) < Remaining(l, k, e)
  {
    var n := Somewhere(h, l, k, e);
    var c := l.chain[k];
    assert ChainOk(h, l, k);
    RestAt(c, n);
    if n + 1 < |c| {
      RestAt(c, n + 1);
    } else {
      assert 0 !in c;
      RestOut(c, 0);
    }
  }

  /** What others do leaves the search right, as long as what it stands on is in its chain
      afterwards. */
  lemma CursorKept(h: Heap, l: Layout, g: Heap, m: Layout, v: View, a: nat, k: Bucket, e: nat, prev: nat)
    requires a in v.mine && CursorOk(h, l, k, e, v.mine[a].d, prev) && Keeps(h, l, g, m, v)
    requires e in m.place && m.place[e] == In(k) && e != 0
    ensures CursorOk(g, m, k, e, v.mine[a].d, prev)
  {
    assert ObjKept(h, l, g, m, v, a);
  }

  // ---- a walk that is interrupted -----------------------------------------------------------------------

  /** The descriptor from which the walk has gone on since the last interrupt; whether it ever
      stood on one that was being set up (wild); whether an interrupt ever took the one it
      stood on out of the chain (astray). */
  datatype Trail = Trail(from: nat, wild: bool, astray: bool)

  /** e is in some list, at position n or behind it; or the walk is over. */
  ghost predicate Listed(l: Layout, e: nat, n: nat) {
    e != 0 ==> |l.chain| == BUCKETS && e in l.place && l.place[e] != Pending && PastIn(ListIn(l, l.place[e]), e, n)
  }

  ghost predicate PastIn(c: seq<nat>, e: nat, n: nat) { exists i :: n <= i < |c| && c[i] == e }

  ghost predicate OnTrail(h: Heap, l: Layout, k: Bucket, page: nat, d: nat, bdesc: nat, prev: nat, n: nat, t: Trail) {
    && InChain(l, d) && d in h.descs && h.descs[d].page == page && n <= |h.descs|
    && (bdesc == 0 || bdesc in h.descs) && (prev == 0 || prev in h.descs) && (t.from == 0 || t.from in h.descs)
    && Search(h.descs, t.from, page, |h.descs|) == Search(h.descs, bdesc, page, |h.descs| - n)
    && (t.wild ==> t.astray) && (!t.wild ==> Listed(l, bdesc, n) && Listed(l, t.from, 0))
    && (!t.astray ==> CursorOk(h, l, k, bdesc, d, prev) && CursorOk(h, l, k, t.from, d, 0))
    && (bdesc == d && !t.wild && prev != 0 ==> Sane(h, l, prev, d))
    && (bdesc == d && prev == 0 ==> l.place[d] == In(k))
  }

  lemma NotPending(h: Heap, l: Layout, e: nat)
    requires Formed(h, l) && (e == 0 || (e in l.place && l.place[e] != Pending))
    ensures Listed(l, e, 0)
  {
    if e != 0 { var i := PlaceIn(h, l, e); }
  }

  lemma TrailStart(h: Heap, l: Layout, k: Bucket, page: nat, d: nat)
    requires Inv(h, l) && InChain(l, d) && d in h.descs && h.descs[d].page == page
    ensures OnTrail(h, l, k, page, d, h.chains[k], 0, 0, Trail(h.chains[k], false, false))
  {
    CursorStart(h, l, k, d);
    HeadIn(h, l, k);
    NotPending(h, l, h.chains[k]);
  }

  /** The walk stands where it stood; how it goes on is up to the heap as it is now. */
  lemma TrailInterrupted(h: Heap, l: Layout, g: Heap, m: Layout, v: View, a: nat, k: Bucket, page: nat, e: nat, prev: nat, n: nat, t: Trail)
    returns (t': Trail)
    requires a in v.mine && Keeps(h, l, g, m, v) && e != 0 && OnTrail(h, l, k, page, v.mine[a].d, e, prev, n, t)
    requires v.mine[a].d in g.descs && g.descs[v.mine[a].d].page == page
    ensures e in m.place && t' == Trail(e, t.wild || m.place[e] == Pending, t.astray || m.place[e] != In(k))
    ensures OnTrail(g, m, k, page, v.mine[a].d, e, prev, 0, t')
  {
    var d := v.mine[a].d;
    assert ObjKept(h, l, g, m, v, a);
    assert e in m.place;
    t' := Trail(e, t.wild || m.place[e] == Pending, t.astray || m.place[e] != In(k));
    if !t'.wild { NotPending(g, m, e); }
    if !t'.astray { CursorKept(h, l, g, m, v, a, k, e, prev); }
  }

  /** What follows a listed descriptor in its list. */
  lemma NextListed(h: Heap, l: Layout, e: nat, n: nat)
    requires Formed(h, l) && e != 0 && Listed(l, e, n)
    ensures e in h.descs && Listed(l, h.descs[e].next, n + 1)
    ensures var x := h.descs[e].next; x != 0 ==> l.place[x] == l.place[e]
  {
    var c := ListIn(l, l.place[e]);
    ListInOk(h, l, l.place[e]);
    var head :| ListOk(h, l.place, head, c, l.place[e]);
    var i :| n <= i < |c| && c[i] == e;
    assert NextOk(h.descs, c, i);
    if i + 1 < |c| { assert c[i + 1] in c; }
  }

  /** A look without success, and one step on. */
  lemma TrailMoves(h: Heap, l: Layout, k: Bucket, page: nat, d: nat, e: nat, prev: nat, n: nat, t: Trail)
    requires Inv(h, l) && OnTrail(h, l, k, page, d, e, prev, n, t) && e != 0 && e != d
    ensures var x := h.descs[e].next;
      && (x == 0 || x in h.descs) && (!t.wild ==> Listed(l, x, n + 1)) && (!t.astray ==> CursorOk(h, l, k, x, d, e))
      && (x == d && !t.wild ==> Sane(h, l, e, d))
  {
    if !t.wild { NextListed(h, l, e, n); }
    if !t.astray { CursorNext(h, l, k, e, d, prev); }
  }

  lemma TrailNext(h: Heap, l: Layout, k: Bucket, page: nat, d: nat, e: nat, prev: nat, n: nat, t: Trail)
    requires Inv(h, l) && OnTrail(h, l, k, page, d, e, prev, n, t) && e != 0 && n < |h.descs| && h.descs[e].page != page
    ensures OnTrail(h, l, k, page, d, h.descs[e].next, e, n + 1, t)
  {
    TrailMoves(h, l, k, page, d, e, prev, n, t);
    assert e != 0 && e in h.descs;
  }

  /** The same where an interrupt came between the look and the step. */
  lemma TrailLeaps(h: Heap, l: Layout, k: Bucket, page: nat, d: nat, e: nat, prev: nat, n: nat, t: Trail)
    requires Inv(h, l) && OnTrail(h, l, k, page, d, e, prev, n, t) && e != 0 && e != d
    ensures OnTrail(h, l, k, page, d, h.descs[e].next, e, 0, t.(from := h.descs[e].next))
  {
    TrailMoves(h, l, k, page, d, e, prev, n, t);
    var x := h.descs[e].next;
    if !t.wild && x != 0 { NotPending(h, l, x); }
  }

  /** How a walk along chain k ended: heap and lists then, the descriptor from which it went
      on after its last interrupt, and what it found; or that it goes round for ever. */
  datatype Walk = Walk(h: Heap, l: Layout, k: nat, t: Trail, found: nat, hung: bool)

  ghost predicate WalkOk(w: Walk, d: nat, page: nat) {
    && Inv(w.h, w.l) && w.k < BUCKETS && InChain(w.l, d) && d in w.h.descs && w.h.descs[d].page == page
    && (w.t.from == 0 || w.t.from in w.h.descs) && (w.found == 0 || w.found in w.h.descs)
    && (w.t.wild ==> w.t.astray) && (!w.t.wild ==> Listed(w.l, w.t.from, 0))
    && (if w.hung then w.t.wild && w.found != 0 else w.found == Search(w.h.descs, w.t.from, page, |w.h.descs|))
    && (!w.t.astray ==> CursorOk(w.h, w.l, w.k, w.t.from, d, 0))
  }

  /** What is known of the descriptor looked at before the one that was found. */
  ghost predicate Leads(w: Walk, d: nat, prev: nat) {
    && InChain(w.l, d) && (prev == 0 || prev in w.h.descs)
    && (w.found == d && !w.t.wild && prev != 0 ==> Sane(w.h, w.l, prev, d))
    && (w.found == d && prev == 0 ==> w.k < BUCKETS && w.l.place[d] == In(w.k))
  }

  lemma TrailEnds(h: Heap, l: Layout, k: Bucket, page: nat, d: nat, e: nat, prev: nat, n: nat, t: Trail)
    requires Inv(h, l) && OnTrail(h, l, k, page, d, e, prev, n, t)
    requires e == 0 || (n < |h.descs| && h.descs[e].page == page)
    ensures WalkOk(Walk(h, l, k, t, e, false), d, page) && Leads(Walk(h, l, k, t, e, false), d, prev)
  {
  }

  /** A walk of more steps than there are descriptors can only be a wild one. */
  lemma TrailHangs(h: Heap, l: Layout, k: Bucket, page: nat, d: nat, e: nat, prev: nat, n: nat, t: Trail)
    requires Inv(h, l) && OnTrail(h, l, k, page, d, e, prev, n, t) && e != 0 && n == |h.descs|
    ensures WalkOk(Walk(h, l, k, t, e, true), d, page) && Leads(Walk(h, l, k, t, e, true), d, prev)
  {
    if !t.wild { ListInOk(h, l, l.place[e]); }
  }

  /** A walk that was not thrown off finds the descriptor exactly if it is in the chain. */
  lemma StraightWalk(w: Walk, d: nat, page: nat)
    requires WalkOk(w, d, page) && !w.t.astray
    ensures !w.hung && w.found == if w.l.place[d] == In(w.k) then d else 0
  {
    if w.t.from != 0 {
      FindsIff(w.h, w.l, d, w.t.from);
      FindsElse(w.h, w.l, d, w.t.from);
    }
  }

  /** What any walk finds that never stood on a descriptor being set up: the right one if and
      only if it went on in that one's chain and not behind it; or nothing; or a free one that
      has kept the page's address, the first it met. */
  lemma WalkFindsIff(w: Walk, d: nat, page: nat)
    requires WalkOk(w, d, page) && !w.t.wild
    ensures !w.hung
    ensures var from := w.t.from;
      && (w.found == d <==> from != 0 && w.l.place[from] == w.l.place[d] && !Behind(w.l, from, d))
      && (w.found == 0 <==> from == 0 || (w.l.place[from].In? && (w.l.place[from] != w.l.place[d] || Behind(w.l, from, d))) || NoStale(w.h, w.l, from, page))
      && (w.found != 0 && w.found != d ==> StaleFrom(w.h, w.l, from, w.found) && w.h.descs[w.found].page == page)
  {
    assert BucketOk(w.h, w.l, d) && d != 0;
    if w.t.from != 0 {
      FindsIff(w.h, w.l, d, w.t.from);
      FindsElse(w.h, w.l, d, w.t.from);
    }
  }

  ghost predicate Astray(walks: seq<Walk>) { exists i :: 0 <= i < |walks| && walks[i].t.astray }

  ghost predicate Walked(walks: seq<Walk>, b: nat) { exists i :: 0 <= i < |walks| && walks[i].k == b }

  /** The chains below upto whose objects are large enough were walked, all but the last
      walk without finding anything. */
  ghost predicate Searched(walks: seq<Walk>, d: nat, page: nat, size: int, upto: nat) {
    && (forall i {:trigger WalkOk(walks[i], d, page)} | 0 <= i < |walks| :: WalkOk(walks[i], d, page) && (i < |walks| - 1 ==> walks[i].found == 0))
    && (forall b: Bucket {:trigger Walked(walks, b)} | b < upto && Size(b) >= size :: Walked(walks, b))
  }

  lemma SearchedSmall(walks: seq<Walk>, d: nat, page: nat, size: int, k: Bucket)
    requires Searched(walks, d, page, size, k) && Size(k) < size
    ensures Searched(walks, d, page, size, k + 1)
  {
  }

  ghost predicate AllInVain(walks: seq<Walk>) { forall i | 0 <= i < |walks| :: walks[i].found == 0 }

  lemma SearchedMore(walks: seq<Walk>, d: nat, page: nat, size: int, k: Bucket, w: Walk)
    requires Searched(walks, d, page, size, k) && WalkOk(w, d, page) && w.k == k
    requires AllInVain(walks)
    ensures Searched(walks + [w], d, page, size, k + 1) && (w.found == 0 ==> AllInVain(walks + [w]))
    ensures Astray(walks + [w]) <==> Astray(walks) || w.t.astray
  {
    var ws := walks + [w];
    forall i | 0 <= i < |ws|
      ensures WalkOk(ws[i], d, page) && (i < |ws| - 1 ==> ws[i].found == 0)
    {
      if i < |walks| { assert WalkOk(walks[i], d, page); }
    }
    assert ws[|walks|] == w;
    forall b: Bucket | b < k + 1 && Size(b) >= size
      ensures Walked(ws, b)
    {
      if b < k {
        assert Walked(walks, b);
        var i :| 0 <= i < |walks| && walks[i].k == b;
        assert ws[i].k == b;
      }
    }
    if Astray(walks) {
      var i :| 0 <= i < |walks| && walks[i].t.astray;
      assert ws[i].t.astray;
    }
  }

  // ---- what throws a search off -------------------------------------------------------------------------

  /** The steps that malloc and free_s take at one go. */
  datatype Step = Pop(k: Bucket) | Open(d: nat, k: Bucket, page: nat, words: map<nat, nat>) | Take(d: nat) | Give(d: nat, j: nat)
                | Close(k: Bucket, i: nat) | Init(g: Heap, page: nat)

  ghost predicate CanStep(h: Heap, l: Layout, s: Step) {
    match s
    case Pop(k) => CanPop(h, l, k)
    case Open(d, k, p, words) => CanOpen(h, l, d, k, p, words)
    case Take(d) => CanTake(h, l, d)
    case Give(d, j) => CanGive(h, l, d, j)
    case Close(k, i) => CanClose(h, l, k, i)
    case Init(g, p) => CanInit(h, l, p) && Initialised(h, g, p)
  }

  /** Heap and lists after the step. */
  ghost predicate StepsTo(h: Heap, l: Layout, s: Step, g: Heap, m: Layout) {
    CanStep(h, l, s) && match s
    case Pop(k) => h.free in h.descs && |l.free| > 0 && g == Popped(h, k) && m == PoppedLayout(h, l)
    case Open(d, k, p, words) => g == Opened(h, d, k, p, words) && m == OpenedLayout(l, d, k, p)
    case Take(d) => d in l.slots && |l.slots[d]| > 0 && h.descs[d].freeptr in h.words && g == Took(h, d) && m == TookLayout(l, d)
    case Give(d, j) => d in h.descs && h.descs[d].refcnt > 0 && g == Gave(h, d, AddrOf(h, l, d, j)) && m == GaveLayout(l, d, j)
    case Close(k, i) =>
      && (i > 0 ==> Prev(l, k, i) in h.descs) && (i == 0 ==> Prev(l, k, i) == 0)
      && g == Closed(h, k, Prev(l, k, i), l.chain[k][i]) && m == ClosedLayout(h, l, k, i)
    case Init(g', p) => g == g' && m == InitLayout(l, p)
  }

  lemma StepOk(h: Heap, l: Layout, s: Step, g: Heap, m: Layout)
    requires StepsTo(h, l, s, g, m)
    ensures Inv(g, m)
  {
    match s
    case Pop(k) => PopOk(h, l, k);
    case Open(d, k, p, words) => OpenOk(h, l, d, k, p, words);
    case Take(d) => TakeFacts(h, l, d);
    case Give(d, j) => GiveOk(h, l, d, j);
    case Close(k, i) => CloseOk(h, l, k, i);
    case Init(_, p) => InitOk(h, l, g, p);
  }

  /** The descriptor of a live object stays in its chain with its page, and nothing comes to
      lie behind it. */
  lemma LiveStays(h: Heap, l: Layout, s: Step, g: Heap, m: Layout, d: nat, j: nat, e: nat)
    requires StepsTo(h, l, s, g, m) && Live(l, d, j)
    ensures InChain(m, d) && m.place[d] == l.place[d] && d in h.descs && d in g.descs && g.descs[d].page == h.descs[d].page
    ensures Behind(m, e, d) ==> Behind(l, e, d)
  {
    assert BucketOk(h, l, d);
    match s
    case Pop(_) => PopFacts(h, l);
    case Open(x, k, p, _) => if Behind(m, e, d) { OpenBehind(l, x, k, p, e, d); }
    case Close(k, i) =>
      CloseFacts(h, l, k, i);
      RefcntZeroIffDead(h, l, l.chain[k][i]);
      if Behind(m, e, d) { CloseBehind(h, l, k, i, e, d); }
    case Init(_, p) => NewDescsFacts(h, l, p);
    case _ =>
  }

  /** A search that stands on e is thrown off by exactly the step that gives e's page back. */
  lemma ThrownOffIff(h: Heap, l: Layout, s: Step, g: Heap, m: Layout, e: nat, k: Bucket)
    requires StepsTo(h, l, s, g, m) && e in l.place && l.place[e] == In(k)
    ensures e in m.place && (m.place[e] != In(k) <==> s.Close? && l.chain[s.k][s.i] == e)
    ensures m.place[e] != In(k) ==> m.place[e] == FreeDesc
  {
    match s
    case Pop(_) => PopFacts(h, l);
    case Close(b, i) => CloseFacts(h, l, b, i);
    case Init(_, p) => NewDescsFacts(h, l, p);
    case _ =>
  }

  /** The search for a live object stands on e in the object's own chain, and one step of the
      others comes in between: resumed there it finds the object's descriptor if and only if
      the step did not give e's page back. */
  lemma ResumedFindsIff(h: Heap, l: Layout, s: Step, g: Heap, m: Layout, d: nat, j: nat, e: nat, k: Bucket)
    requires StepsTo(h, l, s, g, m) && Live(l, d, j) && l.place[d] == In(k) && e in l.place && l.place[e] == In(k) && !Behind(l, e, d)
    ensures d in g.descs && (Search(g.descs, e, g.descs[d].page, |g.descs|) == d <==> !(s.Close? && l.chain[s.k][s.i] == e))
  {
    StepOk(h, l, s, g, m);
    LiveStays(h, l, s, g, m, d, j, e);
    ThrownOffIff(h, l, s, g, m, e, k);
    FindsIff(g, m, d, e);
  }

  /** In another chain, where nothing is to be found: the search runs out, to go on with the
      next chain, if and only if the step did not give e's page back or no free descriptor it
      meets from there on has kept the page's address. */
  lemma ResumedPassesIff(h: Heap, l: Layout, s: Step, g: Heap, m: Layout, d: nat, j: nat, e: nat, k: Bucket)
    requires StepsTo(h, l, s, g, m) && Live(l, d, j) && l.place[d] != In(k) && e in l.place && l.place[e] == In(k)
    ensures d in g.descs
    ensures Search(g.descs, e, g.descs[d].page, |g.descs|) == 0 <==>
      !(s.Close? && l.chain[s.k][s.i] == e) || forall x | StaleFrom(g, m, e, x) :: g.descs[x].page != g.descs[d].page
  {
    StepOk(h, l, s, g, m);
    LiveStays(h, l, s, g, m, d, j, e);
    ThrownOffIff(h, l, s, g, m, e, k);
    FindsIff(g, m, d, e);
    FindsElse(g, m, d, e);
  }

  // ---- a search that is thrown off ------------------------------------------------------------------------

  lemma {:induction false} SearchNothing(h: Heap, l: Layout, i: nat, page: nat, fuel: nat)
    requires Inv(h, l) && i <= |l.free| && forall e | e in l.free && e in h.descs :: h.descs[e].page != page
    ensures Search(h.descs, At(l.free, i), page, fuel) == 0
    decreases fuel
  {
    if i < |l.free| && fuel > 0 {
      assert NextOk(h.descs, l.free, i) && l.free[i] in l.free;
      SearchNothing(h, l, i + 1, page, fuel - 1);
    }
  }

  const LARGE: Bucket := 8

  /** The list of free slots of a page that has one slot. */
  ghost predicate OneSlot(h: Heap, l: Layout, d: nat, page: nat) {
    CanTake(h, l, d) && h.descs[d].page == page && h.descs[d].refcnt == 0 && d in l.slots && l.slots[d] == [0]
  }

  /** A page for objects of 4096 bytes, and a free descriptor for it. */
  lemma NewPage(h: Heap, l: Layout, page: nat) returns (g: Heap, m: Layout)
    requires Inv(h, l) && h.free != 0 && FreshPage(h, l, page)
    ensures Inv(g, m) && OneSlot(g, m, h.free, page) && m.place[h.free] == In(LARGE)
    ensures m.chain[LARGE] == [h.free] + l.chain[LARGE] && |l.free| > 0 && m.free == l.free[1..] && g.free == At(l.free, 1)
    ensures g.descs.Keys == h.descs.Keys && forall e | e in h.descs && e != h.free :: g.descs[e] == h.descs[e]
    ensures forall e, j | Live(l, e, j) :: Live(m, e, j)
    ensures m.owner == l.owner[page := h.free]
  {
    var d, words := h.free, h.words[page := 0];
    PopFacts(h, l);
    PopOk(h, l, LARGE);
    var h1, l1 := Popped(h, LARGE), PoppedLayout(h, l);
    assert SlotThreaded(words, page, LARGE, 0) by { assert Addr(page, LARGE, 0) == page; }
    OpenOk(h1, l1, d, LARGE, page, words);
    g, m := Opened(h1, d, LARGE, page, words), OpenedLayout(l1, d, LARGE, page);
    assert Iota(1) == [0];
  }

  /** malloc(4096) with a free descriptor and the given page. */
  lemma NewObject(h: Heap, l: Layout, page: nat) returns (g: Heap, m: Layout)
    requires Inv(h, l) && h.free != 0 && FreshPage(h, l, page)
    ensures Inv(g, m) && Live(m, h.free, 0) && h.free in g.descs && g.descs[h.free].page == page && g.descs[h.free].refcnt == 1
    ensures m.chain[LARGE] == [h.free] + l.chain[LARGE] && |l.free| > 0 && m.free == l.free[1..] && g.free == At(l.free, 1)
    ensures g.descs.Keys == h.descs.Keys && forall e | e in h.descs && e != h.free :: g.descs[e] == h.descs[e]
    ensures forall e, j | Live(l, e, j) :: Live(m, e, j)
    ensures forall p {:trigger FreshPage(g, m, p)} | p != page && FreshPage(h, l, p) :: FreshPage(g, m, p)
  {
    var h1, l1 := NewPage(h, l, page);
    TakeFacts(h1, l1, h.free);
    g, m := Took(h1, h.free), TookLayout(l1, h.free);
    forall e, j | Live(l, e, j)
      ensures Live(m, e, j)
    {
      assert Live(l1, e, j);
    }
  }

  const DESCS: nat := 12288

  function FirstDescs(): map<nat, Desc> {
    map d | d in NewSet(DESCS) :: Desc(0, if d + DESC_SIZE < DESCS + PAGE_SIZE then d + DESC_SIZE else 0, 0, 0, 0)
  }

  function NoDescs(): map<nat, Desc> { map[] }
  function NoWords(): map<nat, nat> { map[] }
  function NoSlots(): map<nat, seq<nat>> { map[] }
  function NoPlaces(): map<nat, Where> { map[] }

  function EmptyHeap(): Heap { Heap(NoDescs(), seq(BUCKETS, _ => 0), 0, NoWords()) }

  function EmptyLayout(): Layout { Layout(seq(BUCKETS, _ => []), [], NoSlots(), NoPlaces(), NoWords()) }

  lemma EmptyOk()
    ensures CanInit(EmptyHeap(), EmptyLayout(), DESCS)
  {
    forall k: Bucket
      ensures ChainOk(EmptyHeap(), EmptyLayout(), k)
    {
    }
  }

  lemma FirstLinked(h: Heap, n: nat)
    requires h.descs == FirstDescs() && n < PER_PAGE
    ensures NewNext(h, DESCS, n, 0)
  {
    var d := DescAt(DESCS, n);
    assert d in NewSet(DESCS) && d == DESCS + 16 * n;
  }

  function FirstState(): Heap { Heap(FirstDescs(), seq(BUCKETS, _ => 0), DESCS, NoWords()) }

  lemma FirstInitialised()
    ensures Initialised(EmptyHeap(), FirstState(), DESCS)
  {
    var h := FirstState();
    assert h.descs.Keys == NewSet(DESCS) && NoDescs().Keys == {};
    forall n | 0 <= n < PER_PAGE
      ensures NewNext(h, DESCS, n, 0)
    {
      FirstLinked(h, n);
    }
  }

  /** The allocator after its first init_bucket_desc. */
  lemma FirstHeap() returns (h: Heap, l: Layout)
    ensures Inv(h, l) && h.free == DESCS && l.free == NewDescs(DESCS) && l.chain[LARGE] == []
    ensures FreshPage(h, l, 4096) && FreshPage(h, l, 8192) && forall x | x in h.descs :: h.descs[x].page == 0
  {
    var h0, l0 := EmptyHeap(), EmptyLayout();
    h := FirstState();
    assert CanInit(h0, l0, DESCS) && l0.free == [] && l0.owner == NoWords() && l0.chain[LARGE] == [] by { EmptyOk(); }
    assert Initialised(h0, h, DESCS) && h.free == DESCS by { FirstInitialised(); }
    l := Initial(h0, l0, h, DESCS);
    assert FreshPage(h, l, 4096) && FreshPage(h, l, 8192) by { NewPagesFree(h); }
  }

  lemma Initial(h: Heap, l: Layout, g: Heap, p: nat) returns (m: Layout)
    requires CanInit(h, l, p) && Initialised(h, g, p) && l.free == []
    ensures Inv(g, m) && m.free == NewDescs(p) && m.owner == l.owner && m.chain == l.chain
  {
    InitOk(h, l, g, p);
    m := InitLayout(l, p);
    assert NewDescs(p) + [] == NewDescs(p);
  }

  /** Two tasks have a page each, both by the same chain; its first descriptor is of page
      8192.  The search for page 4096 stands there. */
  lemma TwoPages() returns (h: Heap, l: Layout, d: nat, e: nat)
    ensures Inv(h, l) && l.chain[LARGE] == [e, d] && Live(l, d, 0) && Live(l, e, 0) && d in h.descs && e in h.descs
    ensures h.descs[d].page == 4096 && h.descs[e].page == 8192 && h.descs[e].refcnt == 1
    ensures forall x | x in l.free :: x in h.descs && h.descs[x].page == 0
  {
    var h0, l0 := FirstHeap();
    d := DESCS;
    var h1, l1 := NewObject(h0, l0, 4096);
    e := h1.free;
    assert e == DescAt(DESCS, 1);
    h, l := NewObject(h1, l1, 8192);
    forall x | x in l.free
      ensures x in h.descs && h.descs[x].page == 0
    {
      FreeStays(h, l, x);
      assert x != d && x != e by { assert Live(l, d, 0) && Live(l, e, 0); }
    }
  }

  lemma NewPagesFree(h: Heap)
    requires h.descs == FirstDescs()
    ensures forall a | a in h.descs :: PageOf(a) == DESCS
  {
    forall n: nat | n < PER_PAGE
      ensures PageOf(DescAt(DESCS, n)) == DESCS
    {
      Inside(DESCS, n * DESC_SIZE);
    }
  }

  lemma FreeStays(h: Heap, l: Layout, x: nat)
    requires Inv(h, l) && x in l.free
    ensures x in l.place && l.place[x] == FreeDesc && x in h.descs
  {
  }

  /** The other task frees its page there: the search for the first page goes on along the
      free descriptors and never finds it, so free_s panics about a good address. */
  lemma SearchAstray() returns (h: Heap, l: Layout, g: Heap, m: Layout, d: nat, e: nat)
    ensures Inv(h, l) && l.chain[LARGE] == [e, d] && Live(l, e, 0) && d in h.descs && e in h.descs && h.descs[e].refcnt == 1
    ensures CanClose(Gave(h, e, AddrOf(h, l, e, 0)), GaveLayout(l, e, 0), LARGE, 0)
    ensures g == Closed(Gave(h, e, AddrOf(h, l, e, 0)), LARGE, 0, e)
    ensures m == ClosedLayout(Gave(h, e, AddrOf(h, l, e, 0)), GaveLayout(l, e, 0), LARGE, 0)
    ensures Inv(g, m) && Live(m, d, 0) && d in g.descs && g.descs[d].page == 4096
    ensures forall fuel: nat :: Search(g.descs, e, 4096, fuel) == 0
  {
    h, l, d, e := TwoPages();
    var a := AddrOf(h, l, e, 0);
    GiveOk(h, l, e, 0);
    var h1, l1 := Gave(h, e, a), GaveLayout(l, e, 0);
    CloseOk(h1, l1, LARGE, 0);
    g, m := Closed(h1, LARGE, 0, e), ClosedLayout(h1, l1, LARGE, 0);
    assert BucketOk(h, l, d) && BucketOk(h, l, e);
    assert m.free == [e] + l.free;
    forall x | x in m.free && x in g.descs
      ensures g.descs[x].page != 4096
    {
    }
    forall fuel: nat
      ensures Search(g.descs, e, 4096, fuel) == 0
    {
      SearchNothing(g, m, 0, 4096, fuel);
    }
  }
}
