/** Pointer surgery on the free ring and the hash chains. */
module CacheLists {
  import opened CacheModel

  function Without(s: seq<int>, k: nat): seq<int>
    requires k < |s|
  {
    s[..k] + s[k + 1..]
  }

  lemma WithoutDistinct(s: seq<int>, k: nat)
    requires k < |s| && Distinct(s)
    ensures Distinct(Without(s, k))
    ensures forall x :: x in Without(s, k) <==> x in s && x != s[k]
  {
    var w := Without(s, k);
    forall x | x in s && x != s[k]
      ensures x in w
    {
      var i :| 0 <= i < |s| && s[i] == x;
      if i < k { assert w[i] == x; } else { assert w[i - 1] == x; }
    }
    forall x | x in w
      ensures x in s && x != s[k]
    {
      var i :| 0 <= i < |w| && w[i] == x;
      assert x == if i < k then s[i] else s[i + 1];
    }
  }

  // ---- the ring -----------------------------------------------------------------------------

  lemma WithoutNext(s: seq<int>, k: nat, i: nat)
    requires k < |s| && |s| >= 2 && i < |s| - 1
    ensures var w, n, j, before := Without(s, k), |s|, if i < k then i else i + 1, if k == 0 then |s| - 1 else k - 1;
      w[i] == s[j] && w[Succ(|w|, i)] == if j == before then s[Succ(n, k)] else s[Succ(n, j)]
  {
  }

  lemma CircularWithout(nextf: seq<int>, prevf: seq<int>, s: seq<int>, k: nat)
    requires k < |s| && |s| >= 2 && Distinct(s) && Circular(nextf, prevf, s)
    ensures 0 <= nextf[s[k]] < |nextf| && 0 <= prevf[s[k]] < |nextf|
    ensures Circular(nextf[prevf[s[k]] := nextf[s[k]]], prevf[nextf[s[k]] := prevf[s[k]]], Without(s, k))
    ensures k == 0 ==> nextf[s[k]] == Without(s, k)[0]
  {
    var n := |s|;
    var b, x := s[k], nextf[s[k]];
    var before := if k == 0 then n - 1 else k - 1;
    assert Succ(n, before) == k;
    var p := prevf[b];
    assert p == s[before] && x == s[Succ(n, k)];
    var w := Without(s, k);
    var nextf', prevf' := nextf[p := x], prevf[x := p];
    forall i | 0 <= i < |w|
      ensures nextf'[w[i]] == w[Succ(|w|, i)] && prevf'[w[Succ(|w|, i)]] == w[i]
    {
      WithoutNext(s, k, i);
      var j := if i < k then i else i + 1;
      if j != before { assert s[Succ(n, j)] != x; }
    }
  }

  /** Insertion at the end, by way of the head's back link. */
  lemma CircularWith(nextf: seq<int>, prevf: seq<int>, s: seq<int>, b: int)
    requires |s| >= 1 && Distinct(s) && Circular(nextf, prevf, s) && b !in s && 0 <= b < |nextf|
    ensures 0 <= prevf[s[0]] < |nextf| && prevf[s[0]] in s
    ensures Circular(nextf[b := s[0]][prevf[s[0]] := b], prevf[b := prevf[s[0]]][s[0] := b], s + [b])
    ensures Distinct(s + [b])
  {
    var n := |s|;
    assert Succ(n, n - 1) == 0;
    var tail := prevf[s[0]];
    assert tail == s[n - 1];
    var w := s + [b];
    var nextf', prevf' := nextf[b := s[0]][tail := b], prevf[b := tail][s[0] := b];
    forall i | 0 <= i < |w|
      ensures nextf'[w[i]] == w[Succ(|w|, i)] && prevf'[w[Succ(|w|, i)]] == w[i]
    {
      if i < n - 1 {
        assert w[i] == s[i] && w[Succ(|w|, i)] == s[Succ(n, i)] && s[Succ(n, i)] != s[0];
      }
    }
  }

  // ---- the chains -----------------------------------------------------------------------------

  /** hash chain links after remove_from_queues of b: `head` is the table slot of b. */
  function UnlinkNext(next: seq<int>, prev: seq<int>, b: int): seq<int>
    requires 0 <= b < |next| == |prev|
  {
    if 0 <= prev[b] < |next| then next[prev[b] := next[b]] else next
  }

  function UnlinkPrev(next: seq<int>, prev: seq<int>, b: int): seq<int>
    requires 0 <= b < |next| == |prev|
  {
    if 0 <= next[b] < |prev| then prev[next[b] := prev[b]] else prev
  }

  lemma LinearWithout(next: seq<int>, prev: seq<int>, head: int, s: seq<int>, k: nat)
    requires k < |s| && Distinct(s) && Linear(next, prev, head, s)
    ensures Linear(UnlinkNext(next, prev, s[k]), UnlinkPrev(next, prev, s[k]), if head == s[k] then next[s[k]] else head, Without(s, k))
  {
    var b := s[k];
    var next', prev' := UnlinkNext(next, prev, b), UnlinkPrev(next, prev, b);
    var w := Without(s, k);
    assert next[b] == After(s, k) && prev[b] == Before(s, k);
    assert k > 0 ==> s[k - 1] != b && s[0] != b;
    forall i | 0 <= i < |w|
      ensures next'[w[i]] == After(w, i) && prev'[w[i]] == Before(w, i)
    {
      var j := if i < k then i else i + 1;
      assert w[i] == s[j];
      assert next[s[j]] == After(s, j) && prev[s[j]] == Before(s, j);
      if j + 1 != k && k > 0 { assert s[j] != s[k - 1]; }
      if j != k + 1 && k + 1 < |s| { assert s[j] != s[k + 1]; }
    }
  }

  /** A list that b is not on is not touched when b is unlinked from its own. */
  lemma LinearElsewhere(next: seq<int>, prev: seq<int>, head: int, s: seq<int>, k: nat, head2: int, t: seq<int>)
    requires k < |s| && Linear(next, prev, head, s) && Linear(next, prev, head2, t)
    requires forall i | 0 <= i < |t| :: t[i] !in s
    ensures Linear(UnlinkNext(next, prev, s[k]), UnlinkPrev(next, prev, s[k]), head2, t)
  {
    assert next[s[k]] == After(s, k) && prev[s[k]] == Before(s, k);
    assert k > 0 ==> s[k - 1] in s;
    assert k + 1 < |s| ==> s[k + 1] in s;
  }

  /** insert_into_queues puts b in front. */
  lemma LinearWith(next: seq<int>, prev: seq<int>, head: int, s: seq<int>, b: int)
    requires Linear(next, prev, head, s) && Distinct(s) && b !in s && 0 <= b < |next|
    ensures Linear(next[b := head], if head == NIL then prev[b := NIL] else prev[b := NIL][head := b], b, [b] + s)
    ensures Distinct([b] + s)
  {
    var w := [b] + s;
    var next', prev' := next[b := head], if head == NIL then prev[b := NIL] else prev[b := NIL][head := b];
    forall i | 0 <= i < |w|
      ensures next'[w[i]] == After(w, i) && prev'[w[i]] == Before(w, i)
    {
      if i > 0 {
        assert w[i] == s[i - 1];
        assert next[s[i - 1]] == After(s, i - 1) && prev[s[i - 1]] == Before(s, i - 1);
        if i > 1 { assert s[i - 1] != s[0]; }
      }
    }
  }

  lemma LinearOther(next: seq<int>, prev: seq<int>, head: int, s: seq<int>, b: int, head2: int, t: seq<int>)
    requires Linear(next, prev, head, s) && Linear(next, prev, head2, t) && 0 <= b < |next| && b !in t
    requires forall i | 0 <= i < |t| :: t[i] !in s
    ensures Linear(next[b := head], if head == NIL then prev[b := NIL] else prev[b := NIL][head := b], head2, t)
  {
    assert s != [] ==> s[0] in s;
    forall i | 0 <= i < |t|
      ensures next[b := head][t[i]] == After(t, i)
    {
    }
  }

  /** A buffer on no chain may lose its links. */
  lemma LinearApart(next: seq<int>, prev: seq<int>, head: int, t: seq<int>, b: int)
    requires Linear(next, prev, head, t) && 0 <= b < |next| && b !in t
    ensures Linear(next[b := NIL], prev[b := NIL], head, t)
  {
    forall i | 0 <= i < |t|
      ensures next[b := NIL][t[i]] == After(t, i) && prev[b := NIL][t[i]] == Before(t, i)
    {
      assert next[t[i]] == After(t, i) && prev[t[i]] == Before(t, i);
    }
  }

  // ---- remove_from_queues and insert_into_queues --------------------------------------------------

  function Unchained(c: Cache, b: int): Cache
    requires |c.hash| == NR_HASH && Buf(c, b) && |c.block| == |c.next| == |c.prev| == |c.dev|
  {
    var k := HashFn(c.dev[b], c.block[b]);
    c.(next := UnlinkNext(c.next, c.prev, b),
       prev := UnlinkPrev(c.next, c.prev, b),
       hash := if c.hash[k] == b then c.hash[k := c.next[b]] else c.hash)
  }

  function Removed(c: Cache, b: int): Cache
    requires |c.hash| == NR_HASH && Buf(c, b) && |c.block| == |c.next| == |c.prev| == |c.nextFree| == |c.prevFree| == |c.dev|
    requires 0 <= c.nextFree[b] < |c.dev| && 0 <= c.prevFree[b] < |c.dev|
  {
    Unchained(c, b).(
      nextFree := c.nextFree[c.prevFree[b] := c.nextFree[b]],
      prevFree := c.prevFree[c.nextFree[b] := c.prevFree[b]],
      freeList := if c.freeList == b then c.nextFree[b] else c.freeList)
  }

  function Inserted(c: Cache, b: int): Cache
    requires |c.hash| == NR_HASH && Buf(c, b) && |c.block| == |c.next| == |c.prev| == |c.nextFree| == |c.prevFree| == |c.dev|
    requires 0 <= c.freeList < |c.dev| && 0 <= c.prevFree[c.freeList] < |c.dev|
    requires forall k | 0 <= k < NR_HASH :: c.hash[k] == NIL || 0 <= c.hash[k] < |c.dev|
  {
    var k := HashFn(c.dev[b], c.block[b]);
    var tail := c.prevFree[c.freeList];
    var r := c.(nextFree := c.nextFree[b := c.freeList][tail := b],
                prevFree := c.prevFree[b := tail][c.freeList := b]);
    if c.dev[b] == 0 then r.(next := c.next[b := NIL], prev := c.prev[b := NIL])
    else r.(next := c.next[b := c.hash[k]],
            prev := if c.hash[k] == NIL then c.prev[b := NIL] else c.prev[b := NIL][c.hash[k] := b],
            hash := c.hash[k := b])
  }

  /** As ListsOk, but for b, which is on no list; the only buffer keeps its self links. */
  ghost predicate Detached(c: Cache, g: Lists, b: int) {
    && Sizes(c) && Buf(c, b)
    && DetachedRing(c, g.ring, b)
    && |g.chains| == NR_HASH
    && (forall k {:trigger DetachedChain(c, k, g.chains[k], b)} | 0 <= k < NR_HASH :: DetachedChain(c, k, g.chains[k], b))
    && (forall x | Buf(c, x) && x != b && c.dev[x] == 0 :: c.next[x] == NIL && c.prev[x] == NIL)
  }

  ghost predicate DetachedRing(c: Cache, ring: seq<int>, b: int)
    requires Sizes(c) && Buf(c, b)
  {
    && Distinct(ring) && b !in ring
    && (forall x | Buf(c, x) && x != b :: x in ring)
    && (if ring == [] then c.freeList == c.nextFree[b] == c.prevFree[b] == b
        else ring[0] == c.freeList && Circular(c.nextFree, c.prevFree, ring))
  }

  ghost predicate DetachedChain(c: Cache, k: int, chain: seq<int>, b: int)
    requires Sizes(c) && Buf(c, b) && 0 <= k < NR_HASH
  {
    && Distinct(chain) && b !in chain
    && Linear(c.next, c.prev, c.hash[k], chain)
    && (forall x | Buf(c, x) && x != b :: x in chain <==> c.dev[x] != 0 && HashFn(c.dev[x], c.block[x]) == k)
  }

  lemma FreeLinks(c: Cache, g: Lists, b: int)
    requires Sizes(c) && RingOk(c, g.ring) && Buf(c, b)
    ensures 0 <= c.nextFree[b] < |c.dev| && 0 <= c.prevFree[b] < |c.dev|
  {
    var k :| 0 <= k < |g.ring| && g.ring[k] == b;
    var n := |g.ring|;
    var before := if k == 0 then n - 1 else k - 1;
    assert Succ(n, before) == k && Succ(n, k) < n;
  }

  lemma RemovedRing(c: Cache, g: Lists, b: int) returns (ring: seq<int>)
    requires Sizes(c) && RingOk(c, g.ring) && Buf(c, b)
    ensures 0 <= c.nextFree[b] < |c.dev| && 0 <= c.prevFree[b] < |c.dev|
    ensures DetachedRing(Removed(c, b), ring, b)
  {
    FreeLinks(c, g, b);
    var k :| 0 <= k < |g.ring| && g.ring[k] == b;
    ring := Without(g.ring, k);
    WithoutDistinct(g.ring, k);
    if |g.ring| >= 2 {
      CircularWithout(c.nextFree, c.prevFree, g.ring, k);
    } else {
      assert Succ(1, 0) == 0;
    }
  }

  lemma ChainsApart(c: Cache, g: Lists, k: int, k2: int)
    requires Sizes(c) && 0 <= k < NR_HASH && 0 <= k2 < NR_HASH && k != k2 && |g.chains| == NR_HASH
    requires ChainOk(c, k, g.chains[k]) && ChainOk(c, k2, g.chains[k2])
    ensures forall i | 0 <= i < |g.chains[k2]| :: g.chains[k2][i] !in g.chains[k]
  {
    forall i | 0 <= i < |g.chains[k2]|
      ensures g.chains[k2][i] !in g.chains[k]
    {
      assert g.chains[k2][i] in g.chains[k2];
    }
  }

  /** The chain that results in place of chain k when b is unlinked. */
  lemma RemovedChain(c: Cache, g: Lists, b: int, k: int) returns (chain: seq<int>)
    requires Sizes(c) && ListsOk(c, g) && Buf(c, b) && 0 <= k < NR_HASH
    requires 0 <= c.nextFree[b] < |c.dev| && 0 <= c.prevFree[b] < |c.dev|
    ensures DetachedChain(Removed(c, b), k, chain, b)
  {
    var h := HashFn(c.dev[b], c.block[b]);
    assert ChainOk(c, k, g.chains[k]);
    assert ChainOk(c, h, g.chains[h]);
    if c.dev[b] != 0 {
      assert b in g.chains[h];
      var j :| 0 <= j < |g.chains[h]| && g.chains[h][j] == b;
      if k == h {
        chain := Without(g.chains[k], j);
        WithoutDistinct(g.chains[k], j);
        LinearWithout(c.next, c.prev, c.hash[k], g.chains[k], j);
      } else {
        chain := g.chains[k];
        ChainsApart(c, g, h, k);
        LinearElsewhere(c.next, c.prev, c.hash[h], g.chains[h], j, c.hash[k], g.chains[k]);
      }
    } else {
      chain := g.chains[k];
      assert b !in g.chains[h];
      assert c.hash[h] != b;
    }
  }

  lemma RemovedOk(c: Cache, g: Lists, b: int) returns (g': Lists)
    requires Sizes(c) && ListsOk(c, g) && Buf(c, b)
    ensures 0 <= c.nextFree[b] < |c.dev| && 0 <= c.prevFree[b] < |c.dev|
    ensures Detached(Removed(c, b), g', b)
  {
    var ring := RemovedRing(c, g, b);
    var c' := Removed(c, b);
    var chains: seq<seq<int>> := [];
    while |chains| < NR_HASH
      invariant |chains| <= NR_HASH
      invariant forall k | 0 <= k < |chains| :: DetachedChain(c', k, chains[k], b)
    {
      var chain := RemovedChain(c, g, b, |chains|);
      chains := chains + [chain];
    }
    g' := Lists(ring, chains);
    RemovedUnhashed(c, g, b);
  }

  lemma RemovedUnhashed(c: Cache, g: Lists, b: int)
    requires Sizes(c) && ListsOk(c, g) && Buf(c, b)
    requires 0 <= c.nextFree[b] < |c.dev| && 0 <= c.prevFree[b] < |c.dev|
    ensures forall x | Buf(c, x) && x != b && c.dev[x] == 0 :: Removed(c, b).next[x] == NIL && Removed(c, b).prev[x] == NIL
  {
    var h := HashFn(c.dev[b], c.block[b]);
    assert ChainOk(c, h, g.chains[h]);
    if c.dev[b] != 0 {
      var j :| 0 <= j < |g.chains[h]| && g.chains[h][j] == b;
      assert c.next[b] == After(g.chains[h], j) && c.prev[b] == Before(g.chains[h], j);
      assert j > 0 ==> g.chains[h][j - 1] in g.chains[h];
      assert j + 1 < |g.chains[h]| ==> g.chains[h][j + 1] in g.chains[h];
    }
  }

  lemma InsertedRing(c: Cache, g: Lists, b: int) returns (ring: seq<int>)
    requires Detached(c, g, b)
    ensures 0 <= c.freeList < |c.dev| && 0 <= c.prevFree[c.freeList] < |c.dev|
    ensures forall k | 0 <= k < NR_HASH :: c.hash[k] == NIL || 0 <= c.hash[k] < |c.dev|
    ensures RingOk(Inserted(c, b), ring) && ring == g.ring + [b]
  {
    forall k | 0 <= k < NR_HASH
      ensures c.hash[k] == NIL || 0 <= c.hash[k] < |c.dev|
    {
      assert DetachedChain(c, k, g.chains[k], b);
    }
    ring := g.ring + [b];
    if g.ring == [] {
      assert Succ(1, 0) == 0;
    } else {
      CircularWith(c.nextFree, c.prevFree, g.ring, b);
    }
  }

  lemma InsertedChain(c: Cache, g: Lists, b: int, k: int) returns (chain: seq<int>)
    requires Detached(c, g, b) && 0 <= k < NR_HASH
    requires 0 <= c.freeList < |c.dev| && 0 <= c.prevFree[c.freeList] < |c.dev|
    requires forall k | 0 <= k < NR_HASH :: c.hash[k] == NIL || 0 <= c.hash[k] < |c.dev|
    ensures ChainOk(Inserted(c, b), k, chain)
  {
    var h := HashFn(c.dev[b], c.block[b]);
    assert DetachedChain(c, k, g.chains[k], b);
    assert DetachedChain(c, h, g.chains[h], b);
    if c.dev[b] == 0 {
      chain := g.chains[k];
      LinearApart(c.next, c.prev, c.hash[k], chain, b);
    } else if k == h {
      chain := [b] + g.chains[k];
      LinearWith(c.next, c.prev, c.hash[k], g.chains[k], b);
    } else {
      chain := g.chains[k];
      forall i | 0 <= i < |chain|
        ensures chain[i] !in g.chains[h]
      {
        assert chain[i] in chain;
      }
      LinearOther(c.next, c.prev, c.hash[h], g.chains[h], b, c.hash[k], chain);
    }
  }

  lemma InsertedOk(c: Cache, g: Lists, b: int) returns (g': Lists)
    requires Detached(c, g, b)
    ensures 0 <= c.freeList < |c.dev| && 0 <= c.prevFree[c.freeList] < |c.dev|
    ensures forall k | 0 <= k < NR_HASH :: c.hash[k] == NIL || 0 <= c.hash[k] < |c.dev|
    ensures Sizes(Inserted(c, b)) && ListsOk(Inserted(c, b), g')
    ensures g'.ring == g.ring + [b]
  {
    var ring := InsertedRing(c, g, b);
    var c' := Inserted(c, b);
    var chains: seq<seq<int>> := [];
    while |chains| < NR_HASH
      invariant |chains| <= NR_HASH
      invariant forall k | 0 <= k < |chains| :: ChainOk(c', k, chains[k])
    {
      var chain := InsertedChain(c, g, b, |chains|);
      chains := chains + [chain];
    }
    g' := Lists(ring, chains);
    InsertedUnhashed(c, g, b, HashFn(c.dev[b], c.block[b]));
  }

  lemma InsertedUnhashed(c: Cache, g: Lists, b: int, h: int)
    requires Detached(c, g, b) && h == HashFn(c.dev[b], c.block[b])
    requires 0 <= c.freeList < |c.dev| && 0 <= c.prevFree[c.freeList] < |c.dev|
    requires forall k | 0 <= k < NR_HASH :: c.hash[k] == NIL || 0 <= c.hash[k] < |c.dev|
    ensures Sizes(Inserted(c, b)) && Unhashed(Inserted(c, b))
  {
    assert DetachedChain(c, h, g.chains[h], b);
    assert g.chains[h] != [] ==> g.chains[h][0] in g.chains[h];
  }

  lemma LinksInRange(c: Cache, g: Lists, b: int)
    requires Sizes(c) && ListsOk(c, g) && Buf(c, b)
    ensures c.next[b] == NIL || 0 <= c.next[b] < |c.dev|
    ensures c.prev[b] == NIL || 0 <= c.prev[b] < |c.dev|
    ensures 0 <= c.nextFree[b] < |c.dev| && 0 <= c.prevFree[b] < |c.dev|
  {
    FreeLinks(c, g, b);
    if c.dev[b] != 0 {
      ghost var h := HashFn(c.dev[b], c.block[b]);
      assert ChainOk(c, h, g.chains[h]);
      var j :| 0 <= j < |g.chains[h]| && g.chains[h][j] == b;
      assert c.next[b] == After(g.chains[h], j) && c.prev[b] == Before(g.chains[h], j);
    }
  }

  /** A buffer that is on no list may take any key. */
  lemma DetachedRenamed(c: Cache, g: Lists, b: int, d: Word, k: Word)
    requires Detached(c, g, b)
    ensures forall c': Cache {:trigger Detached(c', g, b)} | Sizes(c') && c'.dev == c.dev[b := d] && c'.block == c.block[b := k]
      && c'.next == c.next && c'.prev == c.prev && c'.nextFree == c.nextFree && c'.prevFree == c.prevFree
      && c'.hash == c.hash && c'.freeList == c.freeList :: Detached(c', g, b)
  {
    forall c': Cache | Sizes(c') && c'.dev == c.dev[b := d] && c'.block == c.block[b := k]
      && c'.next == c.next && c'.prev == c.prev && c'.nextFree == c.nextFree && c'.prevFree == c.prevFree
      && c'.hash == c.hash && c'.freeList == c.freeList
      ensures Detached(c', g, b)
    {
      forall j | 0 <= j < NR_HASH
        ensures DetachedChain(c', j, g.chains[j], b)
      {
        assert DetachedChain(c, j, g.chains[j], b);
      }
    }
  }
}
