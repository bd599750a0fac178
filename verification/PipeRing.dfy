/** fs/pipe.c: the ring in one page between readers and writers.  A task that sleeps lets the
    others read and write; `env` says which chunks they take and put. */
module PipeRing {
  const PAGE_SIZE: nat := 4096
  const ERESTARTSYS: int := 512

  newtype byte = b: int | 0 <= b < 256
  type Page = s: seq<byte> | |s| == 4096 witness seq(4096, _ => 0)

  datatype Ring = Ring(data: Page, head: nat, tail: nat)

  /** What went through the pipe so far: all bytes written, and how many of them were read. */
  datatype Stream = Stream(sent: seq<byte>, got: nat)

  /** The difference of the counters, around the end of the page. */
  function Size(r: Ring): nat {
    if r.head >= r.tail then r.head - r.tail else if r.tail < PAGE_SIZE then r.head - r.tail + PAGE_SIZE else 0
  }

  /** A counter that may have reached the end of the page. */
  function Wrap(n: nat): nat { if n < PAGE_SIZE then n else n - PAGE_SIZE }

  /** Both are what masking with PAGE_SIZE - 1 gives. */
  lemma Masked(r: Ring, n: nat)
    requires r.head < PAGE_SIZE && r.tail < PAGE_SIZE && n < 2 * PAGE_SIZE
    ensures Size(r) == (r.head - r.tail) % PAGE_SIZE && Wrap(n) == n % PAGE_SIZE
  {
  }

  /** n bytes of the page from tail on, around the end. */
  function Window(data: Page, tail: nat, n: nat): (w: seq<byte>)
    requires tail < PAGE_SIZE && n <= PAGE_SIZE
    ensures |w| == n && forall k {:trigger w[k]} | 0 <= k < n :: w[k] == data[Wrap(tail + k)]
  {
    seq(n, k requires 0 <= k < n => data[Wrap(tail + k)])
  }

  /** FIFO: what is pending is what was written and not yet read, in order; at most
      PAGE_SIZE - 1 bytes. */
  ghost predicate Inv(r: Ring, t: Stream) {
    && r.head < PAGE_SIZE && r.tail < PAGE_SIZE && t.got <= |t.sent|
    && t.sent[t.got..] == Window(r.data, r.tail, Size(r))
  }

  lemma PendingBound(r: Ring, t: Stream)
    requires Inv(r, t)
    ensures |t.sent| - t.got == Size(r) <= PAGE_SIZE - 1
    ensures r.head == Wrap(r.tail + Size(r))
  {
  }

  /** What others may do: bytes are only added at the end and taken from the front. */
  ghost predicate Later(t: Stream, t': Stream) {
    t.got <= t'.got && |t.sent| <= |t'.sent| && t'.sent[..|t.sent|] == t.sent
  }

  lemma LaterTransitive(a: Stream, b: Stream, c: Stream)
    requires Later(a, b) && Later(b, c)
    ensures Later(a, c)
  {
    assert c.sent[..|a.sent|] == c.sent[..|b.sent|][..|a.sent|];
  }

  // ---- one chunk -------------------------------------------------------------------------------------

  function Overlaid(data: Page, at: nat, bytes: seq<byte>): Page
    requires at + |bytes| <= PAGE_SIZE
  {
    data[..at] + bytes + data[at + |bytes|..]
  }

  function Written(r: Ring, bytes: seq<byte>): Ring
    requires r.head + |bytes| <= PAGE_SIZE
  {
    Ring(Overlaid(r.data, r.head, bytes), Wrap(r.head + |bytes|), r.tail)
  }

  /** Pending bytes lie outside the next m free places, which come right after them. */
  lemma Apart(r: Ring, m: nat, k: nat)
    requires r.head < PAGE_SIZE && r.tail < PAGE_SIZE && r.head + m <= PAGE_SIZE && Size(r) + m <= PAGE_SIZE - 1 && k < Size(r) + m
    ensures k < Size(r) ==> !(r.head <= Wrap(r.tail + k) < r.head + m)
    ensures k >= Size(r) ==> Wrap(r.tail + k) == r.head + (k - Size(r))
  {
  }

  lemma SizeGrows(r: Ring, m: nat)
    requires r.head < PAGE_SIZE && r.tail < PAGE_SIZE && r.head + m <= PAGE_SIZE && Size(r) + m <= PAGE_SIZE - 1
    ensures Size(r.(head := Wrap(r.head + m))) == Size(r) + m
  {
  }

  lemma WrittenOk(r: Ring, t: Stream, bytes: seq<byte>)
    requires Inv(r, t) && r.head + |bytes| <= PAGE_SIZE && Size(r) + |bytes| <= PAGE_SIZE - 1
    ensures Inv(Written(r, bytes), t.(sent := t.sent + bytes))
    ensures Size(Written(r, bytes)) == Size(r) + |bytes|
  {
    var g := Written(r, bytes);
    SizeGrows(r, |bytes|);
    var n := Size(r);
    var w := Window(g.data, g.tail, n + |bytes|);
    var old_ := Window(r.data, r.tail, n);
    forall k | 0 <= k < |w|
      ensures w[k] == (old_ + bytes)[k]
    {
      Apart(r, |bytes|, k);
    }
    assert w == old_ + bytes;
    assert (t.sent + bytes)[t.got..] == t.sent[t.got..] + bytes;
  }

  lemma ReadOk(r: Ring, t: Stream, n: nat)
    requires Inv(r, t) && n <= Size(r) && r.tail + n <= PAGE_SIZE
    ensures t.got + n <= |t.sent| && r.data[r.tail..r.tail + n] == t.sent[t.got..t.got + n]
    ensures Inv(r.(tail := Wrap(r.tail + n)), t.(got := t.got + n))
  {
    PendingBound(r, t);
    var w := Window(r.data, r.tail, Size(r));
    var g := r.(tail := Wrap(r.tail + n));
    FrontOf(r, n);
    assert t.sent[t.got..t.got + n] == t.sent[t.got..][..n];
    TailMoves(r, n);
    var w' := Window(g.data, g.tail, Size(g));
    forall k | 0 <= k < |w'|
      ensures w'[k] == w[n + k]
    {
      assert Wrap(g.tail + k) == Wrap(r.tail + (n + k));
    }
    assert w' == w[n..];
    assert t.sent[t.got + n..] == t.sent[t.got..][n..];
  }

  /** Up to the end of the page the window is a slice of it. */
  lemma FrontOf(r: Ring, n: nat)
    requires r.head < PAGE_SIZE && r.tail < PAGE_SIZE && n <= Size(r) && r.tail + n <= PAGE_SIZE
    ensures r.data[r.tail..r.tail + n] == Window(r.data, r.tail, Size(r))[..n]
  {
    var w := Window(r.data, r.tail, Size(r));
    forall k {:trigger w[k]} | 0 <= k < n
      ensures w[k] == r.data[r.tail + k]
    {
    }
  }

  lemma TailMoves(r: Ring, n: nat)
    requires r.head < PAGE_SIZE && r.tail < PAGE_SIZE && n <= Size(r) && r.tail + n <= PAGE_SIZE
    ensures Size(r.(tail := Wrap(r.tail + n))) == Size(r) - n
  {
  }

  /** write_pipe moves the head before it stores the bytes.  If the copy from user memory
      sleeps in between, a reader finds the stale bytes of the ring: the pipe is then still
      FIFO exactly if they happen to be the ones being written. */
  lemma HeadFirstIff(r: Ring, t: Stream, bytes: seq<byte>)
    requires Inv(r, t) && r.head + |bytes| <= PAGE_SIZE && Size(r) + |bytes| <= PAGE_SIZE - 1
    ensures Inv(r.(head := Wrap(r.head + |bytes|)), t.(sent := t.sent + bytes)) <==> r.data[r.head..r.head + |bytes|] == bytes
  {
    var g := r.(head := Wrap(r.head + |bytes|));
    WrittenOk(r, t, r.data[r.head..r.head + |bytes|]);
    assert Written(r, r.data[r.head..r.head + |bytes|]) == g by {
      assert Overlaid(r.data, r.head, r.data[r.head..r.head + |bytes|]) == r.data;
    }
    SameEnding(t.sent, t.got, r.data[r.head..r.head + |bytes|], bytes);
  }

  lemma SameEnding(a: seq<byte>, from: nat, x: seq<byte>, y: seq<byte>)
    requires from <= |a| && |x| == |y|
    ensures (a + x)[from..] == (a + y)[from..] <==> x == y
  {
    assert x == (a + x)[from..][|a| - from..] && y == (a + y)[from..][|a| - from..];
  }

  /** One byte into an empty pipe that held zeros: moved the head, not yet stored the byte. */
  lemma HeadFirstBreaks() returns (r: Ring)
    ensures Inv(r, Stream([], 0)) && r == Ring(seq(4096, _ => 0), 0, 0)
    ensures !Inv(r.(head := 1), Stream([1], 0))
  {
    r := Ring(seq(4096, _ => 0), 0, 0);
    assert Window(r.data, 0, 0) == [];
    HeadFirstIff(r, Stream([], 0), [1]);
    assert r.data[0..1] == [0];
    assert [] + [1 as byte] == [1];
  }

  function Span(from: nat, n: nat): (s: seq<nat>)
    ensures |s| == n && forall k | 0 <= k < n :: s[k] == from + k
  {
    seq(n, (k: nat) => from + k)
  }

  // ---- runs -------------------------------------------------------------------------------------------

  datatype Direction = In | Out

  /** Task t puts a chunk into the pipe, or takes one out, without sleeping. */
  datatype Move = Move(t: nat, dir: Direction, bytes: seq<byte>)

  /** The chunk has room up to the end of the page and in the pipe; what is taken is what
      the page has there. */
  predicate Enabled(r: Ring, m: Move) {
    && r.head < PAGE_SIZE && r.tail < PAGE_SIZE
    && match m.dir
       case In => r.head + |m.bytes| <= PAGE_SIZE && Size(r) + |m.bytes| <= PAGE_SIZE - 1
       case Out => |m.bytes| <= Size(r) && r.tail + |m.bytes| <= PAGE_SIZE && r.data[r.tail..r.tail + |m.bytes|] == m.bytes
  }

  function Next(r: Ring, m: Move): Ring
    requires Enabled(r, m)
  {
    match m.dir
    case In => Written(r, m.bytes)
    case Out => r.(tail := Wrap(r.tail + |m.bytes|))
  }

  function Front(moves: seq<Move>): seq<Move>
    requires moves != []
  {
    moves[..|moves| - 1]
  }

  predicate CanRun(r: Ring, moves: seq<Move>)
    decreases |moves|, 0
  {
    moves == [] || (CanRun(r, Front(moves)) && Enabled(RunAll(r, Front(moves)), moves[|moves| - 1]))
  }

  function RunAll(r: Ring, moves: seq<Move>): Ring
    requires CanRun(r, moves)
    decreases |moves|, 1
  {
    if moves == [] then r else Next(RunAll(r, Front(moves)), moves[|moves| - 1])
  }

  /** All bytes that went in, or out, in order. */
  function All(moves: seq<Move>, dir: Direction): seq<byte>
    decreases |moves|
  {
    if moves == [] then []
    else All(Front(moves), dir) + if moves[|moves| - 1].dir == dir then moves[|moves| - 1].bytes else []
  }

  /** The bytes that task t put, or took, in order. */
  function Own(moves: seq<Move>, dir: Direction, t: nat): seq<byte>
    decreases |moves|
  {
    if moves == [] then []
    else
      var m := moves[|moves| - 1];
      Own(Front(moves), dir, t) + if m.dir == dir && m.t == t then m.bytes else []
  }

  /** Where those bytes stand among all. */
  function Places(moves: seq<Move>, dir: Direction, t: nat): seq<nat>
    decreases |moves|
  {
    if moves == [] then []
    else
      var m := moves[|moves| - 1];
      Places(Front(moves), dir, t) + if m.dir == dir && m.t == t then Span(|All(Front(moves), dir)|, |m.bytes|) else []
  }

  function Passed(moves: seq<Move>): Stream { Stream(All(moves, In), |All(moves, Out)|) }

  ghost predicate Fresh(r: Ring) { r.head == r.tail < PAGE_SIZE }

  lemma CanTake(r: Ring, t: Stream, n: nat)
    requires Inv(r, t) && n <= Size(r) && r.tail + n <= PAGE_SIZE
    ensures Enabled(r, Move(0, Out, r.data[r.tail..r.tail + n]))
    ensures t.got + n <= |t.sent| && r.data[r.tail..r.tail + n] == t.sent[t.got..t.got + n]
  {
    ReadOk(r, t, n);
  }

  /** For every run of any number of readers and writers: what was taken, in order, is the
      front of what was put, and the rest is what is pending. */
  lemma {:induction false} FirstInFirstOut(r: Ring, moves: seq<Move>)
    requires Fresh(r) && CanRun(r, moves)
    ensures All(moves, Out) <= All(moves, In) && Inv(RunAll(r, moves), Passed(moves))
    ensures |All(moves, In)| - |All(moves, Out)| == Size(RunAll(r, moves)) <= PAGE_SIZE - 1
    decreases |moves|
  {
    if moves != [] {
      FirstInFirstOut(r, Front(moves));
      OneMove(RunAll(r, Front(moves)), moves[|moves| - 1], All(Front(moves), In), All(Front(moves), Out));
    }
    PendingBound(RunAll(r, moves), Passed(moves));
  }

  lemma OneMove(r: Ring, m: Move, sent: seq<byte>, taken: seq<byte>)
    requires Enabled(r, m) && Inv(r, Stream(sent, |taken|)) && taken <= sent
    ensures m.dir == In ==> Inv(Next(r, m), Stream(sent + m.bytes, |taken|))
    ensures m.dir == Out ==> Inv(Next(r, m), Stream(sent, |taken + m.bytes|)) && taken + m.bytes <= sent
  {
    if m.dir == In { WrittenOk(r, Stream(sent, |taken|), m.bytes); } else { ReadOk(r, Stream(sent, |taken|), |m.bytes|); }
  }

  /** Each task's bytes stand where its places say, in order. */
  lemma {:induction false} PlacesHold(moves: seq<Move>, dir: Direction, t: nat)
    ensures |Places(moves, dir, t)| == |Own(moves, dir, t)|
    ensures forall k | 0 <= k < |Places(moves, dir, t)| ::
      Places(moves, dir, t)[k] < |All(moves, dir)| && All(moves, dir)[Places(moves, dir, t)[k]] == Own(moves, dir, t)[k]
    ensures forall j, k | 0 <= j < k < |Places(moves, dir, t)| :: Places(moves, dir, t)[j] < Places(moves, dir, t)[k]
    decreases |moves|
  {
    if moves != [] { PlacesHold(Front(moves), dir, t); }
  }

  /** The place is the k-th of task t. */
  ghost predicate PlaceOf(moves: seq<Move>, dir: Direction, t: nat, k: nat, p: nat) {
    k < |Places(moves, dir, t)| && Places(moves, dir, t)[k] == p
  }

  /** Every byte that went in, or out, is of exactly one task, once: nothing is lost, and
      nothing is taken twice. */
  lemma {:induction false} EachByteOnce(moves: seq<Move>, dir: Direction, p: nat) returns (t: nat, k: nat)
    requires p < |All(moves, dir)|
    ensures PlaceOf(moves, dir, t, k, p)
    ensures forall u: nat, j: nat | PlaceOf(moves, dir, u, j, p) :: u == t && j == k
    decreases |moves|
  {
    var m, before := moves[|moves| - 1], |All(Front(moves), dir)|;
    if p < before {
      t, k := EachByteOnce(Front(moves), dir, p);
    } else {
      t, k := m.t, |Places(Front(moves), dir, m.t)| + (p - before);
    }
    forall u: nat, j: nat | PlaceOf(moves, dir, u, j, p)
      ensures u == t && j == k
    {
      PlacesHold(Front(moves), dir, u);
      if j < |Places(Front(moves), dir, u)| { assert PlaceOf(Front(moves), dir, u, j, p); }
    }
  }

  ghost predicate NotBy(moves: seq<Move>, t: nat) { forall i | 0 <= i < |moves| :: moves[i].t != t }

  lemma {:induction false} RunsAppend(r: Ring, moves: seq<Move>, more: seq<Move>)
    requires CanRun(r, moves) && CanRun(RunAll(r, moves), more)
    ensures CanRun(r, moves + more) && RunAll(r, moves + more) == RunAll(RunAll(r, moves), more)
    decreases |more|
  {
    if more == [] {
      assert moves + more == moves;
    } else {
      RunsAppend(r, moves, Front(more));
      FrontOfBoth(moves, more);
      SameEnd(r, moves + more, RunAll(r, moves), more);
    }
  }

  lemma FrontOfBoth(moves: seq<Move>, more: seq<Move>)
    requires more != []
    ensures moves + more != [] && Front(moves + more) == moves + Front(more) && (moves + more)[|moves + more| - 1] == more[|more| - 1]
  {
  }

  /** Two runs that meet before the same last move end in the same ring. */
  lemma SameEnd(r: Ring, a: seq<Move>, r': Ring, b: seq<Move>)
    requires a != [] && b != [] && a[|a| - 1] == b[|b| - 1] && CanRun(r', b)
    requires CanRun(r, Front(a)) && RunAll(r, Front(a)) == RunAll(r', Front(b))
    ensures CanRun(r, a) && RunAll(r, a) == RunAll(r', b)
  {
  }

  /** What others do adds to the stream and to nothing that is this task's. */
  lemma {:induction false} OthersAdd(moves: seq<Move>, more: seq<Move>, dir: Direction, t: nat)
    requires NotBy(more, t)
    ensures Own(moves + more, dir, t) == Own(moves, dir, t) && Places(moves + more, dir, t) == Places(moves, dir, t)
    ensures All(moves, dir) <= All(moves + more, dir)
    decreases |more|
  {
    if more == [] {
      assert moves + more == moves;
    } else {
      OthersAdd(moves, Front(more), dir, t);
      assert Front(moves + more) == moves + Front(more);
    }
  }

  lemma OneMore(moves: seq<Move>, m: Move, dir: Direction)
    ensures All(moves + [m], dir) == All(moves, dir) + if m.dir == dir then m.bytes else []
    ensures Own(moves + [m], dir, m.t) == Own(moves, dir, m.t) + if m.dir == dir then m.bytes else []
    ensures Places(moves + [m], dir, m.t) == Places(moves, dir, m.t) + if m.dir == dir then Span(|All(moves, dir)|, |m.bytes|) else []
  {
    assert Front(moves + [m]) == moves;
  }

  /** The moves lead from the fresh ring r0 to r. */
  ghost predicate Reached(r0: Ring, moves: seq<Move>, r: Ring) {
    Fresh(r0) && CanRun(r0, moves) && RunAll(r0, moves) == r && Inv(r, Passed(moves))
  }

  lemma ReachedNext(r0: Ring, moves: seq<Move>, r: Ring, m: Move)
    requires Reached(r0, moves, r) && Enabled(r, m)
    ensures Reached(r0, moves + [m], Next(r, m))
  {
    assert Front(moves + [m]) == moves;
    FirstInFirstOut(r0, moves + [m]);
  }

  lemma ReachedMore(r0: Ring, moves: seq<Move>, r: Ring, more: seq<Move>)
    requires Reached(r0, moves, r) && CanRun(r, more) && NotBy(more, 0)
    ensures Reached(r0, moves + more, RunAll(r, more)) && Later(Passed(moves), Passed(moves + more))
  {
    RunsAppend(r0, moves, more);
    FirstInFirstOut(r0, moves + more);
    OthersAdd(moves, more, In, 0);
    OthersAdd(moves, more, Out, 0);
  }

  // ---- the calls ------------------------------------------------------------------------------------------

  /** The bytes stand in the stream at the given positions, one after the other. */
  ghost predicate Placed(t: Stream, bytes: seq<byte>, at: seq<nat>, from: nat, to: nat) {
    && |at| == |bytes| && from <= to <= |t.sent|
    && (forall k | 0 <= k < |at| :: from <= at[k] < to && t.sent[at[k]] == bytes[k])
    && (forall j, k | 0 <= j < k < |at| :: at[j] < at[k])
  }

  lemma PlacedLater(t: Stream, t': Stream, bytes: seq<byte>, at: seq<nat>, from: nat, to: nat, to': nat)
    requires Placed(t, bytes, at, from, to) && Later(t, t') && to <= to' <= |t'.sent|
    ensures Placed(t', bytes, at, from, to')
  {
    forall k | 0 <= k < |at|
      ensures t'.sent[at[k]] == bytes[k]
    {
      assert t'.sent[at[k]] == t'.sent[..|t.sent|][at[k]];
    }
  }

  lemma PlacedMore(t: Stream, bytes: seq<byte>, at: seq<nat>, from: nat, to: nat, more: seq<byte>)
    requires Placed(t, bytes, at, from, to) && to + |more| <= |t.sent| && t.sent[to..to + |more|] == more
    ensures Placed(t, bytes + more, at + Span(to, |more|), from, to + |more|)
  {
    forall k | |at| <= k < |at| + |more|
      ensures t.sent[(at + Span(to, |more|))[k]] == (bytes + more)[k]
    {
      assert t.sent[to..to + |more|][k - |at|] == t.sent[to + (k - |at|)];
    }
  }

  // ---- the tail moves first ---------------------------------------------------------------------------

  ghost predicate OnlyIn(moves: seq<Move>) { forall i | 0 <= i < |moves| :: moves[i].dir == In }

  /** The bytes that a reader still has to copy after it moved the tail. */
  function Behind(r: Ring, tail: nat, n: nat): seq<byte>
    requires tail + n <= PAGE_SIZE
  {
    r.data[tail..tail + n]
  }

  /** read_pipe moves the tail before it copies the n bytes to user memory.  If that sleeps,
      writers find the place free. */
  ghost predicate Spared(r1: Ring, tail: nat, n: nat, moves: seq<Move>)
    requires tail + n <= PAGE_SIZE
  {
    CanRun(r1, moves) && OnlyIn(moves) ==> Behind(RunAll(r1, moves), tail, n) == Behind(r1, tail, n)
  }

  /** A write does not reach the place right before the tail, as one place stays empty. */
  lemma LastPlaceKept(r: Ring, m: Move, at: nat)
    requires Enabled(r, m) && m.dir == In && at < PAGE_SIZE && Wrap(at + 1) == r.tail
    ensures Next(r, m).data[at] == r.data[at] && Next(r, m).tail == r.tail
  {
  }

  lemma {:induction false} LastPlaceKeptAlong(r: Ring, moves: seq<Move>, at: nat)
    requires CanRun(r, moves) && OnlyIn(moves) && at < PAGE_SIZE && Wrap(at + 1) == r.tail
    ensures RunAll(r, moves).data[at] == r.data[at] && RunAll(r, moves).tail == r.tail
    decreases |moves|
  {
    if moves != [] {
      LastPlaceKeptAlong(r, Front(moves), at);
      LastPlaceKept(RunAll(r, Front(moves)), moves[|moves| - 1], at);
    }
  }

  lemma NotSpared(r1: Ring, tail: nat, n: nat, moves: seq<Move>)
    requires 0 < n && tail + n <= PAGE_SIZE && CanRun(r1, moves) && OnlyIn(moves) && RunAll(r1, moves).data[tail] != r1.data[tail]
    ensures !Spared(r1, tail, n, moves)
  {
    assert Behind(RunAll(r1, moves), tail, n)[0] == RunAll(r1, moves).data[tail] && Behind(r1, tail, n)[0] == r1.data[tail];
  }

  lemma OneIsSame(r: Ring, r': Ring, tail: nat)
    requires tail < PAGE_SIZE && r.data[tail] == r'.data[tail]
    ensures Behind(r, tail, 1) == Behind(r', tail, 1)
  {
    assert Behind(r, tail, 1) == [r.data[tail]] && Behind(r', tail, 1) == [r'.data[tail]];
  }

  /** The bytes that a reader copies late are the ones it counted, whatever is written
      meanwhile, if and only if there is only one of them. */
  lemma TailFirstIff(r: Ring, t: Stream, n: nat)
    requires Inv(r, t) && 0 < n <= Size(r) && r.tail + n <= PAGE_SIZE
    ensures Behind(r, r.tail, n) == t.sent[t.got..t.got + n]
    ensures var r1 := r.(tail := Wrap(r.tail + n));
      (forall moves {:trigger Spared(r1, r.tail, n, moves)} :: Spared(r1, r.tail, n, moves)) <==> n == 1
  {
    ReadOk(r, t, n);
    var r1 := r.(tail := Wrap(r.tail + n));
    if n == 1 {
      forall moves
        ensures Spared(r1, r.tail, n, moves)
      {
        if CanRun(r1, moves) && OnlyIn(moves) {
          LastPlaceKeptAlong(r1, moves, r.tail);
          OneIsSame(RunAll(r1, moves), r1, r.tail);
        }
      }
    } else {
      var moves := Overwriting(r, r1, n);
      NotSpared(r1, r.tail, n, moves);
    }
  }

  /** One chunk for a byte, and its neighbours below. */
  function Filler(n: nat, last: byte): seq<byte> { seq(n, _ => 0) + [last] }

  function Other(b: byte): byte { if b == 0 then 1 else 0 }

  /** Writers that reach the first of the bytes: straight on, or around the end of the page. */
  lemma Overwriting(r: Ring, r1: Ring, n: nat) returns (moves: seq<Move>)
    requires r.head < PAGE_SIZE && r.tail < PAGE_SIZE && 2 <= n <= Size(r) && r.tail + n <= PAGE_SIZE && r1 == r.(tail := Wrap(r.tail + n))
    ensures CanRun(r1, moves) && OnlyIn(moves) && RunAll(r1, moves).data[r.tail] != r1.data[r.tail]
  {
    TailMoves(r, n);
    var b := Other(r1.data[r.tail]);
    if r.head < r.tail {
      var m := Move(1, In, Filler(r.tail - r.head, b));
      OneRun(r1, m);
      moves := [m];
    } else {
      var m1, m2 := Move(1, In, seq(PAGE_SIZE - r.head, _ => 0)), Move(1, In, Filler(r.tail, b));
      OneRun(r1, m1);
      var r2 := Next(r1, m1);
      assert r2.head == 0 && r2.tail == r1.tail && Size(r2) == Size(r1) + (PAGE_SIZE - r.head) by { SizeGrows(r1, PAGE_SIZE - r.head); }
      OneRun(r2, m2);
      RunsAppend(r1, [m1], [m2]);
      moves := [m1] + [m2];
    }
  }

  lemma OneRun(r: Ring, m: Move)
    requires Enabled(r, m)
    ensures CanRun(r, [m]) && RunAll(r, [m]) == Next(r, m)
  {
    assert Front([m]) == [];
  }

  /** Two ones at the end of a page; their reader has moved the tail, and a writer fills the
      pipe with zeros before they are copied. */
  lemma TailFirstBreaks() returns (r: Ring, moves: seq<Move>)
    ensures Inv(r, Stream([1, 1], 0)) && r.head == 0 && r.tail == 4094 && Size(r) == 2
    ensures CanRun(r.(tail := 0), moves) && OnlyIn(moves)
    ensures Behind(RunAll(r.(tail := 0), moves), 4094, 2) != [1, 1]
  {
    var r0 := Ring(seq(4096, _ => 0), 4094, 4094);
    assert Window(r0.data, 4094, 0) == [];
    var ones: seq<byte> := [1, 1];
    WrittenOk(r0, Stream([], 0), ones);
    assert [] + ones == ones;
    r := Written(r0, ones);
    var m := Move(1, In, seq(4095, _ => 0));
    OneRun(r.(tail := 0), m);
    moves := [m];
    var g := RunAll(r.(tail := 0), moves);
    assert g.data[4094] == 0;
    assert Behind(g, 4094, 2)[0] == 0;
  }

  // ---- progress of one call ------------------------------------------------------------------------------

  /** A read that began at t0 has taken buf so far. */
  ghost predicate Reading(t0: Stream, t: Stream, buf: seq<byte>, at: seq<nat>, slept: bool) {
    && Later(t0, t) && Placed(t, buf, at, t0.got, t.got)
    && (!slept ==> t == t0.(got := t0.got + |buf|) && buf == t.sent[t0.got..t.got])
  }

  lemma ReadingSlept(t0: Stream, t: Stream, t': Stream, buf: seq<byte>, at: seq<nat>, slept: bool)
    requires Reading(t0, t, buf, at, slept) && Later(t, t') && t'.got <= |t'.sent|
    ensures Reading(t0, t', buf, at, true)
  {
    PlacedLater(t, t', buf, at, t0.got, t.got, t'.got);
    LaterTransitive(t0, t, t');
  }

  lemma ReadingMore(t0: Stream, t: Stream, t': Stream, buf: seq<byte>, at: seq<nat>, slept: bool, chunk: seq<byte>)
    requires Reading(t0, t, buf, at, slept) && t' == t.(got := t.got + |chunk|) && t'.got <= |t'.sent| && chunk == t'.sent[t.got..t'.got]
    ensures Reading(t0, t', buf + chunk, at + Span(t.got, |chunk|), slept)
  {
    PlacedMore(t', buf, at, t0.got, t.got, chunk);
  }

  /** A write that began at t0 has put bytes so far. */
  ghost predicate Writing(t0: Stream, t: Stream, bytes: seq<byte>, at: seq<nat>, slept: bool) {
    && Later(t0, t) && Placed(t, bytes, at, |t0.sent|, |t.sent|)
    && (!slept ==> t == t0.(sent := t0.sent + bytes))
  }

  lemma WritingSlept(t0: Stream, t: Stream, t': Stream, bytes: seq<byte>, at: seq<nat>, slept: bool)
    requires Writing(t0, t, bytes, at, slept) && Later(t, t')
    ensures Writing(t0, t', bytes, at, true)
  {
    PlacedLater(t, t', bytes, at, |t0.sent|, |t.sent|, |t'.sent|);
    LaterTransitive(t0, t, t');
  }

  lemma WritingMore(t0: Stream, t: Stream, t': Stream, bytes: seq<byte>, at: seq<nat>, slept: bool, chunk: seq<byte>)
    requires Writing(t0, t, bytes, at, slept) && t' == t.(sent := t.sent + chunk)
    ensures Writing(t0, t', bytes + chunk, at + Span(|t.sent|, |chunk|), slept)
  {
    assert Later(t, t');
    PlacedLater(t, t', bytes, at, |t0.sent|, |t.sent|, |t.sent|);
    PlacedMore(t', bytes, at, |t0.sent|, |t.sent|, chunk);
    LaterTransitive(t0, t, t');
    assert t0.sent + (bytes + chunk) == (t0.sent + bytes) + chunk;
  }

  /** The read that began after the moves m0 has taken buf by now, and nothing else was
      taken by this task. */
  ghost predicate ReadSoFar(m0: seq<Move>, m: seq<Move>, buf: seq<byte>, at: seq<nat>, slept: bool) {
    && m0 <= m && Reading(Passed(m0), Passed(m), buf, at, slept)
    && Own(m, Out, 0) == Own(m0, Out, 0) + buf && Places(m, Out, 0) == Places(m0, Out, 0) + at
  }

  lemma ReadSleeps(m0: seq<Move>, m: seq<Move>, m': seq<Move>, buf: seq<byte>, at: seq<nat>, slept: bool)
    requires ReadSoFar(m0, m, buf, at, slept) && m <= m' && Later(Passed(m), Passed(m')) && |All(m', Out)| <= |All(m', In)|
    requires Own(m', Out, 0) == Own(m, Out, 0) && Places(m', Out, 0) == Places(m, Out, 0)
    ensures ReadSoFar(m0, m', buf, at, true)
  {
    ReadingSlept(Passed(m0), Passed(m), Passed(m'), buf, at, slept);
  }

  lemma Joined<T>(a: seq<T>, b: seq<T>, c: seq<T>)
    ensures (a + b) + c == a + (b + c)
  {
  }

  lemma ReadTakes(m0: seq<Move>, m: seq<Move>, m': seq<Move>, buf: seq<byte>, at: seq<nat>, slept: bool, chunk: seq<byte>)
    requires ReadSoFar(m0, m, buf, at, slept) && m <= m'
    requires Own(m', Out, 0) == Own(m, Out, 0) + chunk && Places(m', Out, 0) == Places(m, Out, 0) + Span(Passed(m).got, |chunk|)
    requires var t, t' := Passed(m), Passed(m');
      t' == t.(got := t.got + |chunk|) && t'.got <= |t'.sent| && chunk == t'.sent[t.got..t'.got]
    ensures ReadSoFar(m0, m', buf + chunk, at + Span(Passed(m).got, |chunk|), slept)
  {
    ReadingMore(Passed(m0), Passed(m), Passed(m'), buf, at, slept, chunk);
    Joined(Own(m0, Out, 0), buf, chunk);
    Joined(Places(m0, Out, 0), at, Span(Passed(m).got, |chunk|));
  }

  /** The write that began after the moves m0 has put these bytes by now, and this task
      nothing else. */
  ghost predicate WrittenSoFar(m0: seq<Move>, m: seq<Move>, put: seq<byte>, at: seq<nat>, slept: bool) {
    && m0 <= m && Writing(Passed(m0), Passed(m), put, at, slept)
    && Own(m, In, 0) == Own(m0, In, 0) + put && Places(m, In, 0) == Places(m0, In, 0) + at
  }

  lemma WriteSleeps(m0: seq<Move>, m: seq<Move>, m': seq<Move>, put: seq<byte>, at: seq<nat>, slept: bool)
    requires WrittenSoFar(m0, m, put, at, slept) && m <= m' && Later(Passed(m), Passed(m'))
    requires Own(m', In, 0) == Own(m, In, 0) && Places(m', In, 0) == Places(m, In, 0)
    ensures WrittenSoFar(m0, m', put, at, true)
  {
    WritingSlept(Passed(m0), Passed(m), Passed(m'), put, at, slept);
  }

  lemma WritePuts(m0: seq<Move>, m: seq<Move>, m': seq<Move>, put: seq<byte>, at: seq<nat>, slept: bool, chunk: seq<byte>)
    requires WrittenSoFar(m0, m, put, at, slept) && m <= m' && Passed(m') == Passed(m).(sent := Passed(m).sent + chunk)
    requires Own(m', In, 0) == Own(m, In, 0) + chunk && Places(m', In, 0) == Places(m, In, 0) + Span(|Passed(m).sent|, |chunk|)
    ensures WrittenSoFar(m0, m', put + chunk, at + Span(|Passed(m).sent|, |chunk|), slept)
  {
    WritingMore(Passed(m0), Passed(m), Passed(m'), put, at, slept, chunk);
    Joined(Own(m0, In, 0), put, chunk);
    Joined(Places(m0, In, 0), at, Span(|Passed(m).sent|, |chunk|));
  }

  lemma WriteStarts(m: seq<Move>)
    ensures WrittenSoFar(m, m, [], [], false)
  {
    assert All(m, In) + [] == All(m, In) && Own(m, In, 0) + [] == Own(m, In, 0) && Places(m, In, 0) + [] == Places(m, In, 0);
  }

  /** A write that fits and did not sleep meets no full pipe. */
  lemma NotFull(r: Ring, m0: seq<Move>, m: seq<Move>, put: seq<byte>, at: seq<nat>, slept: bool, want: nat)
    requires |put| < want && WrittenSoFar(m0, m, put, at, slept) && Inv(r, Passed(m)) && |All(m0, Out)| <= |All(m0, In)|
    ensures !slept && |All(m0, In)| - |All(m0, Out)| + want <= PAGE_SIZE - 1 ==> Size(r) < PAGE_SIZE - 1
  {
    PendingBound(r, Passed(m));
  }

  /** A read of no more than there is, and that did not sleep, meets no empty pipe. */
  lemma NotEmpty(r: Ring, m0: seq<Move>, m: seq<Move>, buf: seq<byte>, at: seq<nat>, slept: bool, want: nat)
    requires |buf| < want && ReadSoFar(m0, m, buf, at, slept) && Inv(r, Passed(m))
    ensures !slept && |All(m0, Out)| + want <= |All(m0, In)| ==> Size(r) > 0
  {
    PendingBound(r, Passed(m));
  }

  /** The chunks the others take and put; alone tells whether the other end is closed then,
      signal whether an unblocked signal is there. */
  datatype Outcome = Outcome(moves: seq<Move>, alone: bool, signal: bool)

  /** The others only do what the pipe allows, and this task, number 0, does nothing. */
  ghost predicate Lawful(env: (nat, Ring) -> Outcome) {
    forall n, r {:trigger env(n, r)} :: CanRun(r, env(n, r).moves) && NotBy(env(n, r).moves, 0)
  }

  /** Whatever the others can do to some ring, some lawful environment does. */
  lemma EveryRunIsLawful(r: Ring, out: Outcome) returns (env: (nat, Ring) -> Outcome)
    requires CanRun(r, out.moves) && NotBy(out.moves, 0)
    ensures Lawful(env) && env(0, r) == out
  {
    env := (n, x) => if x == r then out else out.(moves := []);
  }

  class Pipe {
    var ring: Ring
    var alone: bool
    var signal: bool
    var clock: nat
    const env: (nat, Ring) -> Outcome
    ghost const start: Ring
    ghost var moves: seq<Move>     // all chunks so far, of this task and of the others

    ghost predicate Valid()
      reads this
    {
      Reached(start, moves, ring) && Lawful(env)
    }

    ghost function Now(): Stream
      reads this
    {
      Passed(moves)
    }

    /** sys_pipe: an empty ring in a fresh page. */
    constructor (env: (nat, Ring) -> Outcome)
      requires Lawful(env)
      ensures Valid() && moves == [] && Now() == Stream([], 0) && this.env == env
    {
      ring := Ring(seq(4096, _ => 0), 0, 0);
      alone, signal, clock := false, false, 0;
      this.env := env;
      start := Ring(seq(4096, _ => 0), 0, 0);
      moves := [];
      new;
      FirstInFirstOut(start, []);
      assert start == ring;
    }

    method Sleep()
      requires Valid()
      modifies this`ring, this`alone, this`signal, this`clock, this`moves
      ensures Valid() && Later(old(Now()), Now()) && clock == old(clock) + 1
      ensures alone == env(old(clock), old(ring)).alone && signal == env(old(clock), old(ring)).signal
      ensures old(moves) <= moves && NotBy(moves[|old(moves)|..], 0)
      ensures Own(moves, Out, 0) == old(Own(moves, Out, 0)) && Places(moves, Out, 0) == old(Places(moves, Out, 0))
      ensures Own(moves, In, 0) == old(Own(moves, In, 0)) && Places(moves, In, 0) == old(Places(moves, In, 0))
    {
      var out := env(clock, ring);
      OthersAdd(moves, out.moves, In, 0);
      OthersAdd(moves, out.moves, Out, 0);
      ReachedMore(start, moves, ring, out.moves);
      ring, alone, signal, clock := RunAll(ring, out.moves), out.alone, out.signal, clock + 1;
      moves := moves + out.moves;
    }

    /** read_pipe.  The bytes it returns are exactly what this task took in the meantime, at
        exactly its own places in the stream; without sleeping they are the next ones. */
    method ReadPipe(count: nat, fuel: nat) returns (buf: seq<byte>, r: int, ghost at: seq<nat>, ghost slept: bool)
      requires Valid()
      modifies this
      ensures Valid() && |buf| <= count && ReadSoFar(old(moves), moves, buf, at, slept)
      ensures old(Now()).got + count <= |old(Now()).sent| ==> !slept && |buf| == count
      ensures slept <==> clock > old(clock)
      ensures clock <= old(clock) + fuel
      ensures |buf| < count ==> Size(ring) == 0 && (alone || signal || clock == old(clock) + fuel)
      ensures r == |buf| || (r == -ERESTARTSYS && buf == [] && count > 0 && signal && !alone)
    {
      buf, at, slept := [], [], false;
      var left := count;
      var sleeps := fuel;
      while left > 0
        invariant clock + sleeps == old(clock) + fuel && (slept <==> sleeps < fuel) && sleeps >= 0
        invariant slept ==> old(Now()).got + count > |old(Now()).sent|
        invariant Valid() && |buf| + left == count && left >= 0 && ReadSoFar(old(moves), moves, buf, at, slept)
        decreases sleeps, left
      {
        ghost var before := moves;
        NotEmpty(ring, old(moves), moves, buf, at, slept, count);
        if Size(ring) == 0 {
          if alone || sleeps == 0 {
            return buf, |buf|, at, slept;
          }
          if signal {
            return buf, if buf != [] then |buf| else -ERESTARTSYS, at, slept;
          }
          Sleep();
          ReadSleeps(old(moves), before, moves, buf, at, slept);
          slept := true;
          sleeps := sleeps - 1;
        } else {
          var chunk := TakeChunk(left);
          ReadTakes(old(moves), before, moves, buf, at, slept, chunk);
          at := at + Span(Passed(before).got, |chunk|);
          buf := buf + chunk;
          left := left - |chunk|;
        }
      }
      r := |buf|;
    }

    // pipe.c:42-56
    method TakeChunk(count: nat) returns (chunk: seq<byte>)
      requires Valid() && Size(ring) > 0 && count > 0
      modifies this`ring, this`moves
      ensures Valid() && 0 < |chunk| <= count && moves == old(moves) + [Move(0, Out, chunk)]
      ensures Now() == old(Now()).(got := old(Now()).got + |chunk|)
      ensures Now().got <= |Now().sent| && chunk == Now().sent[old(Now()).got..Now().got]
      ensures Own(moves, Out, 0) == old(Own(moves, Out, 0)) + chunk
      ensures Places(moves, Out, 0) == old(Places(moves, Out, 0)) + Span(old(Now()).got, |chunk|)
    {
      var chars := PAGE_SIZE - ring.tail;
      if chars > count {
        chars := count;
      }
      if chars > Size(ring) {
        chars := Size(ring);
      }
      chunk := Take(chars);
    }

    // pipe.c:50-55
    method Take(chars: nat) returns (chunk: seq<byte>)
      requires Valid() && chars <= Size(ring) && ring.tail + chars <= PAGE_SIZE
      modifies this`ring, this`moves
      ensures Valid() && |chunk| == chars && moves == old(moves) + [Move(0, Out, chunk)]
      ensures Now() == old(Now()).(got := old(Now()).got + chars)
      ensures Now().got <= |Now().sent| && chunk == Now().sent[old(Now()).got..Now().got]
      ensures Own(moves, Out, 0) == old(Own(moves, Out, 0)) + chunk
      ensures Places(moves, Out, 0) == old(Places(moves, Out, 0)) + Span(old(Now()).got, chars)
    {
      ghost var before := ring;
      CanTake(ring, Now(), chars);
      var size := ring.tail;
      ring := ring.(tail := Wrap(ring.tail + chars));
      chunk := ring.data[size..size + chars];
      Record(before, Move(0, Out, chunk));
    }

    /** write_pipe.  What was written stands in the stream in order, at its end; without
        sleeping, in one piece.  sigpipe is the signal for a closed other end. */
    method WritePipe(buf: seq<byte>, fuel: nat) returns (r: int, ghost n: nat, ghost at: seq<nat>, ghost slept: bool, sigpipe: bool)
      requires Valid()
      modifies this
      ensures Valid() && n <= |buf| && WrittenSoFar(old(moves), moves, buf[..n], at, slept)
      ensures |old(Now()).sent| - old(Now()).got + |buf| <= PAGE_SIZE - 1 ==> !slept && n == |buf|
      ensures slept <==> clock > old(clock)
      ensures clock <= old(clock) + fuel
      ensures n < |buf| ==> Size(ring) == PAGE_SIZE - 1 && (alone || clock == old(clock) + fuel)
      ensures sigpipe <==> n < |buf| && alone
      ensures r == if sigpipe && n == 0 then -1 else n
    {
      n, at, slept, sigpipe := 0, [], false, false;
      var done := 0;
      var sleeps := fuel;
      WriteStarts(moves);
      ghost var put: seq<byte> := [];
      while done < |buf|
        invariant clock + sleeps == old(clock) + fuel && (slept <==> sleeps < fuel) && sleeps >= 0
        invariant slept ==> |old(Now()).sent| - old(Now()).got + |buf| > PAGE_SIZE - 1
        invariant Valid() && 0 <= n == done <= |buf| && !sigpipe && put == buf[..done]
        invariant WrittenSoFar(old(moves), moves, put, at, slept)
        decreases sleeps, |buf| - done
      {
        NotFull(ring, old(moves), moves, put, at, slept, |buf|);
        if PAGE_SIZE - 1 - Size(ring) == 0 {
          if alone || sleeps == 0 {
            sigpipe := alone;
            return if done > 0 || !alone then done else -1, n, at, slept, sigpipe;
          }
          WaitForRoom(old(moves), put, at, slept);
          slept := true;
          sleeps := sleeps - 1;
        } else {
          var chars;
          chars, put, at := PutNext(buf, done, old(moves), put, at, slept);
          done := done + chars;
          n := done;
        }
      }
      r := done;
    }

    // pipe.c:83
    method WaitForRoom(ghost m0: seq<Move>, ghost put: seq<byte>, ghost at: seq<nat>, ghost slept: bool)
      requires Valid() && WrittenSoFar(m0, moves, put, at, slept)
      modifies this`ring, this`alone, this`signal, this`clock, this`moves
      ensures Valid() && WrittenSoFar(m0, moves, put, at, true) && clock == old(clock) + 1
    {
      ghost var before := moves;
      Sleep();
      WriteSleeps(m0, before, moves, put, at, slept);
    }

    method PutNext(buf: seq<byte>, done: nat, ghost m0: seq<Move>, ghost put: seq<byte>, ghost at: seq<nat>, ghost slept: bool)
      returns (chars: nat, ghost put': seq<byte>, ghost at': seq<nat>)
      requires Valid() && Size(ring) < PAGE_SIZE - 1 && done < |buf| && put == buf[..done] && WrittenSoFar(m0, moves, put, at, slept)
      modifies this`ring, this`moves
      ensures Valid() && 0 < chars && done + chars <= |buf| && put' == buf[..done + chars] && WrittenSoFar(m0, moves, put', at', slept)
    {
      ghost var before := moves;
      chars := PutChunk(buf, done);
      WritePuts(m0, before, moves, put, at, slept, buf[done..done + chars]);
      put', at' := put + buf[done..done + chars], at + Span(|Passed(before).sent|, chars);
    }

    // pipe.c:86-100
    method PutChunk(buf: seq<byte>, done: nat) returns (chars: nat)
      requires Valid() && Size(ring) < PAGE_SIZE - 1 && done < |buf|
      modifies this`ring, this`moves
      ensures Valid() && 0 < chars && done + chars <= |buf| && moves == old(moves) + [Move(0, In, buf[done..done + chars])]
      ensures Own(moves, In, 0) == old(Own(moves, In, 0)) + buf[done..done + chars]
      ensures Places(moves, In, 0) == old(Places(moves, In, 0)) + Span(|old(Now()).sent|, chars)
      ensures Now() == old(Now()).(sent := old(Now()).sent + buf[done..done + chars])
    {
      chars := PAGE_SIZE - ring.head;
      if chars > |buf| - done {
        chars := |buf| - done;
      }
      if chars > PAGE_SIZE - 1 - Size(ring) {
        chars := PAGE_SIZE - 1 - Size(ring);
      }
      var bytes := buf[done..done + chars];
      ghost var before := ring;
      var size := ring.head;
      ring := ring.(head := Wrap(ring.head + chars));
      ring := ring.(data := Overlaid(ring.data, size, bytes));
      Record(before, Move(0, In, bytes));
    }

    /** Enter an own chunk into the history. */
    ghost method Record(r: Ring, m: Move)
      requires Reached(start, moves, r) && Enabled(r, m) && Next(r, m) == ring && m.t == 0 && Lawful(env)
      modifies this`moves
      ensures Valid() && moves == old(moves) + [m]
      ensures m.dir == In ==> Now() == old(Now()).(sent := old(Now()).sent + m.bytes)
      ensures m.dir == Out ==> Now() == old(Now()).(got := old(Now()).got + |m.bytes|)
      ensures Own(moves, m.dir, 0) == old(Own(moves, m.dir, 0)) + m.bytes
      ensures Places(moves, m.dir, 0) == old(Places(moves, m.dir, 0)) + Span(|old(All(moves, m.dir))|, |m.bytes|)
    {
      ReachedNext(start, moves, r, m);
      OneMore(moves, m, In);
      OneMore(moves, m, Out);
      moves := moves + [m];
    }
  }
}
