/** What growing and truncating a file do to the whole file system. */
module FsShrink {
  import opened FsModel
  import opened FsSteps

  /** No zone is free. */
  ghost predicate Full(f: Fs) {
    Sizes(f) && forall b | DataZone(f, b) :: f.zmap[BitOf(f, b)]
  }

  /** The places on the way to a place, itself included. */
  function PathTo(p: Place): set<Place> {
    match p
    case Zone(_) => {p}
    case Ind(_) => {Zone(7), p}
    case Dind(_) => {Zone(8), p}
    case Dind2(j, _) => {Zone(8), Dind(j), p}
  }

  /** Blocks were added to inode i, at the given places at most; no number that was there
      changed and no byte of any file did. */
  ghost predicate Grown(f: Fs, owner: seq<Owner>, g: Fs, owner': seq<Owner>, i: int, ps: set<Place>) {
    && Inv(f, owner) && Inv(g, owner') && SameFiles(f, g) && g.first == f.first && g.nzones == f.nzones
    && (forall i', p' {:trigger Ptr(g, i', p')} | Site(f, i', p') ::
          Ptr(g, i', p') == Ptr(f, i', p') || (i' == i && p' in ps && Ptr(f, i', p') == 0))
    && (forall b | DataZone(f, b) && owner[b] != Free :: owner'[b] == owner[b])
    && (forall b | DataZone(f, b) && owner'[b] == Loose :: owner[b] == Loose)
  }

  /** No more than bits behind that of the last zone were set. */
  ghost predicate TailOnly(f: Fs, g: Fs) {
    && Sizes(f) && |g.zmap| == |f.zmap| && g == f.(zmap := g.zmap)
    && (forall j | 0 <= j <= f.nzones - f.first :: g.zmap[j] == f.zmap[j])
    && (forall j | 0 <= j < |f.zmap| && f.zmap[j] :: g.zmap[j])
  }

  /** Such bits are nobody's. */
  lemma TailGrown(f: Fs, owner: seq<Owner>, g: Fs, i: int, ps: set<Place>)
    requires Inv(f, owner) && TailOnly(f, g)
    ensures Inv(g, owner) && Grown(f, owner, g, owner, i, ps) && (Full(f) ==> Full(g))
    ensures forall i', p' | Site(f, i', p') :: Ptr(g, i', p') == Ptr(f, i', p')
  {
    forall i', p' | Site(g, i', p')
      ensures PtrOk(g, owner, i', p')
    {
      assert PtrOk(f, owner, i', p');
    }
    forall b | DataZone(g, b)
      ensures ZoneOk(g, owner, b)
    {
      assert ZoneOk(f, owner, b);
    }
    if Full(f) {
      forall b | DataZone(g, b)
        ensures g.zmap[BitOf(g, b)]
      {
        assert f.zmap[BitOf(f, b)];
      }
    }
  }

  lemma AddedGrown(f: Fs, owner: seq<Owner>, g: Fs, owner': seq<Owner>, i: int, p: Place, b: int)
    requires Added(f, owner, g, owner', i, p, b) && Ptr(f, i, p) == 0
    ensures Grown(f, owner, g, owner', i, {p}) && Ptr(g, i, p) == b
  {
  }

  lemma GrownTransitive(f: Fs, owner: seq<Owner>, f1: Fs, owner1: seq<Owner>, f2: Fs, owner2: seq<Owner>, i: int, ps: set<Place>, qs: set<Place>)
    requires Grown(f, owner, f1, owner1, i, ps) && Grown(f1, owner1, f2, owner2, i, qs)
    ensures Grown(f, owner, f2, owner2, i, ps + qs)
  {
    forall i', p' | Site(f, i', p')
      ensures Ptr(f2, i', p') == Ptr(f, i', p') || (i' == i && p' in ps + qs && Ptr(f, i', p') == 0)
    {
      assert Site(f1, i', p');
      assert Ptr(f1, i', p') == Ptr(f, i', p') || (i' == i && p' in ps && Ptr(f, i', p') == 0);
    }
    forall i', off | TreeInode(f, i') && Offset(off)
      ensures FileByte(f2, i', off) == FileByte(f, i', off)
    {
      assert FileByte(f1, i', off) == FileByte(f, i', off);
    }
  }

  /** Below an index block that is there, numbers can be stored. */
  lemma Reach(f: Fs, owner: seq<Owner>, i: int, p: Place)
    requires Inv(f, owner) && Site(f, i, p) && !p.Zone? && Ptr(f, i, HolderPlace(p)) != 0
    ensures CanSet(f, i, p)
  {
    assert PtrOk(f, owner, i, HolderPlace(p));
  }

  // ---- shrinking ---------------------------------------------------------------------------------

  ghost predicate NeverBusy(busy: (nat, nat) -> bool) { forall t, b :: !busy(t, b) }

  /** Some blocks of inode i were freed, and nothing else happened. */
  ghost predicate Shrunk(f: Fs, owner: seq<Owner>, g: Fs, owner': seq<Owner>, i: int) {
    && Inv(f, owner) && Inv(g, owner') && g.first == f.first && g.nzones == f.nzones && |g.inodes| == |f.inodes|
    && (forall i' | 0 <= i' < |f.inodes| :: g.inodes[i'].tree == f.inodes[i'].tree && g.inodes[i'].size == f.inodes[i'].size
                                         && g.inodes[i'].nlinks == f.inodes[i'].nlinks)
    && (forall i', p' {:trigger Ptr(g, i', p')} | Site(f, i', p') ::
          Ptr(g, i', p') == Ptr(f, i', p') || (i' == i && Ptr(g, i', p') == 0))
    && (forall i' | 0 <= i' < |f.inodes| && i' != i :: g.inodes[i'] == f.inodes[i'])
    && (forall b | DataZone(f, b) :: owner'[b] == owner[b] || (owner[b].Held? && owner[b].ino == i && owner'[b] == Free))
    && (forall b | DataZone(f, b) && f.blocks[b].Data? :: g.blocks[b] == f.blocks[b])
  }

  lemma ShrunkTransitive(f: Fs, owner: seq<Owner>, f1: Fs, owner1: seq<Owner>, f2: Fs, owner2: seq<Owner>, i: int)
    requires Shrunk(f, owner, f1, owner1, i) && Shrunk(f1, owner1, f2, owner2, i)
    ensures Shrunk(f, owner, f2, owner2, i)
  {
    forall i', p' | Site(f, i', p')
      ensures Ptr(f2, i', p') == Ptr(f, i', p') || (i' == i && Ptr(f2, i', p') == 0)
    {
      assert Site(f1, i', p');
      assert Ptr(f1, i', p') == Ptr(f, i', p') || (i' == i && Ptr(f1, i', p') == 0);
    }
  }

  lemma ReleasedShrunk(f: Fs, owner: seq<Owner>, i: int, p: Place)
    requires CanRelease(f, owner, i, p)
    ensures DataZone(f, Ptr(f, i, p)) && owner[Ptr(f, i, p)] == Held(i, p)
    ensures Shrunk(f, owner, Released(f, i, p), owner[Ptr(f, i, p) := Free], i)
  {
    ReleasedOk(f, owner, i, p);
    var g := Released(f, i, p);
    if !p.Zone? { assert PtrOk(f, owner, i, HolderPlace(p)); }
    forall b | DataZone(f, b) && f.blocks[b].Data?
      ensures g.blocks[b] == f.blocks[b]
    {
    }
  }

  /** Entry j of the index block at a place. */
  function Child(p: Place, j: int): Place
    requires p == Zone(7) || p.Dind?
  {
    if p == Zone(7) then Ind(j) else Dind2(p.j, j)
  }

  lemma EmptyIndex(f: Fs, owner: seq<Owner>, i: int, p: Place)
    requires Inv(f, owner) && Site(f, i, p) && (p == Zone(7) || p.Dind?) && Ptr(f, i, p) != 0
    requires forall k | 0 <= k < PER_BLOCK :: Ptr(f, i, Child(p, k)) == 0
    ensures CanRelease(f, owner, i, p)
  {
    forall p' | PlaceOk(p') && Below(p', p)
      ensures Ptr(f, i, p') == 0
    {
      assert p' == Child(p, Slot(p'));
    }
    if p.Dind? {
      assert Ptr(f, i, Zone(8)) != 0;
      Reach(f, owner, i, p);
    }
  }

  lemma EmptyDind(f: Fs, owner: seq<Owner>, i: int)
    requires Inv(f, owner) && TreeInode(f, i) && Ptr(f, i, Zone(8)) != 0
    requires forall k | 0 <= k < PER_BLOCK :: Ptr(f, i, Dind(k)) == 0
    ensures CanRelease(f, owner, i, Zone(8))
  {
    forall p' | PlaceOk(p') && Below(p', Zone(8))
      ensures Ptr(f, i, p') == 0
    {
      assert p'.Dind2? ==> Ptr(f, i, Dind(p'.j)) == 0;
    }
  }

  /** As Shrunk, but the size of inode i may have been cleared too. */
  ghost predicate Cut(f: Fs, owner: seq<Owner>, g: Fs, owner': seq<Owner>, i: int) {
    && Inv(f, owner) && Inv(g, owner') && TreeInode(f, i) && |g.inodes| == |f.inodes| && g.first == f.first && g.nzones == f.nzones
    && (forall i' | 0 <= i' < |f.inodes| && i' != i :: g.inodes[i'] == f.inodes[i'])
    && (forall i', off | TreeInode(f, i') && i' != i && Offset(off) :: FileByte(g, i', off) == FileByte(f, i', off))
    && (forall b | DataZone(f, b) :: owner'[b] == owner[b] || (owner[b].Held? && owner[b].ino == i && owner'[b] == Free))
  }

  /** Exactly the blocks of inode i were freed: no number is left in it, its size is 0, and
      a bit is still set iff it was set and its zone did not belong to i. */
  ghost predicate Emptied(f: Fs, owner: seq<Owner>, g: Fs, owner': seq<Owner>, i: int) {
    && Cut(f, owner, g, owner', i) && TreeInode(g, i) && g.inodes[i].size == 0
    && (forall p | PlaceOk(p) :: Ptr(g, i, p) == 0)
    && (forall b | DataZone(f, b) :: g.zmap[BitOf(f, b)] <==> f.zmap[BitOf(f, b)] && !(owner[b].Held? && owner[b].ino == i))
  }

  lemma ShrunkCut(f: Fs, owner: seq<Owner>, g: Fs, owner': seq<Owner>, i: int)
    requires Shrunk(f, owner, g, owner', i) && TreeInode(f, i)
    ensures Cut(f, owner, g, owner', i)
  {
    forall i', off | TreeInode(f, i') && i' != i && Offset(off)
      ensures FileByte(g, i', off) == FileByte(f, i', off)
    {
      var q := BlockPlace(off / 1024);
      assert Ptr(g, i', q) == Ptr(f, i', q);
      assert PtrOk(f, owner, i', q);
    }
  }

  lemma SizeCleared(f: Fs, owner: seq<Owner>, g: Fs, owner': seq<Owner>, i: int)
    requires Shrunk(f, owner, g, owner', i) && TreeInode(f, i)
    requires forall p | PlaceOk(p) :: Ptr(g, i, p) == 0
    requires forall b | DataZone(f, b) :: g.zmap[BitOf(f, b)] <==> f.zmap[BitOf(f, b)] && !(owner[b].Held? && owner[b].ino == i)
    ensures Emptied(f, owner, g.(inodes := g.inodes[i := g.inodes[i].(size := 0)]), owner', i)
  {
    ShrunkCut(f, owner, g, owner', i);
    var h := g.(inodes := g.inodes[i := g.inodes[i].(size := 0)]);
    forall i', p | Site(h, i', p)
      ensures Ptr(h, i', p) == Ptr(g, i', p) && PtrOk(h, owner', i', p)
    {
      assert PtrOk(g, owner', i', p);
    }
    forall b | DataZone(h, b)
      ensures ZoneOk(h, owner', b)
    {
      assert ZoneOk(g, owner', b);
    }
    forall i', off | TreeInode(f, i') && i' != i && Offset(off)
      ensures FileByte(h, i', off) == FileByte(f, i', off)
    {
      assert FileByte(g, i', off) == FileByte(f, i', off);
    }
  }

  /** With the nine zones gone, nothing of the tree is left. */
  lemma AllGone(f: Fs, owner: seq<Owner>, g: Fs, owner': seq<Owner>, i: int)
    requires Shrunk(f, owner, g, owner', i) && TreeInode(f, i)
    requires forall k | 0 <= k < 9 :: Ptr(g, i, Zone(k)) == 0
    ensures forall p | PlaceOk(p) :: Ptr(g, i, p) == 0
    ensures forall b | DataZone(f, b) :: !(owner'[b].Held? && owner'[b].ino == i)
    ensures forall b | DataZone(f, b) :: g.zmap[BitOf(f, b)] <==> f.zmap[BitOf(f, b)] && !(owner[b].Held? && owner[b].ino == i)
  {
    assert Ptr(g, i, Zone(7)) == 0 && Ptr(g, i, Zone(8)) == 0;
    forall b | DataZone(f, b)
      ensures !(owner'[b].Held? && owner'[b].ino == i)
      ensures g.zmap[BitOf(f, b)] <==> f.zmap[BitOf(f, b)] && !(owner[b].Held? && owner[b].ino == i)
    {
      assert ZoneOk(g, owner', b) && ZoneOk(f, owner, b);
    }
  }

  /** Below p numbers of inode i may have changed, but nowhere else. */
  ghost predicate OnlyBelow(f: Fs, g: Fs, i: int, p: Place) {
    && Sizes(f) && Sizes(g) && TreeInode(f, i) && TreeInode(g, i)
    && (forall p' {:trigger Ptr(g, i, p')} | PlaceOk(p') && !Below(p', p) :: Ptr(g, i, p') == Ptr(f, i, p'))
  }

  ghost predicate OnlyBelowOrAt(f: Fs, g: Fs, i: int, p: Place) {
    && Sizes(f) && Sizes(g) && TreeInode(f, i) && TreeInode(g, i)
    && (forall p' {:trigger Ptr(g, i, p')} | PlaceOk(p') && p' != p && !Below(p', p) :: Ptr(g, i, p') == Ptr(f, i, p'))
  }

  // ---- the end of a file ------------------------------------------------------------------------

  /** An empty inode can be wiped without touching any tree. */
  lemma Wiped(f: Fs, owner: seq<Owner>, g: Fs, owner': seq<Owner>, i: int)
    requires Emptied(f, owner, g, owner', i)
    ensures Inv(g.(inodes := g.inodes[i := Inode(false, seq(9, _ => 0), 0, 0)]), owner')
    ensures forall i', off | TreeInode(f, i') && i' != i && Offset(off) ::
      FileByte(g.(inodes := g.inodes[i := Inode(false, seq(9, _ => 0), 0, 0)]), i', off) == FileByte(f, i', off)
  {
    var h := g.(inodes := g.inodes[i := Inode(false, seq(9, _ => 0), 0, 0)]);
    forall i', p | Site(h, i', p)
      ensures PtrOk(h, owner', i', p)
    {
      assert PtrOk(g, owner', i', p);
    }
    forall b | DataZone(h, b)
      ensures ZoneOk(h, owner', b)
    {
      assert ZoneOk(g, owner', b);
    }
    forall i', off | TreeInode(f, i') && i' != i && Offset(off)
      ensures FileByte(h, i', off) == FileByte(f, i', off)
    {
      assert FileByte(g, i', off) == FileByte(f, i', off);
    }
  }

  // ---- reading and writing byte ranges --------------------------------------------------------------

  function Zeros(n: nat): seq<byte> { seq(n, _ => 0) }

  /** The bytes are those of file i from pos on. */
  ghost predicate Reads(f: Fs, i: int, pos: nat, bytes: seq<byte>) {
    && Sizes(f) && TreeInode(f, i)
    && (forall off {:trigger Offset(off)} | pos <= off < pos + |bytes| :: Offset(off) && bytes[off - pos] == FileByte(f, i, off))
  }

  /** The part of one block that follows what was read: the file's next bytes. */
  lemma ReadOk(f: Fs, owner: seq<Owner>, i: int, pos: nat, bytes: seq<byte>, chars: nat)
    requires Inv(f, owner) && Reads(f, i, pos, bytes)
    requires 0 < chars <= BLOCK_SIZE - (pos + |bytes|) % BLOCK_SIZE && (pos + |bytes|) / BLOCK_SIZE < MAX_BLOCKS
    ensures Site(f, i, BlockPlace((pos + |bytes|) / BLOCK_SIZE))
    ensures var b := Ptr(f, i, BlockPlace((pos + |bytes|) / BLOCK_SIZE));
      var from := (pos + |bytes|) % BLOCK_SIZE;
      && (b != 0 ==> b < |f.blocks| && f.blocks[b].Data?)
      && Reads(f, i, pos, bytes + if b != 0 then f.blocks[b].bytes[from..from + chars] else Zeros(chars))
  {
    var p := pos + |bytes|;
    assert PtrOk(f, owner, i, BlockPlace(p / BLOCK_SIZE));
    var b, from := Ptr(f, i, BlockPlace(p / BLOCK_SIZE)), p % BLOCK_SIZE;
    var chunk := if b != 0 then f.blocks[b].bytes[from..from + chars] else Zeros(chars);
    forall off {:trigger Offset(off)} | pos <= off < pos + |bytes + chunk|
      ensures Offset(off) && (bytes + chunk)[off - pos] == FileByte(f, i, off)
    {
      if off < p {
        assert Offset(off);
      } else {
        assert off / 1024 == p / 1024 && off % 1024 == from + (off - p);
      }
    }
  }

  /** Zones in use stay with their owners. */
  ghost predicate KeepsOwners(f: Fs, before: seq<Owner>, after: seq<Owner>) {
    |before| == |after| == f.nzones && forall b | DataZone(f, b) && before[b] != Free :: after[b] == before[b]
  }

  /** The bytes were written at pos into file i, whose size grew if need be; no other byte
      of any file changed. */
  ghost predicate Written(f: Fs, g: Fs, i: int, pos: nat, bytes: seq<byte>) {
    && Sizes(f) && Sizes(g) && TreeInode(f, i) && |g.inodes| == |f.inodes| && g.first == f.first && g.nzones == f.nzones
    && (forall i' | 0 <= i' < |f.inodes| :: g.inodes[i'].tree == f.inodes[i'].tree && g.inodes[i'].nlinks == f.inodes[i'].nlinks
          && g.inodes[i'].size == if i' == i && |bytes| > 0 && pos + |bytes| > f.inodes[i].size then pos + |bytes| else f.inodes[i'].size)
    && (forall i', off | TreeInode(f, i') && Offset(off) ::
          FileByte(g, i', off) == if i' == i && pos <= off < pos + |bytes| then bytes[off - pos] else FileByte(f, i', off))
  }

  lemma WrittenNothing(f: Fs, owner: seq<Owner>, i: int, pos: nat)
    requires Inv(f, owner) && TreeInode(f, i)
    ensures Written(f, f, i, pos, [])
  {
  }

  lemma GrownWritten(f: Fs, f1: Fs, owner1: seq<Owner>, f2: Fs, owner2: seq<Owner>, i: int, pos: nat, bytes: seq<byte>, n: int)
    requires Written(f, f1, i, pos, bytes) && 0 <= n < MAX_BLOCKS && Grown(f1, owner1, f2, owner2, i, PathTo(BlockPlace(n)))
    ensures Written(f, f2, i, pos, bytes)
    ensures KeepsOwners(f1, owner1, owner2)
  {
    forall i', off | TreeInode(f, i') && Offset(off)
      ensures FileByte(f2, i', off) == if i' == i && pos <= off < pos + |bytes| then bytes[off - pos] else FileByte(f, i', off)
    {
      assert FileByte(f2, i', off) == FileByte(f1, i', off);
    }
  }

  lemma ChunkWritten(f: Fs, f1: Fs, f2: Fs, f3: Fs, owner: seq<Owner>, i: int, p: nat, done: seq<byte>, chunk: seq<byte>)
    requires TreeInode(f, i) && Offset(p) && |done| <= p && Written(f, f1, i, p - |done|, done) && 0 < |chunk| <= BLOCK_SIZE - p % BLOCK_SIZE
    requires Inv(f2, owner) && SamePtrs(f1, f2)
    requires forall i', off | TreeInode(f1, i') && Offset(off) ::
      FileByte(f2, i', off) ==
      if i' == i && p / 1024 * 1024 + p % 1024 <= off < p / 1024 * 1024 + p % 1024 + |chunk|
      then chunk[off - (p / 1024 * 1024 + p % 1024)] else FileByte(f1, i', off)
    requires f3 == if p + |chunk| > f2.inodes[i].size then f2.(inodes := f2.inodes[i := f2.inodes[i].(size := p + |chunk|)]) else f2
    ensures Inv(f3, owner) && Written(f, f3, i, p - |done|, done + chunk)
  {
    assert p / 1024 * 1024 + p % 1024 == p;
    forall i', q | Site(f3, i', q)
      ensures Ptr(f3, i', q) == Ptr(f2, i', q) && PtrOk(f3, owner, i', q)
    {
      assert PtrOk(f2, owner, i', q);
    }
    forall b | DataZone(f3, b)
      ensures ZoneOk(f3, owner, b)
    {
      assert ZoneOk(f2, owner, b);
    }
    assert Inv(f3, owner);
    forall i', off | TreeInode(f, i') && Offset(off)
      ensures FileByte(f3, i', off) ==
        if i' == i && p - |done| <= off < p + |chunk| then (done + chunk)[off - (p - |done|)] else FileByte(f, i', off)
    {
      assert FileByte(f3, i', off) == FileByte(f2, i', off);
    }
  }

  // ---- whole histories of writes -----------------------------------------------------------------

  /** One completed write: which file, where, what. */
  datatype Write = Write(ino: int, pos: nat, bytes: seq<byte>)

  /** The states of a file system between the writes of a history. */
  ghost predicate History(states: seq<Fs>, writes: seq<Write>) {
    && |states| == |writes| + 1 && Sizes(states[0])
    && (forall k | 0 <= k < |writes| :: Written(states[k], states[k + 1], writes[k].ino, writes[k].pos, writes[k].bytes))
  }

  predicate Covers(w: Write, i: int, off: int) { w.ino == i && w.pos <= off < w.pos + |w.bytes| }

  /** A file as a flat array: the last byte written at an offset, or the one from before. */
  function LastWritten(writes: seq<Write>, i: int, off: int, before: byte): byte {
    if writes == [] then before
    else
      var w := writes[|writes| - 1];
      if Covers(w, i, off) then w.bytes[off - w.pos] else LastWritten(writes[..|writes| - 1], i, off, before)
  }

  /** Files are flat byte arrays: after any history of writes to any files, each byte of
      each file is the last one written there. */
  lemma {:induction false} FilesAreByteArrays(states: seq<Fs>, writes: seq<Write>, i: int, off: int)
    requires History(states, writes) && TreeInode(states[0], i) && Offset(off)
    ensures var last := states[|writes|];
      Sizes(last) && TreeInode(last, i) && FileByte(last, i, off) == LastWritten(writes, i, off, FileByte(states[0], i, off))
    decreases |writes|
  {
    if writes != [] {
      var k := |writes| - 1;
      FilesAreByteArrays(states[..k + 1], writes[..k], i, off);
      assert Written(states[k], states[k + 1], writes[k].ino, writes[k].pos, writes[k].bytes);
    }
  }

  /** What a read returns after a history that began with an empty file. */
  lemma ReadsLastWritten(states: seq<Fs>, writes: seq<Write>, i: int, pos: nat, bytes: seq<byte>, off: int)
    requires History(states, writes) && TreeInode(states[0], i) && Reads(states[|writes|], i, pos, bytes)
    requires forall p | PlaceOk(p) :: Ptr(states[0], i, p) == 0
    requires pos <= off < pos + |bytes|
    ensures bytes[off - pos] == LastWritten(writes, i, off, 0)
  {
    assert Offset(off);
    FilesAreByteArrays(states, writes, i, off);
  }
}
