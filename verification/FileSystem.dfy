/** fs/bitmap.c, the block half of fs/inode.c, fs/truncate.c and fs/file_dev.c over real
    arrays.  Whether another task is using a block at some moment is the function `busy`. */
module FileSystem {
  import opened FsModel
  import opened FsSteps
  import opened FsShrink

  /** Some block that was to be freed at a moment between the two was busy. */
  ghost predicate MetBusy(busy: (nat, nat) -> bool, from: nat, to: nat) { exists t :: from <= t < to && BusyAt(busy, t) }

  ghost predicate BusyAt(busy: (nat, nat) -> bool, t: nat) { exists b :: busy(t, b) }

  /** The moments, one after the other, each had a busy block. */
  ghost predicate AllBusy(busy: (nat, nat) -> bool, met: seq<nat>, from: nat, to: nat) {
    && (forall k | 0 <= k < |met| :: from <= met[k] < to && BusyAt(busy, met[k]))
    && (forall j, k | 0 <= j < k < |met| :: met[j] < met[k])
  }

  class Volume {
    const zmap: array<bool>
    const blocks: array<Blk>
    const inodes: array<Inode>
    const first: nat
    const nzones: nat
    const busy: (nat, nat) -> bool
    var clock: nat
    ghost var owner: seq<Owner>

    function Snap(): Fs
      reads this, zmap, blocks, inodes
    {
      Fs(zmap[..], blocks[..], inodes[..], first, nzones)
    }

    ghost predicate Valid()
      reads this, zmap, blocks, inodes
    {
      Inv(Snap(), owner)
    }

    // ---- bitmap.c ---------------------------------------------------------------------------------

    /** The first clear bit of bitmap block i, MAP_BITS if there is none. */
    method FindFirstZero(i: nat) returns (j: nat)
      requires (i + 1) * MAP_BITS <= zmap.Length
      ensures j <= MAP_BITS && (j < MAP_BITS ==> !zmap[i * MAP_BITS + j])
      ensures forall k | i * MAP_BITS <= k < i * MAP_BITS + j :: zmap[k]
    {
      j := 0;
      while j < MAP_BITS && zmap[i * MAP_BITS + j]
        invariant j <= MAP_BITS
        invariant forall k | i * MAP_BITS <= k < i * MAP_BITS + j :: zmap[k]
      {
        j := j + 1;
      }
    }

    /** Scan up to eight bitmap blocks for a clear bit. */
    method FindBit() returns (bit: int)
      requires zmap.Length % MAP_BITS == 0 && zmap.Length <= 8 * MAP_BITS
      ensures -1 <= bit < zmap.Length
      ensures bit >= 0 ==> !zmap[bit] && forall k | 0 <= k < bit :: zmap[k]
      ensures bit == -1 ==> forall k | 0 <= k < zmap.Length :: zmap[k]
    {
      var i := 0;
      while i < 8
        invariant 0 <= i <= 8
        invariant forall k | 0 <= k < i * MAP_BITS && k < zmap.Length :: zmap[k]
      {
        if i * MAP_BITS < zmap.Length {
          var j := FindFirstZero(i);
          if j < MAP_BITS {
            return i * MAP_BITS + j;
          }
        }
        i := i + 1;
      }
      return -1;
    }

    /** Take the first free zone and zero it; 0 if the disk is full.  A clear bit behind that
        of the last zone is then set all the same. */
    method NewBlock() returns (b: nat)
      requires Valid()
      modifies this`owner, zmap, blocks
      ensures Valid()
      ensures b == 0 ==> TailOnly(old(Snap()), Snap()) && owner == old(owner) && Full(Snap())
      ensures b != 0 ==> DataZone(Snap(), b) && old(owner)[b] == Free && owner == old(owner)[b := Loose]
      ensures b != 0 ==> Snap() == Allocated(old(Snap()), b)
      ensures b != 0 ==> zmap[..] == old(zmap[..])[b - first + 1 := true] && !old(zmap[b - first + 1])
      ensures b != 0 ==> blocks[..] == old(blocks[..])[b := Data(seq(1024, _ => 0))]
      ensures b != 0 ==> forall k | 1 <= k < b - first + 1 :: old(zmap[k])
    {
      ghost var f := Snap();
      var bit := FindBit();
      if bit < 0 {
        return 0;
      }
      zmap[bit] := true;
      b := bit + first - 1;
      assert bit != 0;
      if b >= nzones {
        TailGrown(f, owner, Snap(), 0, {});
        return 0;
      }
      assert ZoneOk(f, owner, b);
      AllocatedOk(f, owner, b);
      blocks[b] := Data(ZeroBytes());
      owner := owner[b := Loose];
      assert Snap() == Allocated(f, b);
    }

    // ---- inode.c: the block tree -------------------------------------------------------------------------

    function PtrAt(i: int, p: Place): (b: nat)
      requires Valid() && Site(Snap(), i, p)
      reads this, zmap, blocks, inodes
      ensures b == Ptr(Snap(), i, p)
    {
      Ptr(Snap(), i, p)
    }

    /** `new_block` and, if it worked, the store of its number at the place. */
    method AddAt(i: int, p: Place) returns (b: nat)
      requires Valid() && CanSet(Snap(), i, p) && Ptr(Snap(), i, p) == 0
      modifies this`owner, zmap, blocks, inodes
      ensures Valid()
      ensures b == 0 ==> TailOnly(old(Snap()), Snap()) && owner == old(owner) && Full(Snap())
      ensures b != 0 ==> Added(old(Snap()), old(owner), Snap(), owner, i, p, b)
    {
      ghost var f, own := Snap(), owner;
      b := NewBlock();
      if b == 0 {
        return;
      }
      AddedOk(f, own, i, p, b);
      StoreNumber(i, p, b);
      owner := owner[b := Held(i, p)];
      assert own[b := Loose][b := Held(i, p)] == own[b := Held(i, p)];
    }

    method StoreNumber(i: int, p: Place, b: nat)
      requires 0 <= b < blocks.Length && CanSet(Prepared(Snap(), p, b), i, p)
      modifies blocks, inodes
      ensures Snap() == Attached(old(Snap()), i, p, b)
    {
      ghost var f := Snap();
      if IndexPlace(p) {
        blocks[b] := Index(ZeroZones());    // the zeroed block, read as block numbers
      }
      assert Snap() == Prepared(f, p, b);
      PutNumber(i, p, b);
    }

    method PutNumber(i: int, p: Place, v: nat)
      requires CanSet(Snap(), i, p)
      modifies blocks, inodes
      ensures Snap() == SetPtr(old(Snap()), i, p, v)
    {
      ghost var f := Snap();
      match p {
        case Zone(k) =>
          inodes[i] := inodes[i].(zones := inodes[i].zones[k := v]);
          assert inodes[..] == f.inodes[i := f.inodes[i].(zones := f.inodes[i].zones[k := v])];
        case _ =>
          var h := Holder(Snap(), i, p);
          var z: Zones512 := blocks[h].zones[Slot(p) := v];
          blocks[h] := Index(z);
          assert blocks[..] == f.blocks[h := Index(f.blocks[h].zones[Slot(p) := v])];
      }
    }

    /** One step down the tree: the number at a place, allocating it if asked to. */
    method NumberAt(i: int, p: Place, create: bool) returns (b: nat)
      requires Valid() && CanSet(Snap(), i, p)
      modifies this`owner, zmap, blocks, inodes
      ensures Valid() && Grown(old(Snap()), old(owner), Snap(), owner, i, {p})
      ensures b == Ptr(Snap(), i, p)
      ensures !create ==> Snap() == old(Snap()) && owner == old(owner)
      ensures create && b == 0 ==> Full(Snap())
    {
      b := PtrAt(i, p);
      if create && b == 0 {
        b := AddAt(i, p);
        if b != 0 {
          AddedGrown(old(Snap()), old(owner), Snap(), owner, i, p, b);
        } else {
          TailGrown(old(Snap()), old(owner), Snap(), i, {p});
        }
      }
    }

    /** _bmap: the zone of file block n; panic for a block that no file can have. */
    method BMap(i: int, n: int, create: bool) returns (b: nat, panic: bool)
      requires Valid() && TreeInode(Snap(), i)
      modifies this`owner, zmap, blocks, inodes
      ensures Valid() && (panic <==> n < 0 || n >= MAX_BLOCKS)
      ensures panic ==> Snap() == old(Snap()) && owner == old(owner)
      ensures !panic ==> Grown(old(Snap()), old(owner), Snap(), owner, i, PathTo(BlockPlace(n)))
      ensures !panic ==> b == Ptr(Snap(), i, BlockPlace(n))
      ensures !panic && n < 7 ==> b == inodes[i].zones[n]
      ensures !panic && 7 <= n < 519 ==> b == Entry(Snap(), inodes[i].zones[7], n - 7)
      ensures !panic && n >= 519 ==> b == Entry(Snap(), Entry(Snap(), inodes[i].zones[8], (n - 519) / 512), (n - 519) % 512)
      ensures !create ==> Snap() == old(Snap()) && owner == old(owner)
      ensures !panic && create && b == 0 ==> Full(Snap())
    {
      panic := n < 0 || n >= MAX_BLOCKS;
      if panic {
        return 0, panic;
      }
      if n < 7 {
        b := NumberAt(i, Zone(n), create);
      } else if n - 7 < 512 {
        b := SingleIndirect(i, n - 7, create);
      } else {
        b := DoubleIndirect(i, n - 519, create);
      }
    }

    // inode.c:150-184
    method SingleIndirect(i: int, j: int, create: bool) returns (b: nat)
      requires Valid() && TreeInode(Snap(), i) && 0 <= j < 512
      modifies this`owner, zmap, blocks, inodes
      ensures Valid() && Grown(old(Snap()), old(owner), Snap(), owner, i, {Zone(7), Ind(j)})
      ensures b == Ptr(Snap(), i, Ind(j))
      ensures !create ==> Snap() == old(Snap()) && owner == old(owner)
      ensures create && b == 0 ==> Full(Snap())
    {
      ghost var f, own := Snap(), owner;
      b := NumberAt(i, Zone(7), create);
      if b == 0 {
        return;
      }
      Reach(Snap(), owner, i, Ind(j));
      ghost var f1, own1 := Snap(), owner;
      b := NumberAt(i, Ind(j), create);
      GrownTransitive(f, own, f1, own1, Snap(), owner, i, {Zone(7)}, {Ind(j)});
    }

    // inode.c:187-226
    method DoubleIndirect(i: int, n: int, create: bool) returns (b: nat)
      requires Valid() && TreeInode(Snap(), i) && 0 <= n < 512 * 512
      modifies this`owner, zmap, blocks, inodes
      ensures Valid() && Grown(old(Snap()), old(owner), Snap(), owner, i, {Zone(8), Dind(n / 512), Dind2(n / 512, n % 512)})
      ensures b == Ptr(Snap(), i, Dind2(n / 512, n % 512))
      ensures !create ==> Snap() == old(Snap()) && owner == old(owner)
      ensures create && b == 0 ==> Full(Snap())
    {
      ghost var f, own := Snap(), owner;
      b := NumberAt(i, Zone(8), create);
      if b == 0 {
        return;
      }
      var j := n / 512;
      Reach(Snap(), owner, i, Dind(j));
      ghost var f1, own1 := Snap(), owner;
      b := NumberAt(i, Dind(j), create);
      GrownTransitive(f, own, f1, own1, Snap(), owner, i, {Zone(8)}, {Dind(j)});
      if b == 0 {
        return;
      }
      Reach(Snap(), owner, i, Dind2(j, n % 512));
      ghost var f2, own2 := Snap(), owner;
      b := NumberAt(i, Dind2(j, n % 512), create);
      GrownTransitive(f, own, f2, own2, Snap(), owner, i, {Zone(8), Dind(j)}, {Dind2(j, n % 512)});
    }

    // ---- truncate.c ---------------------------------------------------------------------------------------

    /** free_block: give a zone back unless a task uses it right now.  wasClear is the
        "bit already cleared" message, panic the one about a block outside the data zone. */
    method FreeBlock(b: nat) returns (freed: bool, wasClear: bool, panic: bool)
      requires Sizes(Snap())
      modifies this`clock, zmap
      ensures panic <==> !DataZone(Snap(), b)
      ensures clock == old(clock) + 1
      ensures !panic ==> (freed <==> !busy(old(clock), b))
      ensures !freed ==> Snap() == old(Snap()) && !wasClear
      ensures freed ==> !panic && (wasClear <==> !old(zmap[b - first + 1]))
      ensures freed ==> Snap() == old(Snap()).(zmap := old(Snap()).zmap[b - first + 1 := false])
    {
      freed, wasClear := false, false;
      clock := clock + 1;
      panic := b < first || b >= nzones;
      if panic || busy(clock - 1, b) {
        return;
      }
      var bit := BitOf(Snap(), b);
      wasClear := !zmap[bit];
      zmap[bit] := false;
      assert zmap[..] == old(zmap[..])[bit := false];
      freed := true;
    }

    /** Free the block at a place and, if that worked, clear the number. */
    method ReleaseAt(i: int, p: Place) returns (freed: bool)
      requires Valid() && CanRelease(Snap(), owner, i, p)
      modifies this`clock, this`owner, zmap, blocks, inodes
      ensures Valid() && Shrunk(old(Snap()), old(owner), Snap(), owner, i)
      ensures freed ==> OnlyAt(old(Snap()), Snap(), i, p, 0)
      ensures !freed ==> Snap() == old(Snap()) && owner == old(owner)
      ensures clock >= old(clock) && (!freed ==> MetBusy(busy, old(clock), clock))
    {
      ghost var f, own := Snap(), owner;
      var b := PtrAt(i, p);
      ReleasedOk(f, own, i, p);
      ReleasedShrunk(f, own, i, p);
      var wasClear, panic;
      freed, wasClear, panic := FreeBlock(b);
      assert !freed ==> BusyAt(busy, old(clock));
      if freed {
        assert !wasClear;
        PutNumber(i, p, 0);
        owner := owner[b := Free];
        assert Snap() == Released(f, i, p);
      }
    }

    /** free_ind, with the clearing of its number by the caller: free what an index block
        names, then the block. */
    method FreeIndAt(i: int, p: Place) returns (freed: bool)
      requires Valid() && Site(Snap(), i, p) && (p == Zone(7) || p.Dind?)
      modifies this`clock, this`owner, zmap, blocks, inodes
      ensures Valid() && Shrunk(old(Snap()), old(owner), Snap(), owner, i)
      ensures freed ==> Ptr(Snap(), i, p) == 0
      ensures OnlyBelowOrAt(old(Snap()), Snap(), i, p)
      ensures clock >= old(clock) && (!freed ==> MetBusy(busy, old(clock), clock))
    {
      ghost var f, own := Snap(), owner;
      if PtrAt(i, p) == 0 {
        return true;
      }
      var blockBusy := FreeEntries(i, p);
      if blockBusy {
        return false;
      }
      ghost var f1, own1 := Snap(), owner;
      EmptyIndex(f1, own1, i, p);
      freed := ReleaseAt(i, p);
      ShrunkTransitive(f, own, f1, own1, Snap(), owner, i);
    }

    // truncate.c:30-39
    method FreeEntries(i: int, p: Place) returns (blockBusy: bool)
      requires Valid() && Site(Snap(), i, p) && (p == Zone(7) || p.Dind?) && Ptr(Snap(), i, p) != 0
      modifies this`clock, this`owner, zmap, blocks, inodes
      ensures Valid() && Shrunk(old(Snap()), old(owner), Snap(), owner, i)
      ensures !blockBusy ==> forall k | 0 <= k < PER_BLOCK :: Ptr(Snap(), i, Child(p, k)) == 0
      ensures OnlyBelow(old(Snap()), Snap(), i, p)
      ensures clock >= old(clock) && (blockBusy ==> MetBusy(busy, old(clock), clock))
    {
      ghost var f, own := Snap(), owner;
      blockBusy := false;
      var j := 0;
      while j < PER_BLOCK
        invariant 0 <= j <= PER_BLOCK && Valid() && Shrunk(f, own, Snap(), owner, i) && OnlyBelow(f, Snap(), i, p)
        invariant !blockBusy ==> forall k | 0 <= k < j :: Ptr(Snap(), i, Child(p, k)) == 0
        invariant clock >= old(clock) && (blockBusy ==> MetBusy(busy, old(clock), clock))
      {
        ghost var f1, own1 := Snap(), owner;
        if PtrAt(i, Child(p, j)) != 0 {
          assert Ptr(f1, i, p) == Ptr(f, i, p);
          Reach(Snap(), owner, i, Child(p, j));
          var ok := ReleaseAt(i, Child(p, j));
          ShrunkTransitive(f, own, f1, own1, Snap(), owner, i);
          if !ok {
            blockBusy := true;
          }
        }
        j := j + 1;
      }
    }

    /** free_dind, likewise. */
    method FreeDindAt(i: int) returns (freed: bool)
      requires Valid() && TreeInode(Snap(), i)
      modifies this`clock, this`owner, zmap, blocks, inodes
      ensures Valid() && Shrunk(old(Snap()), old(owner), Snap(), owner, i)
      ensures freed ==> Ptr(Snap(), i, Zone(8)) == 0
      ensures clock >= old(clock) && (!freed ==> MetBusy(busy, old(clock), clock))
    {
      ghost var f, own := Snap(), owner;
      if PtrAt(i, Zone(8)) == 0 {
        return true;
      }
      var blockBusy := false;
      var j := 0;
      while j < PER_BLOCK
        invariant 0 <= j <= PER_BLOCK && Valid() && Shrunk(f, own, Snap(), owner, i)
        invariant Ptr(Snap(), i, Zone(8)) == Ptr(f, i, Zone(8))
        invariant !blockBusy ==> forall k | 0 <= k < j :: Ptr(Snap(), i, Dind(k)) == 0
        invariant clock >= old(clock) && (blockBusy ==> MetBusy(busy, old(clock), clock))
      {
        ghost var f1, own1 := Snap(), owner;
        if PtrAt(i, Dind(j)) != 0 {
          var ok := FreeIndAt(i, Dind(j));
          ShrunkTransitive(f, own, f1, own1, Snap(), owner, i);
          if !ok {
            blockBusy := true;
          }
        }
        j := j + 1;
      }
      if blockBusy {
        return false;
      }
      ghost var f1, own1 := Snap(), owner;
      EmptyDind(f1, own1, i);
      freed := ReleaseAt(i, Zone(8));
      ShrunkTransitive(f, own, f1, own1, Snap(), owner, i);
    }

    /** One pass of truncate over the direct zones. */
    method FreeDirect(i: int) returns (blockBusy: bool)
      requires Valid() && TreeInode(Snap(), i)
      modifies this`clock, this`owner, zmap, blocks, inodes
      ensures Valid() && Shrunk(old(Snap()), old(owner), Snap(), owner, i)
      ensures !blockBusy ==> forall k | 0 <= k < 7 :: Ptr(Snap(), i, Zone(k)) == 0
      ensures clock >= old(clock) && (blockBusy ==> MetBusy(busy, old(clock), clock))
    {
      ghost var f, own := Snap(), owner;
      blockBusy := false;
      var k := 0;
      while k < 7
        invariant 0 <= k <= 7 && Valid() && Shrunk(f, own, Snap(), owner, i)
        invariant !blockBusy ==> forall z | 0 <= z < k :: Ptr(Snap(), i, Zone(z)) == 0
        invariant clock >= old(clock) && (blockBusy ==> MetBusy(busy, old(clock), clock))
      {
        ghost var f1, own1 := Snap(), owner;
        if PtrAt(i, Zone(k)) != 0 {
          var ok := ReleaseAt(i, Zone(k));
          ShrunkTransitive(f, own, f1, own1, Snap(), owner, i);
          if !ok {
            blockBusy := true;
          }
        }
        k := k + 1;
      }
    }

    /** truncate: free everything a file has, again and again while blocks are busy. */
    method Truncate(i: int, fuel: nat) returns (done: bool, ghost met: seq<nat>)
      requires Valid() && 0 <= i < inodes.Length
      modifies this`clock, this`owner, zmap, blocks, inodes
      ensures Valid() && (TreeInode(old(Snap()), i) ==> Cut(old(Snap()), old(owner), Snap(), owner, i))
      ensures !TreeInode(old(Snap()), i) ==> done && Snap() == old(Snap()) && owner == old(owner)
      ensures done && TreeInode(old(Snap()), i) ==> Emptied(old(Snap()), old(owner), Snap(), owner, i)
      ensures NeverBusy(busy) && fuel > 0 ==> done
      ensures !done ==> |met| == fuel && AllBusy(busy, met, old(clock), clock)
    {
      ghost var f, own := Snap(), owner;
      met := [];
      if !inodes[i].tree {
        return true, met;
      }
      var passes := fuel;
      while passes > 0
        invariant Valid() && Shrunk(f, own, Snap(), owner, i)
        invariant |met| == fuel - passes && AllBusy(busy, met, old(clock), clock) && clock >= old(clock)
        decreases passes
      {
        ghost var from := clock;
        var blockBusy := OnePass(i, f, own);
        passes := passes - 1;
        if !blockBusy {
          AllGone(f, own, Snap(), owner, i);
          ghost var f1 := Snap();
          inodes[i] := inodes[i].(size := 0);
          assert inodes[..] == f1.inodes[i := f1.inodes[i].(size := 0)];
          SizeCleared(f, own, f1, owner, i);
          return true, met;
        }
        ghost var t :| from <= t < clock && BusyAt(busy, t);
        met := met + [t];
      }
      ShrunkCut(f, own, Snap(), owner, i);
      assert fuel > 0 ==> BusyAt(busy, met[0]);
      return false, met;
    }

    // truncate.c:107-130
    method OnePass(i: int, ghost f: Fs, ghost own: seq<Owner>) returns (blockBusy: bool)
      requires Valid() && TreeInode(f, i) && Shrunk(f, own, Snap(), owner, i)
      modifies this`clock, this`owner, zmap, blocks, inodes
      ensures Valid() && Shrunk(f, own, Snap(), owner, i)
      ensures !blockBusy ==> forall k | 0 <= k < 9 :: Ptr(Snap(), i, Zone(k)) == 0
      ensures clock >= old(clock) && (blockBusy ==> MetBusy(busy, old(clock), clock))
    {
      ghost var f1, own1 := Snap(), owner;
      blockBusy := FreeDirect(i);
      ShrunkTransitive(f, own, f1, own1, Snap(), owner, i);
      ghost var f2, own2 := Snap(), owner;
      var ok := FreeIndAt(i, Zone(7));
      ShrunkTransitive(f, own, f2, own2, Snap(), owner, i);
      if !ok {
        blockBusy := true;
      }
      ghost var f3, own3 := Snap(), owner;
      ok := FreeDindAt(i);
      ShrunkTransitive(f, own, f3, own3, Snap(), owner, i);
      if !ok {
        blockBusy := true;
      }
    }
  
    // ---- the end of a file ----------------------------------------------------------------------------------

    /** What iput does with the last use of an unlinked inode: truncate it and, once that is
        done, wipe it. */
    method Delete(i: int, fuel: nat) returns (done: bool, ghost met: seq<nat>)
      requires Valid() && TreeInode(Snap(), i) && inodes[i].nlinks == 0
      modifies this`clock, this`owner, zmap, blocks, inodes
      ensures Valid() && (NeverBusy(busy) && fuel > 0 ==> done)
      ensures !done ==> |met| == fuel && AllBusy(busy, met, old(clock), clock)
      ensures done ==> !inodes[i].tree && (forall b | DataZone(Snap(), b) :: zmap[BitOf(Snap(), b)] <==>
        old(zmap[BitOf(Snap(), b)]) && !(old(owner)[b].Held? && old(owner)[b].ino == i))
      ensures forall i', off | TreeInode(old(Snap()), i') && i' != i && Offset(off) ::
        TreeInode(Snap(), i') && FileByte(Snap(), i', off) == FileByte(old(Snap()), i', off)
    {
      ghost var f, own := Snap(), owner;
      done, met := Truncate(i, fuel);
      if !done {
        return;
      }
      ghost var g := Snap();
      Wiped(f, own, g, owner, i);
      inodes[i] := Inode(false, seq(9, _ => 0), 0, 0);
      assert inodes[..] == g.inodes[i := Inode(false, seq(9, _ => 0), 0, 0)];
    }

    // ---- file_dev.c -----------------------------------------------------------------------------------------

    /** Read count bytes from pos: what each block holds there, zeros in holes.  panic is
        the one of _bmap about a block that is too big. */
    method FileRead(i: int, pos: nat, count: nat) returns (buf: seq<byte>, r: int, newPos: nat, panic: bool)
      requires Valid() && TreeInode(Snap(), i)
      modifies this`owner, zmap, blocks, inodes
      ensures Valid() && Snap() == old(Snap()) && owner == old(owner)
      ensures Reads(Snap(), i, pos, buf)
      ensures !panic ==> |buf| == r == count && newPos == pos + count
      ensures panic ==> |buf| < count && !Offset(pos + |buf|)
    {
      buf, r, newPos := [], 0, pos;
      panic := false;
      var left := count;
      while left > 0
        invariant Valid() && Snap() == old(Snap()) && owner == old(owner) && |buf| + left == count && left >= 0 && !panic
        invariant Reads(Snap(), i, pos, buf) && newPos == pos + |buf|
        decreases left
      {
        var p := newPos;
        var nr;
        nr, panic := BMap(i, p / BLOCK_SIZE, false);
        if panic {
          return;
        }
        var from := p % BLOCK_SIZE;
        var chars := if BLOCK_SIZE - from < left then BLOCK_SIZE - from else left;
        ReadOk(Snap(), owner, i, pos, buf, chars);
        var chunk := if nr != 0 then blocks[nr].bytes[from..from + chars] else Zeros(chars);
        newPos := newPos + chars;
        left := left - chars;
        buf := buf + chunk;
      }
      r := if count - left > 0 || count == 0 then count - left else -ERROR;
    }

    /** Write the bytes at the file's position, or at its end, as far as there is room.
        written is what the call returns, -1 for nothing; n of the bytes went out. */
    method FileWrite(i: int, fpos: nat, append: bool, buf: seq<byte>) returns (written: int, newPos: nat, ghost n: nat, panic: bool)
      requires Valid() && TreeInode(Snap(), i)
      modifies this`owner, zmap, blocks, inodes
      ensures Valid() && n <= |buf|
      ensures Written(old(Snap()), Snap(), i, if append then old(Snap()).inodes[i].size else fpos, buf[..n])
      ensures !panic ==> written == (if n > 0 then n else -1) && newPos == (if append then fpos else fpos + n)
      ensures n < |buf| && !panic ==> Full(Snap())
      ensures panic ==> n < |buf| && !Offset((if append then old(Snap()).inodes[i].size else fpos) + n)
      ensures KeepsOwners(Snap(), old(owner), owner)
    {
      var pos := if append then inodes[i].size else fpos;
      var k;
      k, panic := WriteFrom(i, pos, buf);
      n := k;
      written := if k > 0 then k else -1;
      newPos := if append then fpos else pos + k;
    }

    // file_dev.c:84-114
    method WriteFrom(i: int, pos: nat, buf: seq<byte>) returns (n: nat, panic: bool)
      requires Valid() && TreeInode(Snap(), i)
      modifies this`owner, zmap, blocks, inodes
      ensures Valid() && n <= |buf|
      ensures Written(old(Snap()), Snap(), i, pos, buf[..n])
      ensures n < |buf| && !panic ==> Full(Snap())
      ensures panic ==> n < |buf| && !Offset(pos + n)
      ensures KeepsOwners(Snap(), old(owner), owner)
    {
      ghost var f, own := Snap(), owner;
      n := 0;
      panic := false;
      WrittenNothing(f, own, i, pos);
      while n < |buf|
        invariant Valid() && 0 <= n <= |buf| && !panic
        invariant Written(f, Snap(), i, pos, buf[..n])
        invariant KeepsOwners(Snap(), own, owner)
      {
        var c := BLOCK_SIZE - (pos + n) % BLOCK_SIZE;
        if c > |buf| - n {
          c := |buf| - n;
        }
        var ok;
        ok, panic := WriteChunk(i, pos, buf, n, c, f);
        if !ok {
          return;
        }
        n := n + c;
      }
    }

    /** The part of a write that falls into one block: c bytes after the first n. */
    method WriteChunk(i: int, pos: nat, buf: seq<byte>, n: nat, c: nat, ghost f: Fs) returns (ok: bool, panic: bool)
      requires Valid() && TreeInode(f, i) && 0 < c <= BLOCK_SIZE - (pos + n) % BLOCK_SIZE && n + c <= |buf|
      requires Written(f, Snap(), i, pos, buf[..n])
      modifies this`owner, zmap, blocks, inodes
      ensures Valid() && (panic ==> !ok && !Offset(pos + n))
      ensures Written(f, Snap(), i, pos, buf[..if ok then n + c else n])
      ensures !ok && !panic ==> Full(Snap())
      ensures KeepsOwners(Snap(), old(owner), owner)
    {
      ghost var f1, own1 := Snap(), owner;
      var p := pos + n;
      var nr;
      ok := false;
      nr, panic := BMap(i, p / BLOCK_SIZE, true);
      if panic {
        return;
      }
      GrownWritten(f, f1, own1, Snap(), owner, i, pos, buf[..n], p / BLOCK_SIZE);
      if nr == 0 {
        return;
      }
      StoreChunk(i, p, nr, buf[n..n + c], f, buf[..n]);
      assert buf[..n] + buf[n..n + c] == buf[..n + c];
      ok := true;
    }

    // file_dev.c:97-112
    method StoreChunk(i: int, p: nat, nr: nat, chunk: seq<byte>, ghost f: Fs, ghost done: seq<byte>)
      requires Valid() && TreeInode(f, i) && Offset(p) && nr != 0 && 0 < |chunk| <= BLOCK_SIZE - p % BLOCK_SIZE
      requires |done| <= p && Written(f, Snap(), i, p - |done|, done)
      requires Site(Snap(), i, BlockPlace(p / BLOCK_SIZE)) && nr == Ptr(Snap(), i, BlockPlace(p / BLOCK_SIZE))
      modifies blocks, inodes
      ensures Valid() && Written(f, Snap(), i, p - |done|, done + chunk)
    {
      ghost var f1 := Snap();
      StoredOk(f1, owner, i, p / BLOCK_SIZE, p % BLOCK_SIZE, chunk);
      blocks[nr] := Data(Overlaid(blocks[nr].bytes, p % BLOCK_SIZE, chunk));
      ghost var f2 := Snap();
      assert f2 == Stored(f1, nr, p % BLOCK_SIZE, chunk);
      if p + |chunk| > inodes[i].size {
        inodes[i] := inodes[i].(size := p + |chunk|);
        assert inodes[..] == f2.inodes[i := f2.inodes[i].(size := p + |chunk|)];
      }
      ChunkWritten(f, f1, f2, Snap(), owner, i, p, done, chunk);
    }
  }
}
