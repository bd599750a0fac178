/** The single updates that _bmap, truncate and file_write are made of. */
module FsSteps {
  import opened FsModel

  /** All block numbers but the one at (i, p) are as they were. */
  ghost predicate OnlyAt(f: Fs, g: Fs, i: int, p: Place, v: nat) {
    && Sizes(f) && Sizes(g) && |g.inodes| == |f.inodes| && g.first == f.first && g.nzones == f.nzones
    && Site(f, i, p)
    && (forall i' | 0 <= i' < |f.inodes| :: g.inodes[i'].tree == f.inodes[i'].tree && g.inodes[i'].size == f.inodes[i'].size
                                         && g.inodes[i'].nlinks == f.inodes[i'].nlinks)
    && (forall i', p' | Site(f, i', p') :: Ptr(g, i', p') == if i' == i && p' == p then v else Ptr(f, i', p'))
  }

  ghost predicate SamePtrs(f: Fs, g: Fs) {
    && Sizes(f) && Sizes(g) && g.inodes == f.inodes && g.first == f.first && g.nzones == f.nzones
    && (forall i', p' | Site(f, i', p') :: Ptr(g, i', p') == Ptr(f, i', p'))
  }

  /** The contents of a zone that holds no block numbers do not matter to the trees. */
  lemma ContentsApart(f: Fs, owner: seq<Owner>, b: int, x: Blk)
    requires Inv(f, owner) && DataZone(f, b)
    requires owner[b] == Free || owner[b] == Loose || !IndexPlace(owner[b].place)
    requires owner[b].Held? ==> x.Data?
    ensures SamePtrs(f, f.(blocks := f.blocks[b := x])) && Inv(f.(blocks := f.blocks[b := x]), owner)
  {
    var g := f.(blocks := f.blocks[b := x]);
    forall i, p | Site(f, i, p)
      ensures Ptr(g, i, p) == Ptr(f, i, p)
    {
      if !p.Zone? {
        assert PtrOk(f, owner, i, HolderPlace(p));
        if p.Dind2? { assert PtrOk(f, owner, i, Zone(8)); }
      }
    }
    forall i, p | Site(g, i, p)
      ensures PtrOk(g, owner, i, p)
    {
      assert PtrOk(f, owner, i, p);
    }
    forall c | DataZone(g, c)
      ensures ZoneOk(g, owner, c)
    {
      assert ZoneOk(f, owner, c);
    }
  }

  // ---- a zone is allocated ------------------------------------------------------------------------

  ghost function Allocated(f: Fs, b: int): Fs
    requires Sizes(f) && DataZone(f, b)
  {
    f.(zmap := f.zmap[BitOf(f, b) := true], blocks := f.blocks[b := Data(ZeroBytes())])
  }

  lemma AllocatedOk(f: Fs, owner: seq<Owner>, b: int)
    requires Inv(f, owner) && DataZone(f, b) && owner[b] == Free
    ensures Inv(Allocated(f, b), owner[b := Loose]) && SamePtrs(f, Allocated(f, b))
  {
    ContentsApart(f, owner, b, Data(ZeroBytes()));
    var f1 := f.(blocks := f.blocks[b := Data(ZeroBytes())]);
    var g, owner' := Allocated(f, b), owner[b := Loose];
    forall i, p | Site(f, i, p)
      ensures Ptr(g, i, p) == Ptr(f1, i, p) && PtrOk(g, owner', i, p)
    {
      assert PtrOk(f1, owner, i, p);
    }
    forall c | DataZone(g, c)
      ensures ZoneOk(g, owner', c)
    {
      assert ZoneOk(f1, owner, c);
    }
  }

  // ---- a loose zone is attached ---------------------------------------------------------------------

  /** The zeroed block b becomes the block at (i, p); at an index place it reads as 512
      empty entries. */
  ghost function Prepared(f: Fs, p: Place, b: int): Fs
    requires 0 <= b < |f.blocks|
  {
    if IndexPlace(p) then f.(blocks := f.blocks[b := Index(ZeroZones())]) else f
  }

  ghost predicate CanAttach(f: Fs, owner: seq<Owner>, i: int, p: Place, b: int) {
    && Inv(f, owner) && CanSet(f, i, p) && Ptr(f, i, p) == 0 && DataZone(f, b) && owner[b] == Loose && f.blocks[b] == Data(ZeroBytes())
  }

  lemma PreparedOk(f: Fs, owner: seq<Owner>, i: int, p: Place, b: int)
    requires CanAttach(f, owner, i, p, b)
    ensures Inv(Prepared(f, p, b), owner) && SamePtrs(f, Prepared(f, p, b)) && CanSet(Prepared(f, p, b), i, p)
  {
    ContentsApart(f, owner, b, Index(ZeroZones()));
    if !p.Zone? { assert PtrOk(f, owner, i, HolderPlace(p)); }
  }

  lemma AttachedPtrs(f: Fs, owner: seq<Owner>, i: int, p: Place, b: int)
    requires CanAttach(f, owner, i, p, b)
    ensures CanSet(Prepared(f, p, b), i, p)
    ensures OnlyAt(f, SetPtr(Prepared(f, p, b), i, p, b), i, p, b)
  {
    PreparedOk(f, owner, i, p, b);
    var f1 := Prepared(f, p, b);
    var g := SetPtr(f1, i, p, b);
    if p.Dind2? { assert PtrOk(f1, owner, i, Zone(8)); assert PtrOk(f1, owner, i, Dind(p.j)); }
    SetPtrThere(f1, i, p, b);
    forall i', p' | Site(f, i', p') && (i', p') != (i, p)
      ensures Ptr(g, i', p') == Ptr(f, i', p')
    {
      if i' == i && Below(p', p) {
        BelowFresh(f, owner, i, p, b, p');
      } else {
        SetPtrElsewhere(f1, owner, i, p, b, i', p');
      }
    }
  }

  /** What hangs below a place that was empty is empty, and stays so. */
  lemma BelowFresh(f: Fs, owner: seq<Owner>, i: int, p: Place, b: int, p': Place)
    requires CanAttach(f, owner, i, p, b) && Below(p', p) && PlaceOk(p') && CanSet(Prepared(f, p, b), i, p)
    ensures Sizes(SetPtr(Prepared(f, p, b), i, p, b))
    ensures Ptr(f, i, p') == 0 && Ptr(SetPtr(Prepared(f, p, b), i, p, b), i, p') == 0
  {
    if p.Dind? { assert PtrOk(f, owner, i, Zone(8)); }
  }

  lemma AttachedOk(f: Fs, owner: seq<Owner>, i: int, p: Place, b: int)
    requires CanAttach(f, owner, i, p, b)
    ensures CanSet(Prepared(f, p, b), i, p)
    ensures OnlyAt(f, SetPtr(Prepared(f, p, b), i, p, b), i, p, b)
    ensures Inv(SetPtr(Prepared(f, p, b), i, p, b), owner[b := Held(i, p)])
  {
    AttachedPtrs(f, owner, i, p, b);
    PreparedOk(f, owner, i, p, b);
    var g, owner' := SetPtr(Prepared(f, p, b), i, p, b), owner[b := Held(i, p)];
    forall i', p' | Site(g, i', p')
      ensures PtrOk(g, owner', i', p')
    {
      assert PtrOk(f, owner, i', p');
      if !p.Zone? { assert PtrOk(f, owner, i, HolderPlace(p)); }
    }
    forall c | DataZone(g, c)
      ensures ZoneOk(g, owner', c)
    {
      assert ZoneOk(f, owner, c);
    }
  }

  // ---- two tasks create one block ---------------------------------------------------------------------

  /** All zones are accounted for: none is loose but those that were, and b is not any more. */
  ghost predicate NoneLost(g: Fs, owner: seq<Owner>, owner': seq<Owner>, b: int) {
    && Inv(g, owner') && |owner'| == |owner|
    && (forall z | 0 <= z < |owner'| && owner'[z] == Loose :: owner[z] == Loose && z != b)
  }

  /** new_block has returned b after a sleep, and its number is stored. */
  ghost predicate LateStore(f: Fs, owner: seq<Owner>, i: int, p: Place, b: int) {
    Inv(f, owner) && CanSet(f, i, p) && DataZone(f, b) && owner[b] == Loose && f.blocks[b] == Data(ZeroBytes())
  }

  lemma LatePrepared(f: Fs, owner: seq<Owner>, i: int, p: Place, b: int)
    requires LateStore(f, owner, i, p, b)
    ensures Inv(Prepared(f, p, b), owner) && SamePtrs(f, Prepared(f, p, b)) && CanSet(Prepared(f, p, b), i, p)
  {
    ContentsApart(f, owner, b, Index(ZeroZones()));
    if !p.Zone? { assert PtrOk(f, owner, i, HolderPlace(p)); }
  }

  /** What hangs below the place afterwards is empty. */
  lemma LateBelow(f: Fs, owner: seq<Owner>, i: int, p: Place, b: int, p': Place)
    requires LateStore(f, owner, i, p, b) && Below(p', p) && PlaceOk(p') && CanSet(Prepared(f, p, b), i, p)
    ensures Sizes(SetPtr(Prepared(f, p, b), i, p, b)) && Ptr(SetPtr(Prepared(f, p, b), i, p, b), i, p') == 0
  {
    if p.Dind? { assert PtrOk(f, owner, i, Zone(8)); }
  }

  /** The zone that was named there before is named nowhere any more. */
  lemma LateLoses(f: Fs, owner: seq<Owner>, i: int, p: Place, b: int, i': int, p': Place)
    requires LateStore(f, owner, i, p, b) && Ptr(f, i, p) != 0 && CanSet(Prepared(f, p, b), i, p)
    requires Sizes(SetPtr(Prepared(f, p, b), i, p, b)) && Site(SetPtr(Prepared(f, p, b), i, p, b), i', p')
    ensures Ptr(SetPtr(Prepared(f, p, b), i, p, b), i', p') != Ptr(f, i, p)
  {
    LatePrepared(f, owner, i, p, b);
    var f1 := Prepared(f, p, b);
    assert PtrOk(f, owner, i, p);
    if i' == i && p' == p {
      if p.Dind2? { assert PtrOk(f1, owner, i, Zone(8)); assert PtrOk(f1, owner, i, Dind(p.j)); }
      SetPtrThere(f1, i, p, b);
    } else if i' == i && Below(p', p) {
      LateBelow(f, owner, i, p, b, p');
    } else {
      SetPtrElsewhere(f1, owner, i, p, b, i', p');
      assert PtrOk(f, owner, i', p');
    }
  }

  /** A block created while another task was at it too: no zone is lost if and only if the
      place is still empty when new_block returns. */
  lemma LateStoreIff(f: Fs, owner: seq<Owner>, i: int, p: Place, b: int)
    requires LateStore(f, owner, i, p, b)
    ensures CanSet(Prepared(f, p, b), i, p)
    ensures (exists owner': seq<Owner> :: NoneLost(SetPtr(Prepared(f, p, b), i, p, b), owner, owner', b)) <==> Ptr(f, i, p) == 0
  {
    LatePrepared(f, owner, i, p, b);
    var g, c := SetPtr(Prepared(f, p, b), i, p, b), Ptr(f, i, p);
    if c == 0 {
      AttachedOk(f, owner, i, p, b);
      assert NoneLost(g, owner, owner[b := Held(i, p)], b);
    } else {
      assert PtrOk(f, owner, i, p) && ZoneOk(f, owner, c);
      forall owner': seq<Owner>
        ensures !NoneLost(g, owner, owner', b)
      {
        if NoneLost(g, owner, owner', b) {
          assert ZoneOk(g, owner', c);
          LateLoses(f, owner, i, p, b, owner'[c].ino, owner'[c].place);
        }
      }
    }
  }

  /** A file system with two zones, 2 and 3, and one file: another task gave zone 2 to the
      file's first block while new_block was finding zone 3 for it. */
  function TwoZones(): Fs {
    Fs(seq(8192, j => j <= 2), seq(4, _ => Data(ZeroBytes())), [Inode(true, [2, 0, 0, 0, 0, 0, 0, 0, 0], 0, 1)], 2, 4)
  }

  lemma BlockCreatedTwice() returns (f: Fs, owner: seq<Owner>)
    ensures LateStore(f, owner, 0, Zone(0), 3) && Ptr(f, 0, Zone(0)) == 2
    ensures CanSet(Prepared(f, Zone(0), 3), 0, Zone(0))
    ensures !exists owner': seq<Owner> :: NoneLost(SetPtr(Prepared(f, Zone(0), 3), 0, Zone(0), 3), owner, owner', 3)
  {
    f, owner := TwoZones(), [Free, Free, Held(0, Zone(0)), Loose];
    forall i, p | Site(f, i, p)
      ensures PtrOk(f, owner, i, p)
    {
    }
    assert ZoneOk(f, owner, 2) && ZoneOk(f, owner, 3);
    LateStoreIff(f, owner, 0, Zone(0), 3);
  }

  // ---- a block is released ------------------------------------------------------------------------------

  ghost function Released(f: Fs, i: int, p: Place): Fs
    requires CanSet(f, i, p) && DataZone(f, Ptr(f, i, p))
  {
    SetPtr(f, i, p, 0).(zmap := f.zmap[BitOf(f, Ptr(f, i, p)) := false])
  }

  /** The block at (i, p) can go: nothing hangs below it. */
  ghost predicate CanRelease(f: Fs, owner: seq<Owner>, i: int, p: Place) {
    && Inv(f, owner) && CanSet(f, i, p) && Ptr(f, i, p) != 0
    && (forall p' | PlaceOk(p') && Below(p', p) :: Ptr(f, i, p') == 0)
  }

  lemma ReleasedPtrs(f: Fs, owner: seq<Owner>, i: int, p: Place)
    requires CanRelease(f, owner, i, p)
    ensures DataZone(f, Ptr(f, i, p)) && owner[Ptr(f, i, p)] == Held(i, p)
    ensures OnlyAt(f, Released(f, i, p), i, p, 0)
  {
    assert PtrOk(f, owner, i, p);
    var g := SetPtr(f, i, p, 0);
    if p.Dind2? { assert PtrOk(f, owner, i, Zone(8)); assert PtrOk(f, owner, i, Dind(p.j)); }
    SetPtrThere(f, i, p, 0);
    forall i', p' | Site(f, i', p') && (i', p') != (i, p)
      ensures Ptr(g, i', p') == Ptr(f, i', p')
    {
      if i' == i && Below(p', p) {
        BelowGone(f, owner, i, p, p');
      } else {
        SetPtrElsewhere(f, owner, i, p, 0, i', p');
      }
    }
    forall i', p' | Site(f, i', p')
      ensures Ptr(Released(f, i, p), i', p') == Ptr(g, i', p')
    {
    }
  }

  lemma BelowGone(f: Fs, owner: seq<Owner>, i: int, p: Place, p': Place)
    requires Inv(f, owner) && CanSet(f, i, p) && Below(p', p) && PlaceOk(p') && Ptr(f, i, p') == 0
    ensures Sizes(SetPtr(f, i, p, 0)) && Ptr(SetPtr(f, i, p, 0), i, p') == 0
  {
    if p.Dind? { assert PtrOk(f, owner, i, Zone(8)); }
  }

  lemma ReleasedOk(f: Fs, owner: seq<Owner>, i: int, p: Place)
    requires CanRelease(f, owner, i, p)
    ensures DataZone(f, Ptr(f, i, p)) && owner[Ptr(f, i, p)] == Held(i, p)
    ensures OnlyAt(f, Released(f, i, p), i, p, 0)
    ensures Inv(Released(f, i, p), owner[Ptr(f, i, p) := Free])
    ensures f.zmap[BitOf(f, Ptr(f, i, p))]
  {
    ReleasedPtrs(f, owner, i, p);
    var b := Ptr(f, i, p);
    var g, owner' := Released(f, i, p), owner[b := Free];
    assert ZoneOk(f, owner, b);
    forall i', p' | Site(g, i', p')
      ensures PtrOk(g, owner', i', p')
    {
      assert PtrOk(f, owner, i', p');
      if !p.Zone? { assert PtrOk(f, owner, i, HolderPlace(p)); }
    }
    forall c | DataZone(g, c)
      ensures ZoneOk(g, owner', c)
    {
      assert ZoneOk(f, owner, c);
    }
  }

  // ---- files ------------------------------------------------------------------------------------------------

  /** Where the number of file block n stands. */
  function BlockPlace(n: int): (p: Place)
    requires 0 <= n < MAX_BLOCKS
    ensures PlaceOk(p) && !IndexPlace(p)
  {
    if n < 7 then Zone(n)
    else if n < 519 then Ind(n - 7)
    else Dind2((n - 519) / 512, (n - 519) % 512)
  }

  lemma BlockPlaceInjective(n: int, n': int)
    requires 0 <= n < MAX_BLOCKS && 0 <= n' < MAX_BLOCKS && BlockPlace(n) == BlockPlace(n')
    ensures n == n'
  {
  }

  /** The byte of file i at offset off: what its block holds, or 0 in a hole. */
  function FileByte(f: Fs, i: int, off: nat): byte
    requires TreeInode(f, i) && |f.inodes[i].zones| == 9 && off / 1024 < MAX_BLOCKS
  {
    var b := Ptr(f, i, BlockPlace(off / 1024));
    if 0 < b < |f.blocks| && f.blocks[b].Data? then f.blocks[b].bytes[off % 1024] else 0
  }

  /** Byte o of zone b, 0 for no zone. */
  function ByteIn(f: Fs, b: nat, o: nat): byte
    requires o < 1024
  {
    if 0 < b < |f.blocks| && f.blocks[b].Data? then f.blocks[b].bytes[o] else 0
  }

  /** Where a file's bytes are: 7 blocks in the inode's own zones, the next 512 in those that
      zone 7 names, the others in those that the blocks named by zone 8 name. */
  lemma FileByteIs(f: Fs, owner: seq<Owner>, i: int, off: nat)
    requires Inv(f, owner) && TreeInode(f, i) && off < 1024 * (7 + 512 + 512 * 512)
    ensures |f.inodes[i].zones| == 9
    ensures var n, z := off / 1024, f.inodes[i].zones;
      FileByte(f, i, off) ==
        if n < 7 then ByteIn(f, z[n], off % 1024)
        else if n < 519 then ByteIn(f, Entry(f, z[7], n - 7), off % 1024)
        else ByteIn(f, Entry(f, Entry(f, z[8], (n - 519) / 512), (n - 519) % 512), off % 1024)
    ensures FileByte(f, i, off) != 0 ==> exists b :: DataZone(f, b) && f.blocks[b].Data? && FileByte(f, i, off) == f.blocks[b].bytes[off % 1024]
  {
    assert PtrOk(f, owner, i, BlockPlace(off / 1024));
  }

  predicate Offset(off: int) { 0 <= off < 1024 * MAX_BLOCKS }

  ghost predicate SameFiles(f: Fs, g: Fs) {
    && Sizes(f) && Sizes(g) && |g.inodes| == |f.inodes|
    && (forall i | 0 <= i < |f.inodes| :: g.inodes[i].tree == f.inodes[i].tree && g.inodes[i].size == f.inodes[i].size
                                       && g.inodes[i].nlinks == f.inodes[i].nlinks)
    && (forall i, off | TreeInode(f, i) && Offset(off) :: FileByte(g, i, off) == FileByte(f, i, off))
  }

  // ---- a block is added ------------------------------------------------------------------------------------

  ghost function Attached(f: Fs, i: int, p: Place, b: int): Fs
    requires 0 <= b < |f.blocks| && CanSet(Prepared(f, p, b), i, p)
  {
    SetPtr(Prepared(f, p, b), i, p, b)
  }

  /** Zone b, until now free, is the block at (i, p); no other number and no byte of any
      file changed. */
  ghost predicate Added(f: Fs, owner: seq<Owner>, g: Fs, owner': seq<Owner>, i: int, p: Place, b: int) {
    && Inv(f, owner) && Inv(g, owner') && DataZone(f, b) && owner[b] == Free && owner' == owner[b := Held(i, p)]
    && OnlyAt(f, g, i, p, b) && SameFiles(f, g)
  }

  lemma AddedOk(f: Fs, owner: seq<Owner>, i: int, p: Place, b: int)
    requires Inv(f, owner) && CanSet(f, i, p) && Ptr(f, i, p) == 0 && DataZone(f, b) && owner[b] == Free
    ensures CanAttach(Allocated(f, b), owner[b := Loose], i, p, b) && CanSet(Prepared(Allocated(f, b), p, b), i, p)
    ensures Added(f, owner, Attached(Allocated(f, b), i, p, b), owner[b := Held(i, p)], i, p, b)
  {
    AllocatedOk(f, owner, b);
    var f1, owner1 := Allocated(f, b), owner[b := Loose];
    if !p.Zone? { assert PtrOk(f, owner, i, HolderPlace(p)); }
    AttachedOk(f1, owner1, i, p, b);
    var g := Attached(f1, i, p, b);
    forall i', off | TreeInode(f, i') && Offset(off)
      ensures FileByte(g, i', off) == FileByte(f, i', off)
    {
      AddedByte(f, owner, i, p, b, i', off);
    }
    assert owner1[b := Held(i, p)] == owner[b := Held(i, p)];
  }

  lemma AddedByte(f: Fs, owner: seq<Owner>, i: int, p: Place, b: int, i': int, off: int)
    requires Inv(f, owner) && CanSet(f, i, p) && Ptr(f, i, p) == 0 && DataZone(f, b) && owner[b] == Free
    requires CanSet(Prepared(Allocated(f, b), p, b), i, p) && OnlyAt(f, Attached(Allocated(f, b), i, p, b), i, p, b)
    requires TreeInode(f, i') && Offset(off)
    ensures FileByte(Attached(Allocated(f, b), i, p, b), i', off) == FileByte(f, i', off)
  {
    var q := BlockPlace(off / 1024);
    var g := Attached(Allocated(f, b), i, p, b);
    assert Site(f, i', q);
    assert PtrOk(f, owner, i', q);
    var c := Ptr(f, i', q);
    if i' == i && q == p {
      assert c == 0;
    } else if c != 0 {
      assert c != b;
      if !p.Zone? {
        assert PtrOk(f, owner, i, HolderPlace(p));
        assert Holder(f, i, p) != c;
      }
    }
  }

  // ---- a byte range is written ---------------------------------------------------------------------------------

  function Overlaid(old_: Bytes1K, from: nat, new_: seq<byte>): (r: Bytes1K)
    requires from + |new_| <= 1024
  {
    old_[..from] + new_ + old_[from + |new_|..]
  }

  ghost function Stored(f: Fs, b: int, from: nat, bytes: seq<byte>): Fs
    requires 0 <= b < |f.blocks| && f.blocks[b].Data? && from + |bytes| <= 1024
  {
    f.(blocks := f.blocks[b := Data(Overlaid(f.blocks[b].bytes, from, bytes))])
  }

  /** Writing into one data block changes those bytes of that file and no others. */
  lemma StoredOk(f: Fs, owner: seq<Owner>, i: int, n: int, from: nat, bytes: seq<byte>)
    requires Inv(f, owner) && TreeInode(f, i) && 0 <= n < MAX_BLOCKS && from + |bytes| <= 1024
    requires Ptr(f, i, BlockPlace(n)) != 0
    ensures DataZone(f, Ptr(f, i, BlockPlace(n))) && f.blocks[Ptr(f, i, BlockPlace(n))].Data?
    ensures Inv(Stored(f, Ptr(f, i, BlockPlace(n)), from, bytes), owner)
    ensures SamePtrs(f, Stored(f, Ptr(f, i, BlockPlace(n)), from, bytes))
    ensures forall i', off | TreeInode(f, i') && Offset(off) ::
      FileByte(Stored(f, Ptr(f, i, BlockPlace(n)), from, bytes), i', off) ==
      if i' == i && n * 1024 + from <= off < n * 1024 + from + |bytes| then bytes[off - (n * 1024 + from)] else FileByte(f, i', off)
  {
    var q := BlockPlace(n);
    assert Site(f, i, q) && PtrOk(f, owner, i, q);
    var b := Ptr(f, i, q);
    ContentsApart(f, owner, b, Data(Overlaid(f.blocks[b].bytes, from, bytes)));
    var g := Stored(f, b, from, bytes);
    forall i', off | TreeInode(f, i') && Offset(off)
      ensures FileByte(g, i', off) ==
        if i' == i && n * 1024 + from <= off < n * 1024 + from + |bytes| then bytes[off - (n * 1024 + from)] else FileByte(f, i', off)
    {
      var q' := BlockPlace(off / 1024);
      assert Site(f, i', q') && PtrOk(f, owner, i', q');
      if i' == i && off / 1024 == n {
      } else if Ptr(f, i', q') == b {
        BlockPlaceInjective(n, off / 1024);
      }
    }
  }
}
