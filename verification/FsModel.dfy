/** One file system as a value: the zone bitmap, the blocks and the inodes' block trees.
    Blocks are read and written through the buffer cache, which stands for this plain
    array of blocks. */
module FsModel {
  const BLOCK_SIZE: nat := 1024
  const ERROR: int := 99
  const PER_BLOCK: nat := 512          // block numbers in an index block
  const DIRECT: nat := 7
  const MAX_BLOCKS: nat := 7 + 512 + 512 * 512
  const MAP_BITS: nat := 8192          // bits of one bitmap block

  newtype byte = b: int | 0 <= b < 256
  type Bytes1K = s: seq<byte> | |s| == 1024 witness seq(1024, _ => 0)
  type Zones512 = s: seq<nat> | |s| == 512 witness seq(512, _ => 0)

  function ZeroBytes(): Bytes1K { seq(1024, _ => 0) }
  function ZeroZones(): Zones512 { seq(512, _ => 0) }

  /** A block as it is used: file contents, or block numbers. */
  datatype Blk = Data(bytes: Bytes1K) | Index(zones: Zones512)

  /** An inode of a regular file, directory or symbolic link (tree), whose zones are a
      block tree, or of something else. */
  datatype Inode = Inode(tree: bool, zones: seq<nat>, size: nat, nlinks: nat)

  /** Where a block number can stand in an inode's tree. */
  datatype Place = Zone(k: int) | Ind(j: int) | Dind(j: int) | Dind2(j: int, m: int)

  datatype Owner = Free | Loose | Held(ino: int, place: Place)

  datatype Fs = Fs(
    zmap: seq<bool>,       // the zone bitmap blocks, one after the other
    blocks: seq<Blk>,
    inodes: seq<Inode>,
    first: nat,            // s_firstdatazone
    nzones: nat)           // s_nzones

  ghost predicate Sizes(f: Fs) {
    && 1 <= f.first <= f.nzones <= |f.blocks| && f.nzones < 0x1_0000
    && |f.zmap| % MAP_BITS == 0 && |f.zmap| <= 8 * MAP_BITS && f.nzones - f.first + 1 <= |f.zmap|
    && (forall i | 0 <= i < |f.inodes| :: |f.inodes[i].zones| == 9)
  }

  predicate DataZone(f: Fs, b: int) { f.first <= b < f.nzones }

  /** The bitmap bit of a zone. */
  function BitOf(f: Fs, b: int): int { b - f.first + 1 }

  predicate PlaceOk(p: Place) {
    match p
    case Zone(k) => 0 <= k < 9
    case Ind(j) => 0 <= j < PER_BLOCK
    case Dind(j) => 0 <= j < PER_BLOCK
    case Dind2(j, m) => 0 <= j < PER_BLOCK && 0 <= m < PER_BLOCK
  }

  /** Places whose block holds block numbers. */
  predicate IndexPlace(p: Place) { p == Zone(7) || p == Zone(8) || p.Dind? }

  predicate TreeInode(f: Fs, i: int) { 0 <= i < |f.inodes| && f.inodes[i].tree }

  /** Entry j of block b, read as an index block; 0 for no block. */
  function Entry(f: Fs, b: nat, j: int): nat
    requires 0 <= j < PER_BLOCK
  {
    if 0 < b < |f.blocks| && f.blocks[b].Index? then f.blocks[b].zones[j] else 0
  }

  /** The block number at a place, 0 if there is none. */
  function Ptr(f: Fs, i: int, p: Place): nat
    requires TreeInode(f, i) && |f.inodes[i].zones| == 9 && PlaceOk(p)
  {
    match p
    case Zone(k) => f.inodes[i].zones[k]
    case Ind(j) => Entry(f, f.inodes[i].zones[7], j)
    case Dind(j) => Entry(f, f.inodes[i].zones[8], j)
    case Dind2(j, m) => Entry(f, Entry(f, f.inodes[i].zones[8], j), m)
  }

  ghost predicate Site(f: Fs, i: int, p: Place)
    requires Sizes(f)
  {
    TreeInode(f, i) && PlaceOk(p)
  }

  /** A block number that stands somewhere names a data zone that belongs there, of the
      right kind. */
  ghost predicate PtrOk(f: Fs, owner: seq<Owner>, i: int, p: Place)
    requires Sizes(f) && |owner| == f.nzones && Site(f, i, p)
  {
    var b := Ptr(f, i, p);
    b != 0 ==> DataZone(f, b) && owner[b] == Held(i, p) && (IndexPlace(p) <==> f.blocks[b].Index?)
  }

  /** A zone's bit is set exactly when the zone belongs to someone, and a zone that
      belongs to a place is named there. */
  ghost predicate ZoneOk(f: Fs, owner: seq<Owner>, b: int)
    requires Sizes(f) && |owner| == f.nzones && DataZone(f, b)
  {
    && (f.zmap[BitOf(f, b)] <==> owner[b] != Free)
    && (owner[b].Held? ==> Site(f, owner[b].ino, owner[b].place) && Ptr(f, owner[b].ino, owner[b].place) == b)
  }

  ghost predicate Inv(f: Fs, owner: seq<Owner>) {
    && Sizes(f) && |owner| == f.nzones
    && f.zmap[0]
    && (forall i, p {:trigger PtrOk(f, owner, i, p)} | Site(f, i, p) :: PtrOk(f, owner, i, p))
    && (forall b {:trigger ZoneOk(f, owner, b)} | DataZone(f, b) :: ZoneOk(f, owner, b))
  }

  /** Block conservation, as a reader would put it: with no allocation in progress, a
      zone's bit is set exactly when one place of one inode names the zone. */
  lemma BitMeansNamed(f: Fs, owner: seq<Owner>, b: int)
    requires Inv(f, owner) && DataZone(f, b) && owner[b] != Loose
    ensures f.zmap[BitOf(f, b)] <==> exists i, p :: Site(f, i, p) && Ptr(f, i, p) == b
    ensures forall i, p, i', p' | Site(f, i, p) && Site(f, i', p') && Ptr(f, i, p) == Ptr(f, i', p') == b :: i == i' && p == p'
  {
    assert ZoneOk(f, owner, b);
    forall i, p | Site(f, i, p) && Ptr(f, i, p) == b
      ensures owner[b] == Held(i, p)
    {
      assert PtrOk(f, owner, i, p);
    }
  }

  // ---- changing one block number ----------------------------------------------------------------

  /** The block that holds the number at a place other than an inode's zone. */
  function Holder(f: Fs, i: int, p: Place): nat
    requires TreeInode(f, i) && |f.inodes[i].zones| == 9 && PlaceOk(p) && !p.Zone?
  {
    match p
    case Ind(_) => f.inodes[i].zones[7]
    case Dind(_) => f.inodes[i].zones[8]
    case Dind2(j, _) => Entry(f, f.inodes[i].zones[8], j)
  }

  function HolderPlace(p: Place): Place
    requires !p.Zone?
  {
    match p
    case Ind(_) => Zone(7)
    case Dind(_) => Zone(8)
    case Dind2(j, _) => Dind(j)
  }

  function Slot(p: Place): int
    requires !p.Zone?
  {
    match p
    case Ind(j) => j
    case Dind(j) => j
    case Dind2(_, m) => m
  }

  ghost predicate CanSet(f: Fs, i: int, p: Place) {
    Sizes(f) && Site(f, i, p) && (p.Zone? || (0 < Holder(f, i, p) < |f.blocks| && f.blocks[Holder(f, i, p)].Index?))
  }

  ghost function SetPtr(f: Fs, i: int, p: Place, v: nat): Fs
    requires CanSet(f, i, p)
  {
    if p.Zone? then f.(inodes := f.inodes[i := f.inodes[i].(zones := f.inodes[i].zones[p.k := v])])
    else f.(blocks := f.blocks[Holder(f, i, p) := Index(f.blocks[Holder(f, i, p)].zones[Slot(p) := v])])
  }

  /** Places that hang below another. */
  predicate Below(p: Place, q: Place) {
    || (q == Zone(7) && p.Ind?)
    || (q == Zone(8) && (p.Dind? || p.Dind2?))
    || (q.Dind? && p.Dind2? && p.j == q.j)
  }

  /** Each index block has one place, so a store into one changes one number only: unless
      that number is itself the way to others, the rest of all trees stays. */
  lemma SetPtrElsewhere(f: Fs, owner: seq<Owner>, i: int, p: Place, v: nat, i': int, p': Place)
    requires Inv(f, owner) && CanSet(f, i, p) && Site(f, i', p') && (i', p') != (i, p) && !(i' == i && Below(p', p))
    ensures Sizes(SetPtr(f, i, p, v)) && Site(SetPtr(f, i, p, v), i', p')
    ensures Ptr(SetPtr(f, i, p, v), i', p') == Ptr(f, i', p')
  {
    var g := SetPtr(f, i, p, v);
    if !p.Zone? {
      var h := Holder(f, i, p);
      assert PtrOk(f, owner, i, HolderPlace(p));
      if !p'.Zone? {
        HolderElsewhere(f, owner, i, p, i', p');
        if p'.Dind2? { HolderElsewhere(f, owner, i, p, i', Dind(p'.j)); }
      }
    }
  }

  /** Two places share their holder block only if they are in the same index block. */
  lemma HolderElsewhere(f: Fs, owner: seq<Owner>, i: int, p: Place, i': int, p': Place)
    requires Inv(f, owner) && Site(f, i, p) && Site(f, i', p') && !p.Zone? && !p'.Zone?
    ensures Holder(f, i, p) == Ptr(f, i, HolderPlace(p)) && Holder(f, i', p') == Ptr(f, i', HolderPlace(p'))
    ensures Holder(f, i, p) != 0 && Holder(f, i, p) == Holder(f, i', p') ==> i == i' && HolderPlace(p) == HolderPlace(p')
  {
    assert PtrOk(f, owner, i, HolderPlace(p));
    assert PtrOk(f, owner, i', HolderPlace(p'));
  }

  lemma SetPtrThere(f: Fs, i: int, p: Place, v: nat)
    requires CanSet(f, i, p)
    requires p.Dind2? ==> Holder(f, i, p) != f.inodes[i].zones[8]
    ensures Sizes(SetPtr(f, i, p, v)) && Site(SetPtr(f, i, p, v), i, p) && Ptr(SetPtr(f, i, p, v), i, p) == v
  {
  }
}
