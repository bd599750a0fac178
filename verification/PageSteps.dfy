/** The single page-table updates the kernel makes, each an instance of one legal step. */
module PageSteps {
  import opened PageModel

  ghost function Less(memMap: seq<nat>, f: int): seq<nat>
    requires |memMap| == PAGING_PAGES
  {
    if HighFrame(f) && Share(memMap, f) > 0 then memMap[f - LOW_FRAMES := Share(memMap, f) - 1] else memMap
  }

  ghost function More(memMap: seq<nat>, f: int): seq<nat>
    requires |memMap| == PAGING_PAGES
  {
    if HighFrame(f) then memMap[f - LOW_FRAMES := Share(memMap, f) + 1] else memMap
  }

  lemma LessMoreAt(memMap: seq<nat>, f: int)
    requires |memMap| == PAGING_PAGES
    ensures forall g | HighFrame(g) :: Share(Less(memMap, f), g) == if g == f && Share(memMap, f) > 0 then Share(memMap, f) - 1 else Share(memMap, g)
    ensures forall g | HighFrame(g) :: Share(More(memMap, f), g) == if g == f then Share(memMap, f) + 1 else Share(memMap, g)
  {
  }

  /** A named frame is counted, is not in the kernel's hand and is no page table. */
  lemma NamedFrame(m: Mm, l: Ledger, hole: set<(int, int)>, d: int, e: int)
    requires InvBut(m, l, hole) && UserSlot(d, e) && At(m, d, e).Resident? && HighFrame(At(m, d, e).frame)
    ensures Share(m.memMap, At(m, d, e).frame) == |Refs(m, At(m, d, e).frame)| >= 1
    ensures Pins(l, At(m, d, e).frame) == 0 && TableUses(m, At(m, d, e).frame) == {}
  {
    var f := At(m, d, e).frame;
    assert Counted(m, l, f);
    assert (d, e) in Refs(m, f);
    forall d' | FIRST_DIR <= d' < ENTRIES
      ensures d' !in TableUses(m, f)
    {
      assert m.phys[f].Bytes?;
    }
  }

  /** A named slot is taken, once. */
  lemma NamedSlot(m: Mm, l: Ledger, hole: set<(int, int)>, d: int, e: int)
    requires InvBut(m, l, hole) && UserSlot(d, e) && At(m, d, e).OnSwap?
    ensures Owners(m, l, At(m, d, e).slot) == 1 && At(m, d, e).slot != 0
    ensures forall d', e' | UserSlot(d', e') && Holds(At(m, d', e'), At(m, d, e).slot) :: d' == d && e' == e
  {
    var s := At(m, d, e).slot;
    assert (d, e) in SlotRefs(m, s);
    forall d', e' | UserSlot(d', e') && Holds(At(m, d', e'), s)
      ensures d' == d && e' == e
    {
      SubsetSize({(d, e), (d', e')}, SlotRefs(m, s));
    }
  }

  lemma DropResident(m: Mm, l: Ledger, hole: set<(int, int)>, d: int, e: int)
    requires InvBut(m, l, hole) && UserSlot(d, e) && At(m, d, e).Resident?
    ensures StepOk(m, l, d, e, Empty, Less(m.memMap, At(m, d, e).frame), m.free, hole)
    ensures HighFrame(At(m, d, e).frame) ==> Share(m.memMap, At(m, d, e).frame) >= 1
  {
    var f := At(m, d, e).frame;
    LessMoreAt(m.memMap, f);
    if HighFrame(f) { NamedFrame(m, l, hole, d, e); }
    assert forall g | HighFrame(g) :: Counted(m, l, g);
    assert forall s | 0 <= s < SWAP_BITS :: Owners(m.(free := m.free), l, s) == Owners(m, l, s);
  }

  lemma DropSwapped(m: Mm, l: Ledger, hole: set<(int, int)>, d: int, e: int)
    requires InvBut(m, l, hole) && UserSlot(d, e) && At(m, d, e).OnSwap?
    ensures StepOk(m, l, d, e, Empty, m.memMap, m.free[At(m, d, e).slot := true], hole)
    ensures Owners(m, l, At(m, d, e).slot) == 1 && At(m, d, e).slot != 0
  {
    NamedSlot(m, l, hole, d, e);
    assert forall g | HighFrame(g) :: Counted(m, l, g);
  }

  lemma SwapOutDirty(m: Mm, l: Ledger, hole: set<(int, int)>, d: int, e: int, s: nat)
    requires InvBut(m, l, hole) && UserSlot(d, e) && At(m, d, e).Resident? && HighFrame(At(m, d, e).frame)
    requires s < SWAP_BITS && m.swapOn && m.free[s]
    ensures StepOk(m, l, d, e, OnSwap(s), Less(m.memMap, At(m, d, e).frame), m.free[s := false], hole)
    ensures Share(m.memMap, At(m, d, e).frame) >= 1
  {
    var f := At(m, d, e).frame;
    LessMoreAt(m.memMap, f);
    NamedFrame(m, l, hole, d, e);
    assert forall g | HighFrame(g) :: Counted(m, l, g);
  }

  lemma BringIn(m: Mm, l: Ledger, hole: set<(int, int)>, d: int, e: int, n: nat)
    requires InvBut(m, l, hole) && UserSlot(d, e) && At(m, d, e).OnSwap?
    requires HighFrame(n) && n < m.high && Share(m.memMap, n) == Pins(l, n) == 1 && m.phys[n].Bytes?
    ensures StepOk(m, l, d, e, Resident(n, true, true), m.memMap, m.free[At(m, d, e).slot := true], hole)
    ensures Owners(m, l, At(m, d, e).slot) == 1 && At(m, d, e).slot != 0
  {
    NamedSlot(m, l, hole, d, e);
    PinnedAlone(m, l, hole, n);
    assert forall g | HighFrame(g) :: Counted(m, l, g);
  }

  lemma MapFresh(m: Mm, l: Ledger, hole: set<(int, int)>, d: int, e: int, n: nat, dirty: bool)
    requires InvBut(m, l, hole) && UserSlot(d, e) && At(m, d, e).Empty? && m.dir[d].PageTable?
    requires HighFrame(n) && n < m.high && Share(m.memMap, n) == Pins(l, n) == 1 && m.phys[n].Bytes?
    ensures StepOk(m, l, d, e, Resident(n, true, dirty), m.memMap, m.free, hole)
  {
    PinnedAlone(m, l, hole, n);
    assert forall g | HighFrame(g) :: Counted(m, l, g);
    assert forall s | 0 <= s < SWAP_BITS :: Owners(m.(free := m.free), l, s) == Owners(m, l, s);
  }

  lemma CopyOnWrite(m: Mm, l: Ledger, hole: set<(int, int)>, d: int, e: int, n: nat, dirty: bool)
    requires InvBut(m, l, hole) && UserSlot(d, e) && At(m, d, e).Resident?
    requires HighFrame(n) && n < m.high && Share(m.memMap, n) == Pins(l, n) == 1 && m.phys[n].Bytes?
    ensures n != At(m, d, e).frame
    ensures StepOk(m, l, d, e, Resident(n, true, dirty), Less(m.memMap, At(m, d, e).frame), m.free, hole)
    ensures HighFrame(At(m, d, e).frame) ==> Share(m.memMap, At(m, d, e).frame) >= 1
  {
    var f := At(m, d, e).frame;
    LessMoreAt(m.memMap, f);
    PinnedAlone(m, l, hole, n);
    assert !Names(At(m, d, e), n);
    if HighFrame(f) { NamedFrame(m, l, hole, d, e); }
    assert forall g | HighFrame(g) :: Counted(m, l, g);
    assert forall s | 0 <= s < SWAP_BITS :: Owners(m.(free := m.free), l, s) == Owners(m, l, s);
  }

  /** Changing the protection or the dirty bit of an entry that is alone on its frame,
      or taking the write permission away from any entry. */
  lemma Reflag(m: Mm, l: Ledger, hole: set<(int, int)>, d: int, e: int, w: bool, dirty: bool)
    requires InvBut(m, l, hole) && UserSlot(d, e) && At(m, d, e).Resident?
    requires (HighFrame(At(m, d, e).frame) && Share(m.memMap, At(m, d, e).frame) == 1) || (!w && dirty == At(m, d, e).dirty)
    ensures StepOk(m, l, d, e, Resident(At(m, d, e).frame, w, dirty), m.memMap, m.free, hole)
    ensures Unpin(l, Resident(At(m, d, e).frame, w, dirty)) == l
  {
    var f := At(m, d, e).frame;
    if HighFrame(f) {
      NamedFrame(m, l, hole, d, e);
      assert Homed(m, f);
      assert Pins(l, f) == l.pins[f - LOW_FRAMES];
      forall d', e' | UserSlot(d', e') && (d', e') != (d, e) && Names(At(m, d', e'), f)
        ensures !At(m, d', e').writable && e' == e && d' % TASK_DIRS == d % TASK_DIRS && At(m, d', e').dirty == dirty
      {
        if Share(m.memMap, f) == 1 {
          SoleRef(m, l, f, d, e, d', e');
        } else {
          assert !At(m, d', e').writable;
        }
      }
    }
    assert forall g | HighFrame(g) :: Counted(m, l, g);
    assert forall s | 0 <= s < SWAP_BITS :: Owners(m.(free := m.free), l, s) == Owners(m, l, s);
  }

  /** At most one entry per task names a frame, so a share count stays far from 256. */
  lemma ShareBound(m: Mm, l: Ledger, hole: set<(int, int)>, d: int, e: int)
    requires InvBut(m, l, hole) && UserSlot(d, e) && At(m, d, e).Resident? && HighFrame(At(m, d, e).frame)
    ensures Share(m.memMap, At(m, d, e).frame) <= 63
  {
    var f := At(m, d, e).frame;
    NamedFrame(m, l, hole, d, e);
    assert Homed(m, f);
    var col := Column(1, d % TASK_DIRS, e);
    forall p | p in Refs(m, f)
      ensures p in col
    {
      assert p.1 == e && p.0 % TASK_DIRS == d % TASK_DIRS;
    }
    SubsetSize(Refs(m, f), col);
  }

  /** The slots of tasks t.. at one place of their address space. */
  ghost function Column(t: nat, r: int, e: int): (c: set<(int, int)>)
    requires 1 <= t <= 64 && 0 <= r < 16
    ensures |c| <= 64 - t
    ensures forall a | 16 * t <= a < 1024 && a % 16 == r :: (a, e) in c
    decreases 64 - t
  {
    if t == 64 then {} else {(16 * t + r, e)} + Column(t + 1, r, e)
  }

  /** A second entry for a frame whose first entry is already read-only. */
  lemma ShareEntry(m: Mm, l: Ledger, hole: set<(int, int)>, d: int, e: int, d': int)
    requires InvBut(m, l, hole) && UserSlot(d, e) && At(m, d, e).Resident? && !At(m, d, e).writable
    requires UserSlot(d', e) && At(m, d', e).Empty? && m.dir[d'].PageTable? && d' % TASK_DIRS == d % TASK_DIRS
    ensures StepOk(m, l, d', e, At(m, d, e), More(m.memMap, At(m, d, e).frame), m.free, hole)
    ensures Unpin(l, At(m, d, e)) == l
    ensures HighFrame(At(m, d, e).frame) ==> Share(m.memMap, At(m, d, e).frame) <= 63
  {
    var x := At(m, d, e);
    var f := x.frame;
    LessMoreAt(m.memMap, f);
    if HighFrame(f) {
      NamedFrame(m, l, hole, d, e);
      ShareBound(m, l, hole, d, e);
      assert Homed(m, f);
      assert Pins(l, f) == l.pins[f - LOW_FRAMES];
      forall a, b | UserSlot(a, b) && (a, b) != (d', e) && Names(At(m, a, b), f)
        ensures !At(m, a, b).writable && b == e && a % TASK_DIRS == d' % TASK_DIRS && At(m, a, b).dirty == x.dirty
      {
        if At(m, a, b).writable { SoleRef(m, l, f, d, e, a, b); }
      }
    }
    assert forall g | HighFrame(g) :: Counted(m, l, g);
    assert forall s | 0 <= s < SWAP_BITS :: Owners(m.(free := m.free), l, s) == Owners(m, l, s);
  }

  /** A free slot is given to an empty entry. */
  lemma GiveSlot(m: Mm, l: Ledger, hole: set<(int, int)>, d: int, e: int, s: nat)
    requires InvBut(m, l, hole) && UserSlot(d, e) && At(m, d, e).Empty? && m.dir[d].PageTable?
    requires s < SWAP_BITS && m.swapOn && m.free[s]
    ensures StepOk(m, l, d, e, OnSwap(s), m.memMap, m.free[s := false], hole)
  {
    assert forall g | HighFrame(g) :: Counted(m, l, g);
  }

  /** A page of the first megabyte is mapped read-only; it is not counted. */
  lemma MapKernelPage(m: Mm, l: Ledger, hole: set<(int, int)>, d: int, e: int, f: nat, dirty: bool)
    requires InvBut(m, l, hole) && UserSlot(d, e) && At(m, d, e).Empty? && m.dir[d].PageTable? && f < LOW_FRAMES
    ensures StepOk(m, l, d, e, Resident(f, false, dirty), m.memMap, m.free, hole)
    ensures Unpin(l, Resident(f, false, dirty)) == l
  {
    assert forall g | HighFrame(g) :: Counted(m, l, g);
    assert forall s | 0 <= s < SWAP_BITS :: Owners(m.(free := m.free), l, s) == Owners(m, l, s);
  }
}
