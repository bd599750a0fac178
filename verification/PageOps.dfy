/** What each operation of mm/memory.c, mm/swap.c and the memory half of kernel/fork.c
    may do to the paging state, and why it is legal. */
module PageOps {
  import opened PageModel
  import opened PageSteps

  /** Complaint stands for the kernel's printk about a call that makes no sense. */
  datatype Outcome = Done | OutOfMemory | Complaint

  /** What an allocation may do to an entry: leave it, or take its page away. */
  predicate Kept(p: Pte, q: Pte) {
    q == p || (p.Resident? && HighFrame(p.frame) && !q.Resident?)
  }

  ghost predicate FrameFree(m: Mm) {
    |m.memMap| == PAGING_PAGES && exists f | HighFrame(f) :: Share(m.memMap, f) == 0
  }

  ghost function Residents(m: Mm): set<(int, int)>
    requires TablesOk(m)
  {
    set p | p in AllSlots() && At(m, p.0, p.1).Resident?
  }

  /** All that swapping pages out may change. */
  ghost predicate Evicts(m: Mm, m': Mm, l: Ledger)
    requires TablesOk(m) && ResidentOk(m, l) && Slots(m, l)
    requires TablesOk(m') && ResidentOk(m', l) && Slots(m', l)
  {
    && m'.dir == m.dir && m'.high == m.high && m'.swapOn == m.swapOn && m'.pg0 == m.pg0
    && SameViews(m, l, m', l)
    && (forall d, e | UserSlot(d, e) :: Kept(At(m, d, e), At(m', d, e)))
    && (forall f | 0 <= f < FRAMES && m.phys[f].Bytes? :: m'.phys[f] == m.phys[f])
    && (forall f | HighFrame(f) :: Share(m'.memMap, f) <= Share(m.memMap, f))
    && (forall d, e | UserSlot(d, e) && SharedDirty(m, d, e) ::
          At(m', d, e) == At(m, d, e) && Share(m'.memMap, At(m, d, e).frame) == Share(m.memMap, At(m, d, e).frame))
  }

  /** A dirty page with several users: never written to the swap device. */
  ghost predicate SharedDirty(m: Mm, d: int, e: int)
    requires TablesOk(m) && UserSlot(d, e)
  {
    At(m, d, e).Resident? && HighFrame(At(m, d, e).frame) && At(m, d, e).dirty && Share(m.memMap, At(m, d, e).frame) >= 2
  }

  /** The step that evicts one page leaves every dirty shared page alone. */
  lemma EvictKeepsSharedDirty(m: Mm, m': Mm, l: Ledger, d: int, e: int)
    requires Inv(m, l) && TablesOk(m') && UserSlot(d, e)
    requires At(m, d, e).Resident? && HighFrame(At(m, d, e).frame)
    requires At(m, d, e).dirty ==> Share(m.memMap, At(m, d, e).frame) == 1
    requires m'.memMap == Less(m.memMap, At(m, d, e).frame)
    requires forall d', e' | UserSlot(d', e') && (d', e') != (d, e) :: At(m', d', e') == At(m, d', e')
    ensures forall d', e' | UserSlot(d', e') && SharedDirty(m, d', e') ::
      At(m', d', e') == At(m, d', e') && Share(m'.memMap, At(m, d', e').frame) == Share(m.memMap, At(m, d', e').frame)
  {
    LessMoreAt(m.memMap, At(m, d, e).frame);
    forall d', e' | UserSlot(d', e') && SharedDirty(m, d', e')
      ensures !Names(At(m, d, e), At(m, d', e').frame)
    {
      assert Homed(m, At(m, d', e').frame);
    }
  }

  lemma EvictsTransitive(m: Mm, m1: Mm, m2: Mm, l: Ledger)
    requires Inv(m, l) && Inv(m1, l) && Inv(m2, l)
    requires Evicts(m, m1, l) && Evicts(m1, m2, l)
    ensures Evicts(m, m2, l)
  {
    forall f | 0 <= f < FRAMES && m.phys[f].Bytes?
      ensures m2.phys[f] == m.phys[f]
    {
      assert m1.phys[f] == m.phys[f];
    }
    forall f | HighFrame(f)
      ensures Share(m2.memMap, f) <= Share(m.memMap, f)
    {
      assert Share(m1.memMap, f) <= Share(m.memMap, f);
    }
    forall d, e | UserSlot(d, e)
      ensures Kept(At(m, d, e), At(m2, d, e)) && View(m2, l, d, e) == View(m, l, d, e)
      ensures SharedDirty(m, d, e) ==>
        At(m2, d, e) == At(m, d, e) && Share(m2.memMap, At(m, d, e).frame) == Share(m.memMap, At(m, d, e).frame)
    {
      assert Kept(At(m, d, e), At(m1, d, e)) && Kept(At(m1, d, e), At(m2, d, e));
      assert View(m1, l, d, e) == View(m, l, d, e) && View(m2, l, d, e) == View(m1, l, d, e);
      assert SharedDirty(m, d, e) ==> SharedDirty(m1, d, e);
    }
  }

  /** The allocator handed out frame f: zeroed, in the kernel's hand, named by nobody;
      pages may have been evicted for it, but only when no frame was free. */
  ghost predicate Obtained(m: Mm, l: Ledger, m': Mm, l': Ledger, f: nat) {
    && Inv(m, l) && Inv(m', l') && HighFrame(f) && f < m.high && Pins(l, f) == 0 && l' == Pin(l, f, 1)
    && Share(m'.memMap, f) == 1 && m'.phys[f] == Bytes(ZeroPage())
    && m'.dir == m.dir && m'.high == m.high && m'.swapOn == m.swapOn && m'.pg0 == m.pg0
    && SameViews(m, l, m', l')
    && (forall d, e | UserSlot(d, e) :: Kept(At(m, d, e), At(m', d, e)))
    && (forall d, e {:trigger SharedDirty(m, d, e)} | UserSlot(d, e) && SharedDirty(m, d, e) :: At(m', d, e) == At(m, d, e))
    && (FrameFree(m) ==> SameEntries(m, m'))
    && (forall g | 0 <= g < FRAMES && m.phys[g].Bytes? && g != f :: m'.phys[g] == m.phys[g])
  }

  lemma ClaimObtains(m: Mm, m1: Mm, l: Ledger, f: nat)
    requires Inv(m, l) && Inv(m1, l) && Evicts(m, m1, l) && (FrameFree(m) ==> m1 == m)
    requires HighFrame(f) && Share(m1.memMap, f) == 0
    ensures Obtained(m, l, Claim(m1, f), Pin(l, f, 1), f)
  {
    ClaimFacts(m1, l, f);
    forall d, e | UserSlot(d, e)
      ensures View(Claim(m1, f), Pin(l, f, 1), d, e) == View(m, l, d, e)
    {
      assert View(m1, l, d, e) == View(m, l, d, e);
    }
  }

  lemma ClaimFacts(m: Mm, l: Ledger, f: nat)
    requires Inv(m, l) && HighFrame(f) && Share(m.memMap, f) == 0
    ensures f < m.high && Pins(l, f) == 0
    ensures Inv(Claim(m, f), Pin(l, f, 1)) && SameViews(m, l, Claim(m, f), Pin(l, f, 1)) && SameEntries(m, Claim(m, f))
    ensures forall d, e | UserSlot(d, e) :: !Names(At(m, d, e), f)
  {
    assert Counted(m, l, f);
    assert Pins(l, f) == 0;
    assert f < m.high;
    PinnedStep(m, l, {}, f, ZeroPage(), 1);
    PinnedAlone(m, l, {}, f);
  }

  ghost function InFromSwap(m: Mm, d: int, e: int, f: nat): Mm
    requires TablesOk(m) && UserSlot(d, e) && At(m, d, e).OnSwap? && At(m, d, e).slot < SWAP_BITS && HighFrame(f)
    requires m.dir[d].PageTable? && m.dir[d].frame != f && TablesOk(m.(phys := m.phys[f := Bytes(m.swap[At(m, d, e).slot])]))
  {
    Step(m.(phys := m.phys[f := Bytes(m.swap[At(m, d, e).slot])]), d, e, Resident(f, true, true), m.memMap, m.free[At(m, d, e).slot := true])
  }

  lemma SwappedIn(m: Mm, l: Ledger, d: int, e: int, f: nat)
    requires Inv(m, l) && UserSlot(d, e) && At(m, d, e).OnSwap? && m.dir[d].PageTable?
    requires HighFrame(f) && f < m.high && Share(m.memMap, f) == Pins(l, f) == 1
    ensures At(m, d, e).slot < SWAP_BITS && m.dir[d].frame != f && TablesOk(m.(phys := m.phys[f := Bytes(m.swap[At(m, d, e).slot])]))
    ensures Inv(InFromSwap(m, d, e, f), Pin(l, f, 0)) && SameViews(m, l, InFromSwap(m, d, e, f), Pin(l, f, 0))
    ensures forall a, b | UserSlot(a, b) :: At(InFromSwap(m, d, e, f), a, b) == if a == d && b == e then Resident(f, true, true) else At(m, a, b)
  {
    var s := At(m, d, e).slot;
    PinnedAlone(m, l, {}, f);
    PinnedStep(m, l, {}, f, m.swap[s], 1);
    var m1 := m.(phys := m.phys[f := Bytes(m.swap[s])]);
    assert m1 == m.(memMap := m.memMap[f - LOW_FRAMES := 1], phys := m.phys[f := Bytes(m.swap[s])]);
    assert Pin(l, f, 1) == l;
    BringIn(m1, l, {}, d, e, f);
    StepKeepsInv(m1, l, d, e, Resident(f, true, true), m.memMap, m.free[s := true], {}, {});
  }

  ghost function DirtyOut(m: Mm, d: int, e: int, s: nat): Mm
    requires TablesOk(m) && UserSlot(d, e) && At(m, d, e).Resident? && HighFrame(At(m, d, e).frame)
    requires m.phys[At(m, d, e).frame].Bytes? && s < SWAP_BITS
  {
    Step(m.(swap := m.swap[s := m.phys[At(m, d, e).frame].page]), d, e, OnSwap(s), Less(m.memMap, At(m, d, e).frame), m.free[s := false])
  }

  ghost function CleanOut(m: Mm, d: int, e: int): Mm
    requires TablesOk(m) && UserSlot(d, e) && At(m, d, e).Resident?
  {
    Step(m, d, e, Empty, Less(m.memMap, At(m, d, e).frame), m.free)
  }

  lemma FewerResidents(m: Mm, m': Mm, d: int, e: int)
    requires TablesOk(m) && TablesOk(m') && UserSlot(d, e) && At(m, d, e).Resident? && !At(m', d, e).Resident?
    requires forall d', e' | UserSlot(d', e') && (d', e') != (d, e) :: At(m', d', e') == At(m, d', e')
    ensures Residents(m') < Residents(m)
  {
    assert (d, e) in Residents(m) && (d, e) !in Residents(m');
    forall p | p in Residents(m')
      ensures p in Residents(m)
    {
    }
  }

  lemma DirtyOutEvicts(m: Mm, l: Ledger, d: int, e: int, s: nat)
    requires Inv(m, l) && UserSlot(d, e) && At(m, d, e).Resident? && HighFrame(At(m, d, e).frame)
    requires At(m, d, e).dirty && Share(m.memMap, At(m, d, e).frame) == 1
    requires s < SWAP_BITS && m.swapOn && m.free[s]
    ensures Inv(DirtyOut(m, d, e, s), l)
    ensures Evicts(m, DirtyOut(m, d, e, s), l)
    ensures Residents(DirtyOut(m, d, e, s)) < Residents(m)
  {
    var f := At(m, d, e).frame;
    SwapWriteKeepsInv(m, l, {}, s, m.phys[f].page);
    var m1 := m.(swap := m.swap[s := m.phys[f].page]);
    SwapOutDirty(m1, l, {}, d, e, s);
    StepKeepsInv(m1, l, d, e, OnSwap(s), Less(m.memMap, f), m.free[s := false], {}, {});
    EvictKeepsSharedDirty(m, DirtyOut(m, d, e, s), l, d, e);
    LessMoreAt(m.memMap, f);
    FewerResidents(m, DirtyOut(m, d, e, s), d, e);
  }

  lemma CleanOutEvicts(m: Mm, l: Ledger, d: int, e: int)
    requires Inv(m, l) && UserSlot(d, e) && At(m, d, e).Resident? && HighFrame(At(m, d, e).frame) && !At(m, d, e).dirty
    ensures Inv(CleanOut(m, d, e), l)
    ensures Evicts(m, CleanOut(m, d, e), l)
    ensures Residents(CleanOut(m, d, e)) < Residents(m)
  {
    var f := At(m, d, e).frame;
    DropResident(m, l, {}, d, e);
    StepKeepsInv(m, l, d, e, Empty, Less(m.memMap, f), m.free, {}, {});
    EvictKeepsSharedDirty(m, CleanOut(m, d, e), l, d, e);
    LessMoreAt(m.memMap, f);
    FewerResidents(m, CleanOut(m, d, e), d, e);
  }

  /** The memory of every task, the page tables and the kernel's pages are as before. */
  ghost predicate Unseen(m: Mm, l: Ledger, m': Mm, l': Ledger) {
    && Inv(m, l) && Inv(m', l') && l' == l && m'.dir == m.dir && m'.high == m.high && SameViews(m, l, m', l')
    && (forall g | HighFrame(g) && m.phys[g].Bytes? && Pins(l, g) > 0 :: m'.phys[g] == m.phys[g])
  }

  ghost predicate SwappedInTo(m: Mm, l: Ledger, m': Mm, l': Ledger, d: int, e: int, r: Outcome) {
    && UserSlot(d, e) && Unseen(m, l, m', l')
    && (r == Complaint <==> !At(m, d, e).OnSwap?)
    && (r == Complaint ==> m' == m)
    && (r == Done ==> At(m', d, e).Resident? && At(m', d, e).writable && At(m', d, e).dirty
                      && At(m, d, e).slot < SWAP_BITS && m'.free[At(m, d, e).slot])
  }

  lemma SwappedInAfter(m: Mm, l: Ledger, m1: Mm, l1: Ledger, d: int, e: int, f: nat)
    requires Obtained(m, l, m1, l1, f) && UserSlot(d, e) && At(m, d, e).OnSwap? && m.dir[d].PageTable?
    ensures At(m1, d, e) == At(m, d, e) && At(m, d, e).slot < SWAP_BITS && m1.dir == m.dir && m.dir[d].frame != f
    ensures TablesOk(m1.(phys := m1.phys[f := Bytes(m1.swap[At(m, d, e).slot])]))
    ensures Pin(l1, f, 0) == l
    ensures SwappedInTo(m, l, InFromSwap(m1, d, e, f), l, d, e, Done)
  {
    assert Kept(At(m, d, e), At(m1, d, e));
    SwappedIn(m1, l1, d, e, f);
    assert Pin(l1, f, 0).pins == l.pins;
    var m2 := InFromSwap(m1, d, e, f);
    forall a, b | UserSlot(a, b)
      ensures View(m2, l, a, b) == View(m, l, a, b)
    {
      assert View(m1, l1, a, b) == View(m, l, a, b);
    }
    assert m2.free[At(m, d, e).slot];
  }

  // ---- breaking a share ---------------------------------------------------------------

  ghost predicate NoTable(m: Mm, f: nat)
    requires |m.dir| == ENTRIES
  {
    forall d | FIRST_DIR <= d < ENTRIES && m.dir[d].PageTable? :: m.dir[d].frame != f
  }

  /** What un_wp_page does once it has the new page n: count the old page down (an
      unsigned char, so 0 wraps to 255), copy it, and map the copy. */
  ghost function AfterCopy(m: Mm, d: int, e: int, f: nat, n: nat): Mm
    requires TablesOk(m) && UserSlot(d, e) && m.dir[d].PageTable? && HighFrame(n) && NoTable(m, n)
    requires f < FRAMES && m.phys[f].Bytes?
  {
    SetPte(m.(memMap := if HighFrame(f) then m.memMap[f - LOW_FRAMES := (Share(m.memMap, f) + 255) % 256] else m.memMap,
              phys := m.phys[n := Bytes(m.phys[f].page)]),
           d, e, Resident(n, true, false))
  }

  lemma CopyMapped(m: Mm, l: Ledger, d: int, e: int, n: nat)
    requires Inv(m, l) && UserSlot(d, e) && At(m, d, e).Resident?
    requires HighFrame(n) && n < m.high && Share(m.memMap, n) == Pins(l, n) == 1
    ensures m.dir[d].PageTable? && NoTable(m, n) && m.phys[At(m, d, e).frame].Bytes?
    ensures InvBut(AfterCopy(m, d, e, At(m, d, e).frame, n), Pin(l, n, 0), {(d, e)})
    ensures SameViews(m, l, AfterCopy(m, d, e, At(m, d, e).frame, n), Pin(l, n, 0))
    ensures At(AfterCopy(m, d, e, At(m, d, e).frame, n), d, e) == Resident(n, true, false)
  {
    var f := At(m, d, e).frame;
    PinnedAlone(m, l, {}, n);
    PinnedStep(m, l, {}, n, m.phys[f].page, 1);
    var m2 := m.(phys := m.phys[n := Bytes(m.phys[f].page)]);
    assert m2 == m.(memMap := m.memMap[n - LOW_FRAMES := 1], phys := m.phys[n := Bytes(m.phys[f].page)]);
    assert Pin(l, n, 1) == l;
    CopyOnWrite(m2, l, {}, d, e, n, false);
    StepKeepsInv(m2, l, d, e, Resident(n, true, false), Less(m2.memMap, f), m2.free, {}, {(d, e)});
    CopyIsStep(m, l, d, e, n);
  }

  lemma CopyIsStep(m: Mm, l: Ledger, d: int, e: int, n: nat)
    requires Inv(m, l) && UserSlot(d, e) && At(m, d, e).Resident? && HighFrame(n) && NoTable(m, n)
    ensures m.phys[At(m, d, e).frame].Bytes? && TablesOk(m.(phys := m.phys[n := Bytes(m.phys[At(m, d, e).frame].page)]))
    ensures AfterCopy(m, d, e, At(m, d, e).frame, n) ==
      Step(m.(phys := m.phys[n := Bytes(m.phys[At(m, d, e).frame].page)]), d, e, Resident(n, true, false), Less(m.memMap, At(m, d, e).frame), m.free)
  {
    if HighFrame(At(m, d, e).frame) { NamedFrame(m, l, {}, d, e); assert Counted(m, l, At(m, d, e).frame); }
  }

  /** The entry still names the shared page after the allocation: the copy is legal,
      nobody's memory changes, and only the lost dirty bit is outstanding. */
  lemma CopyLegal(m: Mm, l: Ledger, m1: Mm, l1: Ledger, d: int, e: int, n: nat)
    requires Obtained(m, l, m1, l1, n) && UserSlot(d, e) && At(m, d, e).Resident?
    requires At(m1, d, e) == At(m, d, e)
    ensures m1.dir[d].PageTable? && NoTable(m1, n) && m1.phys[At(m, d, e).frame].Bytes?
    ensures InvBut(AfterCopy(m1, d, e, At(m, d, e).frame, n), l, {(d, e)})
    ensures SameViews(m, l, AfterCopy(m1, d, e, At(m, d, e).frame, n), l)
    ensures At(AfterCopy(m1, d, e, At(m, d, e).frame, n), d, e) == Resident(n, true, false)
  {
    CopyMapped(m1, l1, d, e, n);
    assert Pin(l1, n, 0) == l by { assert Pin(l1, n, 0).pins == l.pins; }
    forall a, b | UserSlot(a, b)
      ensures View(AfterCopy(m1, d, e, At(m, d, e).frame, n), l, a, b) == View(m, l, a, b)
    {
      assert View(m1, l1, a, b) == View(m, l, a, b);
    }
  }

  lemma AfterCopyRefs(m: Mm, d: int, e: int, f: nat, n: nat)
    requires TablesOk(m) && UserSlot(d, e) && m.dir[d].PageTable? && HighFrame(f) && HighFrame(n) && NoTable(m, n) && m.phys[f].Bytes?
    ensures TablesOk(AfterCopy(m, d, e, f, n))
    ensures |Refs(AfterCopy(m, d, e, f, n), f)| == |Refs(m, f)| - B(Names(At(m, d, e), f)) + B(n == f)
    ensures TableUses(AfterCopy(m, d, e, f, n), f) == TableUses(m, f)
    ensures Share(AfterCopy(m, d, e, f, n).memMap, f) == (Share(m.memMap, f) + 255) % 256
  {
    var m2 := m.(memMap := m.memMap[f - LOW_FRAMES := (Share(m.memMap, f) + 255) % 256], phys := m.phys[n := Bytes(m.phys[f].page)]);
    assert TablesOk(m2);
    SetPteAt(m2, d, e, Resident(n, true, false));
    RefsAfter(m, AfterCopy(m, d, e, f, n), d, e, f);
  }

  /** The entry was itself evicted by the allocation: the count of the old page is then
      one too low (or, if the allocator handed out that very page, 0 while in use). */
  lemma CopyRaced(m: Mm, l: Ledger, m1: Mm, l1: Ledger, d: int, e: int, n: nat)
    requires Obtained(m, l, m1, l1, n) && UserSlot(d, e) && At(m, d, e).Resident? && HighFrame(At(m, d, e).frame)
    requires At(m1, d, e) != At(m, d, e)
    ensures m1.dir[d].PageTable? && NoTable(m1, n) && m1.phys[At(m, d, e).frame].Bytes?
    ensures TablesOk(AfterCopy(m1, d, e, At(m, d, e).frame, n))
    ensures !Counted(AfterCopy(m1, d, e, At(m, d, e).frame, n), l, At(m, d, e).frame)
  {
    var f := At(m, d, e).frame;
    assert Kept(At(m, d, e), At(m1, d, e));
    PinnedAlone(m1, l1, {}, n);
    assert m.phys[f].Bytes?;
    AfterCopyRefs(m1, d, e, f, n);
    assert Counted(m1, l1, f);
    assert Pins(l1, f) == if f == n then 1 else Pins(l, f);
  }

  /** un_wp_page keeps the share counts right exactly when its own entry outlives the
      allocation it makes. */
  lemma CopyKeepsCountsIff(m: Mm, l: Ledger, m1: Mm, l1: Ledger, d: int, e: int, n: nat)
    requires Obtained(m, l, m1, l1, n) && UserSlot(d, e) && At(m, d, e).Resident?
    ensures m1.dir[d].PageTable? && NoTable(m1, n) && m1.phys[At(m, d, e).frame].Bytes?
    ensures TablesOk(AfterCopy(m1, d, e, At(m, d, e).frame, n))
    ensures Counts(AfterCopy(m1, d, e, At(m, d, e).frame, n), l) <==> At(m1, d, e) == At(m, d, e)
  {
    assert Kept(At(m, d, e), At(m1, d, e));
    if At(m1, d, e) == At(m, d, e) {
      CopyLegal(m, l, m1, l1, d, e, n);
    } else {
      CopyRaced(m, l, m1, l1, d, e, n);
    }
  }

  /** Checked before the call, each of these is enough for the entry to survive. */
  ghost predicate CopySafe(m: Mm, d: int, e: int)
    requires TablesOk(m) && UserSlot(d, e)
  {
    At(m, d, e).Resident? && (FrameFree(m) || !HighFrame(At(m, d, e).frame) || SharedDirty(m, d, e))
  }

  lemma CopySafeSurvives(m: Mm, l: Ledger, m1: Mm, l1: Ledger, d: int, e: int, n: nat)
    requires Obtained(m, l, m1, l1, n) && UserSlot(d, e) && CopySafe(m, d, e)
    ensures At(m1, d, e) == At(m, d, e)
  {
    assert Kept(At(m, d, e), At(m1, d, e));
  }

  /** The copy is mapped without its dirty bit.  Left alone, it may be dropped as clean,
      so un_wp_page without the write it serves is harmless exactly for a page that
      still equals its backing store. */
  lemma CopyWithoutStoreIff(m: Mm, l: Ledger, m1: Mm, l1: Ledger, d: int, e: int, n: nat)
    requires Obtained(m, l, m1, l1, n) && UserSlot(d, e) && At(m, d, e).Resident? && At(m1, d, e) == At(m, d, e)
    ensures m1.dir[d].PageTable? && NoTable(m1, n) && m1.phys[At(m, d, e).frame].Bytes?
    ensures Inv(AfterCopy(m1, d, e, At(m, d, e).frame, n), l) <==> View(m, l, d, e) == l.backing(d, e)
  {
    CopyLegal(m, l, m1, l1, d, e, n);
    var m2 := AfterCopy(m1, d, e, At(m, d, e).frame, n);
    assert View(m2, l, d, e) == View(m, l, d, e);
    assert View(m2, l, d, e) == m2.phys[n].page;
    assert m2.phys[n].Bytes?;
  }

  // ---- stores ---------------------------------------------------------------------------

  /** One byte of one page of one task changed, and nothing else that any task can see. */
  ghost predicate Stored(m: Mm, l: Ledger, m': Mm, l': Ledger, d: int, e: int, off: nat, v: byte, hole: set<(int, int)>) {
    && InvBut(m, l, hole) && Inv(m', l') && l' == l && m'.dir == m.dir && UserSlot(d, e) && off < PAGE_SIZE
    && View(m', l', d, e) == View(m, l, d, e)[off := v]
    && (forall d', e' | UserSlot(d', e') && (d', e') != (d, e) :: View(m', l', d', e') == View(m, l, d', e'))
  }

  lemma StoredSince(m: Mm, l: Ledger, m1: Mm, m': Mm, d: int, e: int, off: nat, v: byte)
    requires Inv(m, l) && InvBut(m1, l, {(d, e)}) && m1.dir == m.dir && SameViews(m, l, m1, l) && Stored(m1, l, m', l, d, e, off, v, {(d, e)})
    ensures Stored(m, l, m', l, d, e, off, v, {})
  {
  }

  ghost function AfterStore(m: Mm, d: int, e: int, page: Page): Mm
    requires TablesOk(m) && UserSlot(d, e) && At(m, d, e).Resident? && At(m, d, e).frame < FRAMES
  {
    var f := At(m, d, e).frame;
    var m1 := SetPte(m, d, e, Resident(f, true, true));
    m1.(phys := m1.phys[f := Bytes(page)])
  }

  lemma StoreLegal(m: Mm, l: Ledger, d: int, e: int, off: nat, v: byte)
    requires InvBut(m, l, {(d, e)}) && UserSlot(d, e) && At(m, d, e).Resident? && At(m, d, e).writable && off < PAGE_SIZE
    ensures m.phys[At(m, d, e).frame].Bytes?
    ensures Stored(m, l, AfterStore(m, d, e, m.phys[At(m, d, e).frame].page[off := v]), l, d, e, off, v, {(d, e)})
  {
    var f := At(m, d, e).frame;
    var page: Page := m.phys[f].page[off := v];
    Reflag(m, l, {(d, e)}, d, e, true, true);
    StepKeepsInv(m, l, d, e, Resident(f, true, true), m.memMap, m.free, {(d, e)}, {});
    var m1 := SetPte(m, d, e, Resident(f, true, true));
    assert m1 == Step(m, d, e, Resident(f, true, true), m.memMap, m.free);
    StoreKeepsInv(m1, l, {}, d, e, page);
    assert m1.phys[f] == m.phys[f];
  }

  /** A store changes no share count and nothing that is counted. */
  lemma StoreKeepsCounts(m: Mm, l: Ledger, d: int, e: int, page: Page)
    requires TablesOk(m) && |l.pins| == PAGING_PAGES && UserSlot(d, e) && m.dir[d].PageTable?
    requires At(m, d, e).Resident? && At(m, d, e).frame < FRAMES && m.phys[At(m, d, e).frame].Bytes?
    ensures TablesOk(AfterStore(m, d, e, page)) && (Counts(AfterStore(m, d, e, page), l) <==> Counts(m, l))
  {
    var f, m' := At(m, d, e).frame, AfterStore(m, d, e, page);
    SetPteAt(m, d, e, Resident(f, true, true));
    assert TablesOk(m');
    forall g | HighFrame(g)
      ensures Counted(m', l, g) <==> Counted(m, l, g)
    {
      assert forall a, b | UserSlot(a, b) :: Names(At(m', a, b), g) <==> Names(At(m, a, b), g);
      assert Refs(m', g) == Refs(m, g) && TableUses(m', g) == TableUses(m, g);
    }
  }

  /** When a task may write a page it has in memory without a risk: the page is its own,
      or breaking the share is safe. */
  ghost predicate WriteSafe(m: Mm, d: int, e: int)
    requires TablesOk(m) && UserSlot(d, e)
  {
    && At(m, d, e).Resident? && At(m, d, e).frame < FRAMES
    && (At(m, d, e).writable || (HighFrame(At(m, d, e).frame) && Share(m.memMap, At(m, d, e).frame) == 1) || CopySafe(m, d, e))
  }

  /** un_wp_page did its work: the entry is writable and no task's memory changed. */
  ghost predicate Unshared(m: Mm, l: Ledger, m': Mm, l': Ledger, d: int, e: int) {
    && Inv(m, l) && UserSlot(d, e) && InvBut(m', l', {(d, e)}) && l' == l && m'.dir == m.dir && SameViews(m, l, m', l')
    && At(m', d, e).Resident? && At(m', d, e).writable
  }

  ghost predicate UnWpCopied(m: Mm, l: Ledger, mid: Mm, midL: Ledger, m': Mm, l': Ledger, d: int, e: int, n: nat) {
    && UserSlot(d, e) && Obtained(m, l, mid, midL, n) && At(m, d, e).Resident? && l' == l
    && mid.dir[d].PageTable? && NoTable(mid, n) && mid.phys[At(m, d, e).frame].Bytes?
    && m' == AfterCopy(mid, d, e, At(m, d, e).frame, n) && TablesOk(m')
    && At(m', d, e) == Resident(n, true, false) && m'.phys[n] == mid.phys[At(m, d, e).frame]
    && (Counts(m', l') <==> At(mid, d, e) == At(m, d, e))
    && (At(mid, d, e) == At(m, d, e) ==> Unshared(m, l, m', l', d, e))
  }

  lemma CopyPlaces(m: Mm, d: int, e: int, f: nat, n: nat)
    requires TablesOk(m) && UserSlot(d, e) && m.dir[d].PageTable? && HighFrame(n) && NoTable(m, n) && f < FRAMES && m.phys[f].Bytes?
    ensures TablesOk(AfterCopy(m, d, e, f, n))
    ensures At(AfterCopy(m, d, e, f, n), d, e) == Resident(n, true, false) && AfterCopy(m, d, e, f, n).phys[n] == m.phys[f]
    ensures forall a, b | UserSlot(a, b) && (a, b) != (d, e) :: At(AfterCopy(m, d, e, f, n), a, b) == At(m, a, b)
  {
    var m2 := m.(memMap := if HighFrame(f) then m.memMap[f - LOW_FRAMES := (Share(m.memMap, f) + 255) % 256] else m.memMap,
                 phys := m.phys[n := Bytes(m.phys[f].page)]);
    assert TablesOk(m2);
    SetPteAt(m2, d, e, Resident(n, true, false));
  }

  lemma CopyOutcome(m: Mm, l: Ledger, mid: Mm, midL: Ledger, d: int, e: int, n: nat)
    requires Obtained(m, l, mid, midL, n) && UserSlot(d, e) && At(m, d, e).Resident?
    ensures mid.dir[d].PageTable? && NoTable(mid, n) && mid.phys[At(m, d, e).frame].Bytes?
    ensures UnWpCopied(m, l, mid, midL, AfterCopy(mid, d, e, At(m, d, e).frame, n), l, d, e, n)
    ensures CopySafe(m, d, e) ==> At(mid, d, e) == At(m, d, e)
    ensures Pin(midL, n, 0) == l
  {
    CopyKeepsCountsIff(m, l, mid, midL, d, e, n);
    CopyPlaces(mid, d, e, At(m, d, e).frame, n);
    if CopySafe(m, d, e) { CopySafeSurvives(m, l, mid, midL, d, e, n); }
    if At(mid, d, e) == At(m, d, e) { CopyLegal(m, l, mid, midL, d, e, n); }
    assert Pin(midL, n, 0).pins == l.pins;
  }

  lemma MadeWritable(m: Mm, l: Ledger, d: int, e: int)
    requires Inv(m, l) && UserSlot(d, e) && At(m, d, e).Resident?
    requires HighFrame(At(m, d, e).frame) && Share(m.memMap, At(m, d, e).frame) == 1
    ensures Unshared(m, l, SetPte(m, d, e, At(m, d, e).(writable := true)), l, d, e)
    ensures Inv(SetPte(m, d, e, At(m, d, e).(writable := true)), l)
  {
    var x := At(m, d, e).(writable := true);
    Reflag(m, l, {}, d, e, true, x.dirty);
    StepKeepsInv(m, l, d, e, x, m.memMap, m.free, {}, {});
    assert SetPte(m, d, e, x) == Step(m, d, e, x, m.memMap, m.free);
    assert View(SetPte(m, d, e, x), l, d, e) == View(m, l, d, e);
  }

  // ---- new page tables and new pages ------------------------------------------------------

  /** Directory slot d got an empty page table; no task's memory changed. */
  ghost predicate TableAdded(m: Mm, l: Ledger, m': Mm, l': Ledger, d: int) {
    && Inv(m, l) && Inv(m', l') && l' == l && FIRST_DIR <= d < ENTRIES && m.dir[d].Absent? && m'.dir[d].PageTable?
    && m'.dir == m.dir[d := m'.dir[d]] && m'.high == m.high && m'.pg0 == m.pg0 && SameViews(m, l, m', l')
    && (forall a, b | UserSlot(a, b) :: Kept(At(m, a, b), At(m', a, b)))
    && (FrameFree(m) ==> SameEntries(m, m'))
    && (forall g | HighFrame(g) && m.phys[g].Bytes? && Pins(l, g) > 0 :: m'.phys[g] == m.phys[g])
    && (forall g | 0 <= g < LOW_FRAMES :: m'.phys[g] == m.phys[g])
  }

  lemma TableAddedAfter(m: Mm, l: Ledger, m1: Mm, l1: Ledger, d: int, f: nat)
    requires Obtained(m, l, m1, l1, f) && FIRST_DIR <= d < ENTRIES && m.dir[d].Absent?
    ensures TableAdded(m, l, InstallTable(m1, d, f), l, d) && Pin(l1, f, 0) == l
  {
    InstallTableKeepsInv(m1, l1, {}, d, f);
    assert Pin(l1, f, 0) == l by { assert Pin(l1, f, 0).pins == l.pins; }
    var m2 := InstallTable(m1, d, f);
    forall a, b | UserSlot(a, b)
      ensures View(m2, l, a, b) == View(m, l, a, b) && Kept(At(m, a, b), At(m2, a, b))
    {
      assert View(m1, l1, a, b) == View(m, l, a, b);
      assert Kept(At(m, a, b), At(m1, a, b));
    }
  }

  /** Page f, until now in the kernel's hand, is mapped at (d, e). */
  ghost predicate Mapped(m: Mm, l: Ledger, m': Mm, l': Ledger, d: int, e: int, f: nat, dirty: bool) {
    && Inv(m, l) && Inv(m', l') && UserSlot(d, e) && HighFrame(f) && m.phys[f].Bytes? && l' == Pin(l, f, 0)
    && At(m', d, e) == Resident(f, true, dirty) && View(m', l', d, e) == m.phys[f].page
    && (forall a, b | UserSlot(a, b) && (a, b) != (d, e) :: View(m', l', a, b) == View(m, l, a, b))
  }

  /** A page in the kernel's hand, for an empty place, and clean only if it is what would be
      loaded there. */
  ghost predicate InHand(m: Mm, l: Ledger, f: nat, d: int, e: int, dirty: bool) {
    && TablesOk(m) && UserSlot(d, e) && |l.pins| == PAGING_PAGES && At(m, d, e).Empty?
    && HighFrame(f) && f < m.high && Share(m.memMap, f) == Pins(l, f) == 1 && m.phys[f].Bytes?
    && (!dirty ==> m.phys[f].page == l.backing(d, e))
  }

  lemma MappedFresh(m: Mm, l: Ledger, d: int, e: int, f: nat, dirty: bool)
    requires Inv(m, l) && UserSlot(d, e) && At(m, d, e).Empty? && m.dir[d].PageTable?
    requires HighFrame(f) && f < m.high && Share(m.memMap, f) == Pins(l, f) == 1 && m.phys[f].Bytes?
    requires !dirty ==> m.phys[f].page == l.backing(d, e)
    ensures Mapped(m, l, SetPte(m, d, e, Resident(f, true, dirty)), Pin(l, f, 0), d, e, f, dirty)
  {
    var x := Resident(f, true, dirty);
    MapFresh(m, l, {}, d, e, f, dirty);
    StepKeepsInv(m, l, d, e, x, m.memMap, m.free, {}, {});
    PinnedAlone(m, l, {}, f);
    assert SetPte(m, d, e, x) == Step(m, d, e, x, m.memMap, m.free);
  }

  lemma MappedAfterTable(m: Mm, l: Ledger, m1: Mm, m2: Mm, l2: Ledger, d: int, e: int, f: nat, dirty: bool)
    requires TableAdded(m, l, m1, l, d) && Mapped(m1, l, m2, l2, d, e, f, dirty)
    requires m.phys[f].Bytes? && Pins(l, f) > 0
    ensures Mapped(m, l, m2, l2, d, e, f, dirty)
  {
    forall a, b | UserSlot(a, b) && (a, b) != (d, e)
      ensures View(m2, l2, a, b) == View(m, l, a, b)
    {
      assert View(m1, l, a, b) == View(m, l, a, b);
    }
  }

  /** (td, e) now shows what (fd, e) shows; every other place shows what it showed. */
  ghost predicate Duplicated(m: Mm, l: Ledger, m': Mm, l': Ledger, fd: int, td: int, e: int) {
    && Inv(m, l) && Inv(m', l') && l' == l && UserSlot(fd, e) && UserSlot(td, e) && m'.dir == m.dir && m'.high == m.high && m'.pg0 == m.pg0
    && View(m', l', td, e) == View(m, l, fd, e)
    && (forall a, b | UserSlot(a, b) && (a, b) != (td, e) :: View(m', l', a, b) == View(m, l, a, b))
    && (forall a, b | UserSlot(a, b) && (a, b) != (td, e) && At(m, a, b).Empty? :: At(m', a, b).Empty?)
  }

  /** What the fork of one entry leaves in both tables: a page in memory is shared read-only
      and counted once more; of a page in a swap slot the child keeps the slot, and the parent
      has a copy. */
  ghost predicate EntryCopied(m: Mm, m': Mm, fd: int, td: int, e: int)
    requires TablesOk(m) && TablesOk(m') && UserSlot(fd, e) && UserSlot(td, e)
  {
    match At(m, fd, e)
    case Empty => At(m', td, e).Empty? && At(m', fd, e).Empty?
    case OnSwap(s) => At(m', td, e) == OnSwap(s) && At(m', fd, e).Resident? && At(m', fd, e).writable && At(m', fd, e).dirty
    case Resident(f, _, dirty) =>
      At(m', td, e) == At(m', fd, e) == Resident(f, false, dirty) && (HighFrame(f) ==> Share(m'.memMap, f) == Share(m.memMap, f) + 1)
  }

  lemma ShareCopies(m: Mm, l: Ledger, df: int, dt: int, e: int)
    requires Inv(m, l) && UserSlot(df, e) && UserSlot(dt, e) && df != dt && df % TASK_DIRS == dt % TASK_DIRS
    requires m.dir[df].PageTable? && m.dir[dt].PageTable? && At(m, dt, e).Empty? && At(m, df, e).Resident?
    requires l.backing(df, e) == l.backing(dt, e)
    ensures Duplicated(m, l, AfterShare(m, df, dt, e), l, df, dt, e)
    ensures EntryCopied(m, AfterShare(m, df, dt, e), df, dt, e)
    ensures HighFrame(At(m, df, e).frame) ==> Share(m.memMap, At(m, df, e).frame) <= 63
  {
    ShareLegal(m, l, df, dt, e);
    var x := At(m, df, e).(writable := false);
    SetPteAt(m, df, e, x);
    SetPteAt(SetPte(m, df, e, x), dt, e, x);
    assert At(AfterShare(m, df, dt, e), dt, e) == At(SetPte(SetPte(m, df, e, x), dt, e, x), dt, e);
  }

  ghost predicate BothReadOnly(m: Mm, m': Mm, fd: int, td: int, e: int)
    requires TablesOk(m) && TablesOk(m') && UserSlot(fd, e) && UserSlot(td, e)
  {
    && At(m', fd, e).Resident? && !At(m', fd, e).writable && At(m', td, e) == At(m', fd, e)
    && (HighFrame(At(m', fd, e).frame) ==>
          Share(m'.memMap, At(m', fd, e).frame) == Share(m.memMap, At(m', fd, e).frame) + 1)
  }

  ghost function AfterShare(m: Mm, df: int, dt: int, e: int): Mm
    requires TablesOk(m) && UserSlot(df, e) && UserSlot(dt, e) && m.dir[df].PageTable? && m.dir[dt].PageTable? && At(m, df, e).Resident?
  {
    var x := At(m, df, e).(writable := false);
    SetPteTablesOk(m, df, e, x);
    SetPte(SetPte(m, df, e, x), dt, e, x).(memMap := More(m.memMap, x.frame))
  }

  /** Writing the two entries in either order is the same, and an entry of a kernel page
      is read-only already. */
  lemma SharedEitherWay(m: Mm, df: int, dt: int, e: int)
    requires TablesOk(m) && UserSlot(df, e) && UserSlot(dt, e) && df != dt && m.dir[df].PageTable? && m.dir[dt].PageTable?
    requires At(m, df, e).Resident?
    requires !HighFrame(At(m, df, e).frame) ==> !At(m, df, e).writable
    ensures var x := At(m, df, e).(writable := false);
            TablesOk(SetPte(m, dt, e, x)) && AfterShare(m, df, dt, e) ==
            (if HighFrame(x.frame) then SetPte(SetPte(m, dt, e, x), df, e, x).(memMap := More(m.memMap, x.frame)) else SetPte(m, dt, e, x))
  {
    var x := At(m, df, e).(writable := false);
    SetPteTablesOk(m, df, e, x);
    SetPteTablesOk(m, dt, e, x);
    assert OwnTable(m.dir, df);
    var f, t := m.dir[df].frame, m.dir[dt].frame;
    if HighFrame(x.frame) {
      assert SetPte(SetPte(m, dt, e, x), df, e, x).phys == SetPte(SetPte(m, df, e, x), dt, e, x).phys;
    } else {
      assert m.phys[f].ptes[e := x] == m.phys[f].ptes;
      assert SetPte(m, df, e, x).phys == m.phys;
    }
  }

  lemma SetPteTablesOk(m: Mm, d: int, e: int, x: Pte)
    requires TablesOk(m) && UserSlot(d, e) && m.dir[d].PageTable?
    ensures TablesOk(SetPte(m, d, e, x))
  {
    SetPteAt(m, d, e, x);
  }

  lemma ShareLegal(m: Mm, l: Ledger, df: int, dt: int, e: int)
    requires Inv(m, l) && UserSlot(df, e) && UserSlot(dt, e) && df != dt && df % TASK_DIRS == dt % TASK_DIRS
    requires m.dir[df].PageTable? && m.dir[dt].PageTable? && At(m, dt, e).Empty? && At(m, df, e).Resident?
    requires l.backing(df, e) == l.backing(dt, e)
    ensures Duplicated(m, l, AfterShare(m, df, dt, e), l, df, dt, e)
    ensures BothReadOnly(m, AfterShare(m, df, dt, e), df, dt, e)
    ensures HighFrame(At(m, df, e).frame) ==> Share(m.memMap, At(m, df, e).frame) <= 63
  {
    SourceReadOnly(m, l, df, e);
    var f := At(m, df, e).frame;
    var x := At(m, df, e).(writable := false);
    var m1 := SetPte(m, df, e, x);
    SecondEntry(m1, l, df, dt, e);
    assert AfterShare(m, df, dt, e) == Step(m1, dt, e, x, More(m1.memMap, f), m1.free);
    LessMoreAt(m.memMap, f);
  }

  /** A read-only entry is copied to the other task's table and its page counted up. */
  lemma SecondEntry(m: Mm, l: Ledger, df: int, dt: int, e: int)
    requires Inv(m, l) && UserSlot(df, e) && UserSlot(dt, e) && df != dt && df % TASK_DIRS == dt % TASK_DIRS
    requires m.dir[dt].PageTable? && At(m, dt, e).Empty? && At(m, df, e).Resident? && !At(m, df, e).writable
    requires l.backing(df, e) == l.backing(dt, e)
    ensures var x := At(m, df, e);
      var g := Step(m, dt, e, x, More(m.memMap, x.frame), m.free);
      && Inv(g, l) && View(g, l, dt, e) == View(m, l, df, e)
      && (forall a, b | UserSlot(a, b) :: At(g, a, b) == if a == dt && b == e then x else At(m, a, b))
      && (forall a, b | UserSlot(a, b) && (a, b) != (dt, e) :: View(g, l, a, b) == View(m, l, a, b))
      && (HighFrame(x.frame) ==> Share(m.memMap, x.frame) <= 63)
  {
    var x := At(m, df, e);
    ShareEntry(m, l, {}, df, e, dt);
    StepKeepsInv(m, l, dt, e, x, More(m.memMap, x.frame), m.free, {}, {});
  }

  /** The source's entry loses its write permission first. */
  lemma SourceReadOnly(m: Mm, l: Ledger, df: int, e: int)
    requires Inv(m, l) && UserSlot(df, e) && m.dir[df].PageTable? && At(m, df, e).Resident?
    ensures var x := At(m, df, e).(writable := false);
      && Inv(SetPte(m, df, e, x), l)
      && SetPte(m, df, e, x) == Step(m, df, e, x, m.memMap, m.free)
  {
    var x := At(m, df, e).(writable := false);
    Reflag(m, l, {}, df, e, false, x.dirty);
    StepKeepsInv(m, l, df, e, x, m.memMap, m.free, {}, {});
  }

  /** *from_page &= ~2, whatever the word is by now. */
  function ReadOnly(p: Pte): Pte {
    match p
    case Empty => Empty
    case Resident(f, _, dirty) => Resident(f, false, dirty)
    case OnSwap(s) => if s / 2 == 0 then Empty else OnSwap(s / 2 * 2)
  }

  /** What try_to_share does once the page table is there: the entry as it is by now is
      made read-only and copied, and the page it named before is counted up. */
  ghost function AfterShareOf(m: Mm, df: int, dt: int, e: int, f: nat): Mm
    requires TablesOk(m) && UserSlot(df, e) && UserSlot(dt, e) && m.dir[df].PageTable? && m.dir[dt].PageTable? && HighFrame(f)
  {
    var x := ReadOnly(At(m, df, e));
    SetPteTablesOk(m, df, e, x);
    SetPte(SetPte(m, df, e, x), dt, e, x).(memMap := m.memMap[f - LOW_FRAMES := (Share(m.memMap, f) + 1) % 256])
  }

  /** The source was evicted by the allocation of the page table: its page is counted up
      although no entry was added. */
  lemma ShareRaced(m: Mm, l: Ledger, df: int, dt: int, e: int, f: nat)
    requires Inv(m, l) && UserSlot(df, e) && UserSlot(dt, e) && df != dt && m.dir[df].PageTable? && m.dir[dt].PageTable?
    requires HighFrame(f) && !At(m, df, e).Resident? && At(m, dt, e).Empty?
    ensures TablesOk(AfterShareOf(m, df, dt, e, f)) && !Counts(AfterShareOf(m, df, dt, e, f), l)
  {
    var x, m' := ReadOnly(At(m, df, e)), AfterShareOf(m, df, dt, e, f);
    SetPteAt(m, df, e, x);
    SetPteAt(SetPte(m, df, e, x), dt, e, x);
    assert TablesOk(m');
    assert forall a, b | UserSlot(a, b) :: Names(At(m', a, b), f) <==> Names(At(m, a, b), f);
    assert Refs(m', f) == Refs(m, f) && TableUses(m', f) == TableUses(m, f);
    assert Counted(m, l, f) && !Counted(m', l, f);
  }

  /** A page that try_to_share takes: in memory, clean, and not the kernel's. */
  ghost predicate Offered(m: Mm, df: int, e: int) {
    && TablesOk(m) && UserSlot(df, e) && At(m, df, e).Resident? && !At(m, df, e).dirty
    && HighFrame(At(m, df, e).frame) && At(m, df, e).frame < m.high
  }

  /** Sharing went on from the state `mid` in which the page table was there. */
  ghost predicate SharedAfter(m: Mm, l: Ledger, mid: Mm, m': Mm, l': Ledger, df: int, dt: int, e: int) {
    && Offered(m, df, e) && UserSlot(dt, e) && l' == l && |l.pins| == PAGING_PAGES && TablesOk(mid) && TablesOk(m')
    && (mid == m || TableAdded(m, l, mid, l, dt)) && mid.dir[df].PageTable? && mid.dir[dt].PageTable?
    && m' == AfterShareOf(mid, df, dt, e, At(m, df, e).frame)
    && (Counts(m', l') <==> At(mid, df, e) == At(m, df, e))
    && (At(mid, df, e) == At(m, df, e) ==> NothingLost(m, l, m', l') && At(m', dt, e) == At(m', df, e) == ReadOnly(At(m, df, e)))
  }

  /** Some other task that runs the same image has the page to share. */
  ghost predicate PeerOffers(m: Mm, peers: seq<bool>, d: int, e: int) {
    exists t {:trigger peers[t]} | 0 < t < |peers| :: t != d / TASK_DIRS && peers[t] && Offered(m, TASK_DIRS * t + d % TASK_DIRS, e)
  }

  /** The page is shared with the last such task, both read-only. */
  ghost predicate SharedWithPeer(m: Mm, m': Mm, peers: seq<bool>, d: int, e: int) {
    exists t {:trigger peers[t]} | 0 < t < |peers| :: LastPeer(m, peers, d, e, t) && SharesWith(m, m', TASK_DIRS * t + d % TASK_DIRS, d, e)
  }

  ghost predicate LastPeer(m: Mm, peers: seq<bool>, d: int, e: int, t: int)
    requires 0 < t < |peers|
  {
    && t != d / TASK_DIRS && peers[t] && Offered(m, TASK_DIRS * t + d % TASK_DIRS, e)
    && forall u {:trigger peers[u]} | t < u < |peers| && u != d / TASK_DIRS && peers[u] :: !Offered(m, TASK_DIRS * u + d % TASK_DIRS, e)
  }

  ghost predicate SharesWith(m: Mm, m': Mm, df: int, dt: int, e: int) {
    && TablesOk(m) && TablesOk(m') && UserSlot(df, e) && UserSlot(dt, e) && At(m, df, e).Resident?
    && At(m', dt, e) == At(m', df, e) == Resident(At(m, df, e).frame, false, false)
  }

  /** try_to_share after its allocation, if it made one: all is well exactly if the source's
      entry is still there. */
  lemma ShareOutcome(m: Mm, m1: Mm, l: Ledger, df: int, dt: int, e: int)
    requires m1 == m || TableAdded(m, l, m1, l, dt)
    requires Inv(m, l) && UserSlot(df, e) && UserSlot(dt, e) && df != dt && df % TASK_DIRS == dt % TASK_DIRS
    requires m1.dir[df].PageTable? && m1.dir[dt].PageTable? && At(m, dt, e).Empty?
    requires At(m, df, e).Resident? && !At(m, df, e).dirty && HighFrame(At(m, df, e).frame) && l.backing(df, e) == l.backing(dt, e)
    ensures var m2 := AfterShareOf(m1, df, dt, e, At(m, df, e).frame);
      && TablesOk(m2) && (Counts(m2, l) <==> At(m1, df, e) == At(m, df, e))
      && (At(m1, df, e) == At(m, df, e) ==> NothingLost(m, l, m2, l) && At(m2, dt, e) == At(m2, df, e) == ReadOnly(At(m, df, e)))
    ensures m1 == m || FrameFree(m) ==> At(m1, df, e) == At(m, df, e)
  {
    var f := At(m, df, e).frame;
    assert m1 != m ==> Kept(At(m, df, e), At(m1, df, e)) && Kept(At(m, dt, e), At(m1, dt, e));
    if At(m1, df, e) == At(m, df, e) {
      ShareLegal(m1, l, df, dt, e);
      SharedNothingLost(m, m1, l, df, dt, e);
      assert AfterShareOf(m1, df, dt, e, f) == AfterShare(m1, df, dt, e);
    } else {
      ShareRaced(m1, l, df, dt, e, f);
    }
  }

  // ---- copying an address space ---------------------------------------------------------------

  /** memory.c:236-238: the child keeps the swap slot, the parent gets a resident copy. */
  ghost function AfterSlotHandover(m: Mm, fd: int, td: int, e: int, n: nat): Mm
    requires TablesOk(m) && UserSlot(fd, e) && UserSlot(td, e) && m.dir[fd].PageTable? && m.dir[td].PageTable?
    requires At(m, fd, e).OnSwap? && At(m, fd, e).slot < SWAP_BITS && HighFrame(n) && NoTable(m, n)
  {
    var m1 := m.(phys := m.phys[n := Bytes(m.swap[At(m, fd, e).slot])]);
    SetPteTablesOk(m1, td, e, At(m, fd, e));
    SetPte(SetPte(m1, td, e, At(m, fd, e)), fd, e, Resident(n, true, true))
  }

  lemma HandoverIsTwoSteps(m: Mm, l: Ledger, fd: int, td: int, e: int, n: nat)
    requires Inv(m, l) && UserSlot(fd, e) && UserSlot(td, e) && fd != td
    requires m.dir[fd].PageTable? && m.dir[td].PageTable? && At(m, fd, e).OnSwap? && At(m, fd, e).slot < SWAP_BITS
    requires HighFrame(n) && NoTable(m, n) && !m.free[At(m, fd, e).slot]
    requires TablesOk(m.(phys := m.phys[n := Bytes(m.swap[At(m, fd, e).slot])]))
    requires TablesOk(InFromSwap(m, fd, e, n))
    ensures AfterSlotHandover(m, fd, td, e, n) ==
      Step(InFromSwap(m, fd, e, n), td, e, At(m, fd, e), m.memMap, InFromSwap(m, fd, e, n).free[At(m, fd, e).slot := false])
  {
    assert OwnTable(m.dir, fd);
    var a := AfterSlotHandover(m, fd, td, e, n);
    var b := Step(InFromSwap(m, fd, e, n), td, e, At(m, fd, e), m.memMap, InFromSwap(m, fd, e, n).free[At(m, fd, e).slot := false]);
    assert a.phys == b.phys;
    assert a.free == b.free;
  }

  lemma SlotGiven(m: Mm, l: Ledger, d: int, e: int, s: nat)
    requires Inv(m, l) && UserSlot(d, e) && At(m, d, e).Empty? && m.dir[d].PageTable? && s < SWAP_BITS && m.swapOn && m.free[s]
    ensures var g := Step(m, d, e, OnSwap(s), m.memMap, m.free[s := false]);
      && Inv(g, l) && At(g, d, e) == OnSwap(s) && g.swap == m.swap
      && (forall a, b | UserSlot(a, b) && (a, b) != (d, e) :: At(g, a, b) == At(m, a, b) && View(g, l, a, b) == View(m, l, a, b))
  {
    GiveSlot(m, l, {}, d, e, s);
    StepKeepsInv(m, l, d, e, OnSwap(s), m.memMap, m.free[s := false], {}, {});
  }

  lemma SlotHandoverLegal(m: Mm, l: Ledger, fd: int, td: int, e: int, n: nat)
    requires Inv(m, l) && UserSlot(fd, e) && UserSlot(td, e) && fd != td
    requires m.dir[fd].PageTable? && m.dir[td].PageTable? && At(m, td, e).Empty? && At(m, fd, e).OnSwap?
    requires HighFrame(n) && n < m.high && Share(m.memMap, n) == Pins(l, n) == 1
    ensures At(m, fd, e).slot < SWAP_BITS && NoTable(m, n)
    ensures Inv(AfterSlotHandover(m, fd, td, e, n), Pin(l, n, 0))
    ensures View(AfterSlotHandover(m, fd, td, e, n), Pin(l, n, 0), td, e) == View(m, l, fd, e)
    ensures forall a, b | UserSlot(a, b) && (a, b) != (td, e) ::
      View(AfterSlotHandover(m, fd, td, e, n), Pin(l, n, 0), a, b) == View(m, l, a, b)
    ensures forall a, b | UserSlot(a, b) && (a, b) != (td, e) && At(m, a, b).Empty? :: At(AfterSlotHandover(m, fd, td, e, n), a, b).Empty?
    ensures At(AfterSlotHandover(m, fd, td, e, n), td, e) == At(m, fd, e)
  {
    var s := At(m, fd, e).slot;
    SwappedIn(m, l, fd, e, n);
    PinnedAlone(m, l, {}, n);
    var m1 := InFromSwap(m, fd, e, n);
    var l1 := Pin(l, n, 0);
    NamedSlot(m, l, {}, fd, e);
    assert At(m1, td, e).Empty?;
    SlotGiven(m1, l1, td, e, s);
    assert m1.memMap == m.memMap;
    HandoverIsTwoSteps(m, l, fd, td, e, n);
  }

  lemma HandoverDuplicates(m: Mm, l: Ledger, m1: Mm, l1: Ledger, fd: int, td: int, e: int, n: nat)
    requires Obtained(m, l, m1, l1, n) && UserSlot(fd, e) && UserSlot(td, e) && fd != td
    requires m.dir[fd].PageTable? && m.dir[td].PageTable? && At(m, td, e).Empty? && At(m, fd, e).OnSwap?
    ensures At(m1, fd, e) == At(m, fd, e) && At(m, fd, e).slot < SWAP_BITS && NoTable(m1, n)
    ensures Duplicated(m, l, AfterSlotHandover(m1, fd, td, e, n), l, fd, td, e)
    ensures Pin(l1, n, 0) == l
    ensures EntryCopied(m, AfterSlotHandover(m1, fd, td, e, n), fd, td, e)
  {
    assert Kept(At(m, fd, e), At(m1, fd, e)) && Kept(At(m, td, e), At(m1, td, e));
    SlotHandoverLegal(m1, l1, fd, td, e, n);
    assert Pin(l1, n, 0) == l by { assert Pin(l1, n, 0).pins == l.pins; }
    var m2 := AfterSlotHandover(m1, fd, td, e, n);
    forall a, b | UserSlot(a, b) && (a, b) != (td, e)
      ensures View(m2, l, a, b) == View(m, l, a, b)
      ensures At(m, a, b).Empty? ==> At(m2, a, b).Empty?
    {
      assert View(m1, l1, a, b) == View(m, l, a, b);
      assert Kept(At(m, a, b), At(m1, a, b));
    }
    assert View(m1, l1, fd, e) == View(m, l, fd, e);
  }

  /** The kernel's page e, shown read-only at (td, e). */
  ghost predicate KernelPageShown(m: Mm, l: Ledger, m': Mm, l': Ledger, td: int, e: int) {
    && Inv(m, l) && Inv(m', l') && l' == l && UserSlot(td, e) && e < LOW_FRAMES && m'.dir == m.dir && m'.high == m.high && m'.pg0 == m.pg0
    && m.phys[e] == Bytes(View(m', l', td, e)) && m'.phys[e] == m.phys[e]
    && (forall a, b | UserSlot(a, b) && (a, b) != (td, e) :: View(m', l', a, b) == View(m, l, a, b))
    && (forall a, b | UserSlot(a, b) && (a, b) != (td, e) && At(m, a, b).Empty? :: At(m', a, b).Empty?)
    && (forall f | 0 <= f < LOW_FRAMES :: m'.phys[f] == m.phys[f])
  }

  lemma KernelPageLegal(m: Mm, l: Ledger, td: int, e: int, dirty: bool)
    requires Inv(m, l) && UserSlot(td, e) && e < LOW_FRAMES && m.dir[td].PageTable? && At(m, td, e).Empty?
    ensures KernelPageShown(m, l, SetPte(m, td, e, Resident(e, false, dirty)), l, td, e)
  {
    var x := Resident(e, false, dirty);
    MapKernelPage(m, l, {}, td, e, e, dirty);
    StepKeepsInv(m, l, td, e, x, m.memMap, m.free, {}, {});
    assert SetPte(m, td, e, x) == Step(m, td, e, x, m.memMap, m.free);
    assert m.phys[e].Bytes?;
  }

  /** The memory of every task is as before (page tables may have been added). */
  ghost predicate NothingLost(m: Mm, l: Ledger, m': Mm, l': Ledger) {
    Inv(m, l) && Inv(m', l') && l' == l && SameViews(m, l, m', l')
  }

  lemma SharedNothingLost(m: Mm, m1: Mm, l: Ledger, df: int, dt: int, e: int)
    requires m1 == m || TableAdded(m, l, m1, l, dt)
    requires UserSlot(df, e) && UserSlot(dt, e) && Inv(m, l) && Inv(m1, l) && m1.dir[df].PageTable? && m1.dir[dt].PageTable?
    requires At(m1, df, e).Resident? && !At(m1, df, e).dirty && HighFrame(At(m1, df, e).frame) && At(m1, dt, e).Empty?
    requires l.backing(df, e) == l.backing(dt, e)
    requires Duplicated(m1, l, AfterShare(m1, df, dt, e), l, df, dt, e)
    ensures NothingLost(m, l, AfterShare(m1, df, dt, e), l)
  {
    var m2 := AfterShare(m1, df, dt, e);
    assert View(m1, l, df, e) == l.backing(df, e);
    forall a, b | UserSlot(a, b)
      ensures View(m2, l, a, b) == View(m, l, a, b)
    {
      assert View(m1, l, a, b) == View(m, l, a, b);
    }
  }

  lemma PinnedShare(m: Mm, l: Ledger, f: nat)
    requires Inv(m, l) && HighFrame(f) && Pins(l, f) == 1
    ensures Share(m.memMap, f) == 1
  {
    assert Counted(m, l, f);
    assert Refs(m, f) == {};
    assert TableUses(m, f) == {};
  }

  /** A page in hand is mapped, after the allocation of a page table or without one. */
  lemma HandMapped(m: Mm, l: Ledger, m1: Mm, d: int, e: int, f: nat, dirty: bool)
    requires Inv(m, l) && UserSlot(d, e) && (m1 == m || TableAdded(m, l, m1, l, d)) && m1.dir[d].PageTable?
    ensures InHand(m, l, f, d, e, dirty) ==> Mapped(m, l, SetPte(m1, d, e, Resident(f, true, dirty)), Pin(l, f, 0), d, e, f, dirty)
  {
    if InHand(m, l, f, d, e, dirty) {
      if m1 == m {
        MappedFresh(m, l, d, e, f, dirty);
      } else {
        assert Kept(At(m, d, e), At(m1, d, e));
        PinnedShare(m1, l, f);
        MappedFresh(m1, l, d, e, f, dirty);
        MappedAfterTable(m, l, m1, SetPte(m1, d, e, Resident(f, true, dirty)), Pin(l, f, 0), d, e, f, dirty);
      }
    }
  }

  lemma FillInHand(m: Mm, l: Ledger, m1: Mm, l1: Ledger, f: nat, page: Page)
    requires Obtained(m, l, m1, l1, f)
    ensures Inv(m1.(phys := m1.phys[f := Bytes(page)]), l1)
    ensures SameViews(m, l, m1.(phys := m1.phys[f := Bytes(page)]), l1)
    ensures forall d, e | UserSlot(d, e) :: At(m1.(phys := m1.phys[f := Bytes(page)]), d, e) == At(m1, d, e)
  {
    assert Pin(l1, f, 1) == l1 by { assert Pin(l1, f, 1).pins == l1.pins; }
    PinnedStep(m1, l1, {}, f, page, 1);
    var m2 := m1.(phys := m1.phys[f := Bytes(page)]);
    assert m2 == m1.(memMap := m1.memMap[f - LOW_FRAMES := 1], phys := m1.phys[f := Bytes(page)]);
    forall d, e | UserSlot(d, e)
      ensures View(m2, l1, d, e) == View(m, l, d, e)
    {
      assert View(m1, l1, d, e) == View(m, l, d, e);
    }
  }

  lemma LoadedNothingLost(m: Mm, l: Ledger, m2: Mm, l1: Ledger, m3: Mm, l3: Ledger, d: int, e: int, f: nat)
    requires Inv(m, l) && Inv(m2, l1) && SameViews(m, l, m2, l1) && HighFrame(f) && Pins(l, f) == 0 && l1 == Pin(l, f, 1)
    requires Mapped(m2, l1, m3, l3, d, e, f, false) && m2.phys[f].page == l.backing(d, e) && At(m, d, e).Empty?
    ensures NothingLost(m, l, m3, l3)
  {
    assert l3 == l by { assert l3.pins == l.pins; }
    forall a, b | UserSlot(a, b)
      ensures View(m3, l3, a, b) == View(m, l, a, b)
    {
      assert View(m2, l1, a, b) == View(m, l, a, b);
    }
  }

  /** A frame in hand is given back. */
  lemma GiveUp(m: Mm, l: Ledger, m2: Mm, m3: Mm, l1: Ledger, f: nat)
    requires Inv(m, l) && HighFrame(f) && Pins(l, f) == 0 && l1 == Pin(l, f, 1) && f < m3.high
    requires Unseen(m2, l1, m3, l1) && SameViews(m, l, m2, l1) && m2.phys[f].Bytes?
    ensures Share(m3.memMap, f) == 1
    ensures NothingLost(m, l, m3.(memMap := Less(m3.memMap, f)), Pin(l1, f, 0)) && Pin(l1, f, 0) == l
  {
    PinnedShare(m3, l1, f);
    PinnedStep(m3, l1, {}, f, m3.phys[f].page, 0);
    assert Pin(l1, f, 0) == l by { assert Pin(l1, f, 0).pins == l.pins; }
    var m4 := m3.(memMap := Less(m3.memMap, f));
    assert m4 == m3.(memMap := m3.memMap[f - LOW_FRAMES := 0], phys := m3.phys[f := m3.phys[f]]);
    forall a, b | UserSlot(a, b)
      ensures View(m4, l, a, b) == View(m, l, a, b)
    {
      assert View(m3, l1, a, b) == View(m2, l1, a, b) && View(m2, l1, a, b) == View(m, l, a, b);
    }
  }

  // ---- releasing an address space ------------------------------------------------------------

  /** The entry is gone; nobody else's memory changed. */
  ghost predicate Released(m: Mm, l: Ledger, m': Mm, l': Ledger, d: int, e: int) {
    && Inv(m, l) && Inv(m', l') && l' == l && UserSlot(d, e) && m'.dir == m.dir && m'.high == m.high && m'.swapOn == m.swapOn
    && (forall a, b | UserSlot(a, b) :: At(m', a, b) == if (a, b) == (d, e) then Empty else At(m, a, b))
    && (forall a, b | UserSlot(a, b) && (a, b) != (d, e) :: View(m', l', a, b) == View(m, l, a, b))
  }

  ghost function AfterRelease(m: Mm, d: int, e: int): Mm
    requires TablesOk(m) && UserSlot(d, e) && m.dir[d].PageTable?
  {
    match At(m, d, e)
    case Empty => m
    case Resident(f, _, _) => SetPte(m, d, e, Empty).(memMap := Less(m.memMap, f))
    case OnSwap(s) => if s < SWAP_BITS then SetPte(m, d, e, Empty).(free := m.free[s := true]) else m
  }

  lemma ReleaseLegal(m: Mm, l: Ledger, d: int, e: int)
    requires Inv(m, l) && UserSlot(d, e) && m.dir[d].PageTable?
    ensures Released(m, l, AfterRelease(m, d, e), l, d, e)
    ensures At(m, d, e).Resident? ==> At(m, d, e).frame < m.high && (HighFrame(At(m, d, e).frame) ==> 0 < Share(m.memMap, At(m, d, e).frame) < 256)
    ensures At(m, d, e).OnSwap? ==> 0 < At(m, d, e).slot < SWAP_BITS && m.swapOn && !m.free[At(m, d, e).slot]
  {
    match At(m, d, e)
    case Empty =>
    case Resident(f, _, _) =>
      DropResident(m, l, {}, d, e);
      StepKeepsInv(m, l, d, e, Empty, Less(m.memMap, f), m.free, {}, {});
      assert AfterRelease(m, d, e) == Step(m, d, e, Empty, Less(m.memMap, f), m.free);
      if HighFrame(f) { assert Counted(m, l, f); }
    case OnSwap(s) =>
      DropSwapped(m, l, {}, d, e);
      StepKeepsInv(m, l, d, e, Empty, m.memMap, m.free[s := true], {}, {});
      assert AfterRelease(m, d, e) == Step(m, d, e, Empty, m.memMap, m.free[s := true]);
  }

  /** Directory slots from..upto hold no pages any more; all other memory is as before. */
  ghost predicate Emptied(m: Mm, l: Ledger, m': Mm, l': Ledger, from: int, upto: int) {
    && Inv(m, l) && Inv(m', l') && l' == l && FIRST_DIR <= from <= upto <= ENTRIES && m'.high == m.high
    && (forall a | FIRST_DIR <= a < ENTRIES :: m'.dir[a] == if from <= a < upto then Absent else m.dir[a])
    && (forall a, b | UserSlot(a, b) && !(from <= a < upto) :: View(m', l', a, b) == View(m, l, a, b) && At(m', a, b) == At(m, a, b))
  }

  /** As Emptied up to d, and the first e entries of d are empty. */
  ghost predicate Emptying(m: Mm, l: Ledger, m': Mm, l': Ledger, from: int, d: int, e: int) {
    && Inv(m, l) && Inv(m', l') && l' == l && FIRST_DIR <= from <= d < ENTRIES && 0 <= e <= ENTRIES && m'.high == m.high
    && (forall a | FIRST_DIR <= a < ENTRIES :: m'.dir[a] == if from <= a < d then Absent else m.dir[a])
    && (forall b | 0 <= b < e :: At(m', d, b).Empty?)
    && (forall a, b | UserSlot(a, b) && !(from <= a <= d) :: View(m', l', a, b) == View(m, l, a, b) && At(m', a, b) == At(m, a, b))
  }

  lemma EmptyOne(m: Mm, l: Ledger, m1: Mm, from: int, d: int, e: int)
    requires Emptying(m, l, m1, l, from, d, e) && e < ENTRIES && m1.dir[d].PageTable?
    ensures Emptying(m, l, AfterRelease(m1, d, e), l, from, d, e + 1)
  {
    ReleaseLegal(m1, l, d, e);
    var m2 := AfterRelease(m1, d, e);
    forall a, b | UserSlot(a, b) && !(from <= a <= d)
      ensures View(m2, l, a, b) == View(m, l, a, b) && At(m2, a, b) == At(m, a, b)
    {
      assert View(m1, l, a, b) == View(m, l, a, b);
    }
  }

  lemma EmptyTableGoes(m: Mm, l: Ledger, m1: Mm, from: int, d: int)
    requires Emptying(m, l, m1, l, from, d, ENTRIES) && m1.dir[d].PageTable?
    ensures Share(m1.memMap, m1.dir[d].frame) == 1 && m1.dir[d].frame < m1.high
    ensures Emptied(m, l, DropTable(m1, d), l, from, d + 1)
  {
    TableShared(m1, l, {}, d);
    DropTableKeepsInv(m1, l, {}, d);
    var m2 := DropTable(m1, d);
    forall a, b | UserSlot(a, b) && !(from <= a < d + 1)
      ensures View(m2, l, a, b) == View(m, l, a, b) && At(m2, a, b) == At(m, a, b)
    {
      assert View(m2, l, a, b) == View(m1, l, a, b) == View(m, l, a, b);
    }
  }

  // ---- duplicating an address space ------------------------------------------------------------

  /** Two address spaces of n directory slots at task boundaries. */
  predicate Disjoint(fd: int, td: int, n: nat) {
    && n <= TASK_DIRS && FIRST_DIR <= fd && fd + n <= ENTRIES && FIRST_DIR <= td && td + n <= ENTRIES
    && fd % TASK_DIRS == 0 && td % TASK_DIRS == 0 && fd != td
  }

  ghost predicate EmptyFrom(m: Mm, d: int, e: int)
    requires TablesOk(m) && FIRST_DIR <= d < ENTRIES
  {
    forall b | UserSlot(d, b) && e <= b :: At(m, d, b).Empty?
  }

  /** The child at td.. shows the parent's memory as it was at the start in its first i
      directory slots and the first e entries of the next; the rest of it is empty. */
  ghost predicate Copying(m: Mm, l: Ledger, m': Mm, l': Ledger, fd: int, td: int, n: nat, i: int, e: int) {
    && Inv(m, l) && Inv(m', l') && l' == l && m'.high == m.high
    && Disjoint(fd, td, n) && 0 <= i <= n && 0 <= e <= ENTRIES && (i == n ==> e == 0)
    && (forall a | FIRST_DIR <= a < ENTRIES && !(td <= a < td + n) :: m'.dir[a] == m.dir[a])
    && (forall a | td + i < a < td + n :: m'.dir[a].Absent?)
    && (i < n ==> EmptyFrom(m', td + i, e))
    && (forall a, b | UserSlot(a, b) && !(td <= a < td + n) :: View(m', l', a, b) == View(m, l, a, b))
    && (forall a, b | UserSlot(a, b) && td <= a < td + n && (a < td + i || (a == td + i && b < e)) ::
          View(m', l', a, b) == View(m, l, fd + (a - td), b))
  }

  /** The child demand-loads from where the parent does. */
  ghost predicate SameBacking(l: Ledger, fd: int, td: int, n: nat) {
    forall a, b | td <= a < td + n && 0 <= b < ENTRIES :: l.backing(a, b) == l.backing(fd + (a - td), b)
  }

  lemma CopyingTable(m: Mm, l: Ledger, m1: Mm, m2: Mm, fd: int, td: int, n: nat, i: int)
    requires Copying(m, l, m1, l, fd, td, n, i, 0) && i < n
    requires TableAdded(m1, l, m2, l, td + i)
    ensures Copying(m, l, m2, l, fd, td, n, i, 0) && m2.dir[td + i].PageTable?
  {
    forall a, b | UserSlot(a, b)
      ensures View(m2, l, a, b) == View(m1, l, a, b) && (At(m1, a, b).Empty? ==> At(m2, a, b).Empty?)
    {
      assert Kept(At(m1, a, b), At(m2, a, b));
    }
  }

  lemma CopyingUnseen(m: Mm, l: Ledger, m1: Mm, m2: Mm, fd: int, td: int, n: nat, i: int, e: int)
    requires Copying(m, l, m1, l, fd, td, n, i, e) && Unseen(m1, l, m2, l)
    ensures forall a, b | UserSlot(a, b) && !(td <= a < td + n) :: View(m2, l, a, b) == View(m, l, a, b)
    ensures forall a | FIRST_DIR <= a < ENTRIES && !(td <= a < td + n) :: m2.dir[a] == m.dir[a]
  {
    forall a, b | UserSlot(a, b) && !(td <= a < td + n)
      ensures View(m2, l, a, b) == View(m, l, a, b)
    {
      assert View(m2, l, a, b) == View(m1, l, a, b) == View(m, l, a, b);
    }
  }

  lemma CopyingEntry(m: Mm, l: Ledger, m1: Mm, m2: Mm, fd: int, td: int, n: nat, i: int, e: int)
    requires Copying(m, l, m1, l, fd, td, n, i, e) && i < n && e < ENTRIES
    requires Duplicated(m1, l, m2, l, fd + i, td + i, e)
    ensures Copying(m, l, m2, l, fd, td, n, i, e + 1)
  {
    TasksApart(fd, td, n, i);
    assert View(m1, l, fd + i, e) == View(m, l, fd + i, e);
    assert EmptyFrom(m2, td + i, e + 1);
    CopyingViews(m, l, m1, m2, fd, td, n, i, e);
  }

  lemma CopyingView(m: Mm, l: Ledger, m1: Mm, m2: Mm, fd: int, td: int, n: nat, i: int, e: int, a: int, b: int)
    requires Copying(m, l, m1, l, fd, td, n, i, e) && i < n && e < ENTRIES && UserSlot(a, b)
    requires Duplicated(m1, l, m2, l, fd + i, td + i, e) && View(m1, l, fd + i, e) == View(m, l, fd + i, e)
    ensures !(td <= a < td + n) ==> View(m2, l, a, b) == View(m, l, a, b)
    ensures td <= a < td + n && (a < td + i || (a == td + i && b < e + 1)) ==> View(m2, l, a, b) == View(m, l, fd + (a - td), b)
  {
    if (a, b) != (td + i, e) { assert View(m2, l, a, b) == View(m1, l, a, b); }
  }

  lemma CopyingViews(m: Mm, l: Ledger, m1: Mm, m2: Mm, fd: int, td: int, n: nat, i: int, e: int)
    requires Copying(m, l, m1, l, fd, td, n, i, e) && i < n && e < ENTRIES
    requires Duplicated(m1, l, m2, l, fd + i, td + i, e) && View(m1, l, fd + i, e) == View(m, l, fd + i, e)
    ensures forall a, b | UserSlot(a, b) && !(td <= a < td + n) :: View(m2, l, a, b) == View(m, l, a, b)
    ensures forall a, b | UserSlot(a, b) && td <= a < td + n && (a < td + i || (a == td + i && b < e + 1)) ::
      View(m2, l, a, b) == View(m, l, fd + (a - td), b)
  {
    forall a, b | UserSlot(a, b)
      ensures !(td <= a < td + n) ==> View(m2, l, a, b) == View(m, l, a, b)
      ensures td <= a < td + n && (a < td + i || (a == td + i && b < e + 1)) ==> View(m2, l, a, b) == View(m, l, fd + (a - td), b)
    {
      CopyingView(m, l, m1, m2, fd, td, n, i, e, a, b);
    }
  }

  lemma TasksApart(fd: int, td: int, n: nat, i: int)
    requires Disjoint(fd, td, n) && 0 <= i < n
    ensures !(td <= fd + i < td + n) && (fd + i) % TASK_DIRS == (td + i) % TASK_DIRS
  {
    InTask(fd, i);
    InTask(td, i);
    if td <= fd + i < td + n { InTask(td, fd + i - td); }
  }

  lemma InTask(d: int, i: int)
    requires d % TASK_DIRS == 0 && 0 <= i < TASK_DIRS
    ensures (d + i) % TASK_DIRS == i && (d + i) / TASK_DIRS == d / TASK_DIRS
  {
    var q := d / TASK_DIRS;
    assert d + i == TASK_DIRS * q + i;
  }

  /** The next entry to copy is still empty in the child. */
  lemma CopyingReady(m: Mm, l: Ledger, m1: Mm, fd: int, td: int, n: nat, i: int, e: int)
    requires Copying(m, l, m1, l, fd, td, n, i, e) && i < n && e < ENTRIES && SameBacking(l, fd, td, n)
    ensures UserSlot(fd + i, e) && UserSlot(td + i, e) && fd + i != td + i && (fd + i) % TASK_DIRS == (td + i) % TASK_DIRS
    ensures At(m1, td + i, e).Empty? && l.backing(fd + i, e) == l.backing(td + i, e)
  {
    TasksApart(fd, td, n, i);
  }

  /** A directory slot is done: all its entries are copied, or the parent has none there. */
  lemma CopyingNext(m: Mm, l: Ledger, m1: Mm, fd: int, td: int, n: nat, i: int, e: int)
    requires Copying(m, l, m1, l, fd, td, n, i, e) && i < n && SameBacking(l, fd, td, n)
    requires e == ENTRIES || (e == 0 && m1.dir[fd + i].Absent?)
    ensures Copying(m, l, m1, l, fd, td, n, i + 1, 0)
  {
    TasksApart(fd, td, n, i);
    forall a, b | UserSlot(a, b) && td <= a < td + n && a < td + i + 1
      ensures View(m1, l, a, b) == View(m, l, fd + (a - td), b)
    {
      if a == td + i && e == 0 {
        assert At(m1, a, b).Empty? && At(m1, fd + i, b).Empty?;
        assert View(m1, l, fd + i, b) == View(m, l, fd + i, b);
      }
    }
    if i + 1 < n {
      assert m1.dir[td + i + 1].Absent?;
    }
  }

  // ---- the first fork: task 0's pages are the kernel's ---------------------------------------------

  /** The child shows the kernel's first e pages, all else is as before. */
  ghost predicate CopyingKernel(m: Mm, l: Ledger, m': Mm, l': Ledger, td: int, e: int) {
    && Inv(m, l) && Inv(m', l') && l' == l && m'.high == m.high && m'.pg0 == m.pg0 && FIRST_DIR <= td < ENTRIES && 0 <= e <= 160
    && EmptyFrom(m', td, e)
    && (forall a, b | UserSlot(a, b) && a != td :: View(m', l', a, b) == View(m, l, a, b))
    && (forall f | 0 <= f < LOW_FRAMES :: m'.phys[f] == m.phys[f])
    && (forall b | 0 <= b < e :: m.phys[b] == Bytes(View(m', l', td, b)))
  }

  lemma CopyingKernelEntry(m: Mm, l: Ledger, m1: Mm, m2: Mm, td: int, e: int)
    requires CopyingKernel(m, l, m1, l, td, e) && e < 160 && KernelPageShown(m1, l, m2, l, td, e)
    ensures CopyingKernel(m, l, m2, l, td, e + 1)
  {
    forall a, b | UserSlot(a, b) && (a, b) != (td, e)
      ensures View(m2, l, a, b) == View(m1, l, a, b)
    {
    }
  }

  // ---- fork ------------------------------------------------------------------------------------------

  ghost function InheritedPage(l: Ledger, fd: int, td: int, n: nat, a: int, b: int): Page {
    if td <= a < td + n then l.backing(fd + (a - td), b) else l.backing(a, b)
  }

  /** From now on the child loads its pages from where the parent does. */
  ghost function Inherit(l: Ledger, fd: int, td: int, n: nat): Ledger {
    l.(backing := (a: int, b: int) => InheritedPage(l, fd, td, n, a, b))
  }

  ghost predicate NoTables(m: Mm, td: int, n: nat)
    requires |m.dir| == ENTRIES && FIRST_DIR <= td && td + n <= ENTRIES
  {
    forall a | td <= a < td + n :: m.dir[a].Absent?
  }

  lemma InheritKeepsInv(m: Mm, l: Ledger, fd: int, td: int, n: nat)
    requires Inv(m, l) && Disjoint(fd, td, n) && NoTables(m, td, n)
    ensures Inv(m, Inherit(l, fd, td, n)) && SameBacking(Inherit(l, fd, td, n), fd, td, n)
    ensures forall a, b | UserSlot(a, b) && !(td <= a < td + n) :: View(m, Inherit(l, fd, td, n), a, b) == View(m, l, a, b)
  {
    var l' := Inherit(l, fd, td, n);
    forall f | HighFrame(f)
      ensures Counted(m, l', f)
    {
      assert Counted(m, l, f);
    }
    assert forall s | 0 <= s < SWAP_BITS :: Owners(m, l', s) == Owners(m, l, s);
    assert forall f | HighFrame(f) :: Pins(l', f) == Pins(l, f);
    forall a, b | td <= a < td + n && 0 <= b < ENTRIES
      ensures l'.backing(a, b) == l'.backing(fd + (a - td), b)
    {
      TasksApart(fd, td, n, a - td);
    }
  }

  /** The child of a fork sees exactly its parent's memory, and every other task (the
      parent among them) sees what it saw. */
  ghost predicate Forked(m: Mm, l: Ledger, m': Mm, l': Ledger, fd: int, td: int, n: nat) {
    && Inv(m, l) && Inv(m', l') && Disjoint(fd, td, n)
    && (forall a, b | UserSlot(a, b) && td <= a < td + n :: View(m', l', a, b) == View(m, l, fd + (a - td), b))
    && (forall a, b | UserSlot(a, b) && !(td <= a < td + n) :: View(m', l', a, b) == View(m, l, a, b))
  }

  /** A fork that failed leaves no trace but evictions. */
  ghost predicate NotForked(m: Mm, l: Ledger, m': Mm, l': Ledger, td: int, n: nat) {
    && Inv(m, l) && Inv(m', l') && FIRST_DIR <= td && td + n <= ENTRIES && NoTables(m', td, n)
    && (forall a, b | UserSlot(a, b) && !(td <= a < td + n) :: View(m', l', a, b) == View(m, l, a, b))
  }

  lemma UndoneFork(m: Mm, l: Ledger, m1: Mm, m2: Mm, l1: Ledger, td: int, n: nat)
    requires Inv(m, l) && Inv(m, l1) && Emptied(m1, l1, m2, l1, td, td + n)
    requires forall a, b | UserSlot(a, b) && !(td <= a < td + n) :: View(m, l1, a, b) == View(m, l, a, b)
    requires forall a, b | UserSlot(a, b) && !(td <= a < td + n) :: View(m1, l1, a, b) == View(m, l1, a, b)
    ensures NotForked(m, l, m2, l1, td, n)
  {
    forall a, b | UserSlot(a, b) && !(td <= a < td + n)
      ensures View(m2, l1, a, b) == View(m, l, a, b)
    {
      assert View(m1, l1, a, b) == View(m, l1, a, b);
    }
  }

  lemma DoneFork(m: Mm, l: Ledger, m1: Mm, l1: Ledger, fd: int, td: int, n: nat)
    requires Inv(m, l) && Forked(m, l1, m1, l1, fd, td, n)
    requires forall a, b | UserSlot(a, b) && !(td <= a < td + n) :: View(m, l1, a, b) == View(m, l, a, b)
    ensures Forked(m, l, m1, l1, fd, td, n)
  {
    forall a, b | UserSlot(a, b)
      ensures td <= a < td + n ==> View(m1, l1, a, b) == View(m, l, fd + (a - td), b)
      ensures !(td <= a < td + n) ==> View(m1, l1, a, b) == View(m, l, a, b)
    {
      if td <= a < td + n {
        TasksApart(fd, td, n, a - td);
        assert View(m, l1, fd + (a - td), b) == View(m, l, fd + (a - td), b);
      }
    }
  }

  lemma KernelTableReady(m: Mm, l: Ledger, m1: Mm, td: int)
    requires TableAdded(m, l, m1, l, td)
    ensures CopyingKernel(m, l, m1, l, td, 0)
  {
    forall b | UserSlot(td, b)
      ensures At(m1, td, b).Empty?
    {
      assert Kept(At(m, td, b), At(m1, td, b));
    }
  }
}
