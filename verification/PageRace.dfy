/** Where the paging code does not keep its promises: states that show it, and exactly when
    it does. */
module PageRace {
  import opened PageModel
  import opened PageSteps
  import opened PageOps
  import opened PageScan

  /** Tasks 1 and 2 share frame 259 at the start of their space, clean or dirty as asked and
      then full of ones; task 3 has the clean frame 260 to itself, and every other frame is
      in use: nothing is free. */
  ghost function RaceWord(w: bool, f: int, e: int): Pte {
    if e == 0 && f == 258 then Resident(260, false, false)
    else if e == 0 then Resident(259, false, w)
    else Empty
  }

  ghost function OnesPage(): Page { seq(4096, _ => 1) }

  ghost function RaceFrame(w: bool, f: int): Frame {
    if 256 <= f <= 258 then Table(seq(ENTRIES, e => RaceWord(w, f, e)))
    else Bytes(if w && f == 259 then OnesPage() else ZeroPage())
  }

  ghost function RaceDir(d: int): Dir {
    if d == 16 then PageTable(256) else if d == 32 then PageTable(257) else if d == 48 then PageTable(258) else Absent
  }

  ghost function RaceState(w: bool): Mm {
    Mm(seq(PAGING_PAGES, i => if i == 3 then 2 else 1), seq(ENTRIES, d => RaceDir(d)), seq(FRAMES, f => RaceFrame(w, f)),
       seq(ENTRIES, (e: nat) => Resident(e, true, false)), false, seq(SWAP_BITS, _ => false), seq(SWAP_BITS, _ => ZeroPage()), FRAMES)
  }

  ghost function RaceLedger(): Ledger {
    Ledger(seq(PAGING_PAGES, i => if i < 5 then 0 else 1), {0}, (d: int, e: int) => ZeroPage())
  }

  ghost function RaceEntry(w: bool, d: int, e: int): Pte {
    if e == 0 && (d == 16 || d == 32) then Resident(259, false, w)
    else if e == 0 && d == 48 then Resident(260, false, false)
    else Empty
  }

  lemma RaceAt(w: bool, d: int, e: int)
    requires UserSlot(d, e)
    ensures TablesOk(RaceState(w)) && At(RaceState(w), d, e) == RaceEntry(w, d, e)
  {
    forall a | FIRST_DIR <= a < ENTRIES
      ensures OwnTable(RaceState(w).dir, a)
    {
    }
  }

  lemma RaceCounts(w: bool)
    ensures TablesOk(RaceState(w)) && Counts(RaceState(w), RaceLedger())
  {
    var m, l := RaceState(w), RaceLedger();
    RaceAt(w, 16, 0);
    forall f | HighFrame(f)
      ensures Counted(m, l, f)
    {
      forall p | p in AllSlots()
        ensures Names(At(m, p.0, p.1), f) <==> (f == 259 && (p == (16, 0) || p == (32, 0))) || (f == 260 && p == (48, 0))
      {
        RaceAt(w, p.0, p.1);
      }
      assert Refs(m, f) == if f == 259 then {(16, 0), (32, 0)} else if f == 260 then {(48, 0)} else {};
      assert TableUses(m, f) == if f == 256 then {16} else if f == 257 then {32} else if f == 258 then {48} else {};
    }
  }

  lemma RaceEntries(w: bool)
    ensures TablesOk(RaceState(w)) && forall d, e | UserSlot(d, e) :: At(RaceState(w), d, e) == RaceEntry(w, d, e)
  {
    RaceAt(w, 16, 0);
    forall d, e | UserSlot(d, e)
      ensures At(RaceState(w), d, e) == RaceEntry(w, d, e)
    {
      RaceAt(w, d, e);
    }
  }

  lemma RaceSharing(w: bool)
    ensures TablesOk(RaceState(w)) && SameOffset(RaceState(w)) && Slots(RaceState(w), RaceLedger())
  {
    var m, l := RaceState(w), RaceLedger();
    RaceEntries(w);
    forall f | HighFrame(f)
      ensures Homed(m, f)
    {
    }
    forall s | 0 <= s < SWAP_BITS
      ensures |SlotRefs(m, s)| == Owners(m, l, s)
    {
      assert SlotRefs(m, s) == {};
    }
  }

  lemma RaceInv(w: bool)
    ensures Inv(RaceState(w), RaceLedger()) && !FrameFree(RaceState(w))
  {
    RaceCounts(w);
    RaceSharing(w);
    RaceEntries(w);
    assert forall f | HighFrame(f) :: Share(RaceState(w).memMap, f) >= 1;
  }

  /** Evicting a clean page that no other entry mentioned here has anything to do with. */
  lemma EvictClean(m: Mm, l: Ledger, d: int, e: int) returns (a: Mm)
    requires Inv(m, l) && UserSlot(d, e) && At(m, d, e).Resident? && HighFrame(At(m, d, e).frame) && !At(m, d, e).dirty
    ensures Inv(a, l) && Evicts(m, a, l)
    ensures forall x, y | UserSlot(x, y) :: At(a, x, y) == if x == d && y == e then Empty else At(m, x, y)
    ensures forall f | HighFrame(f) :: Share(a.memMap, f) == Share(m.memMap, f) - B(f == At(m, d, e).frame)
  {
    CleanOutEvicts(m, l, d, e);
    a := CleanOut(m, d, e);
    LessMoreAt(m.memMap, At(m, d, e).frame);
    SetPteAt(m, d, e, Empty);
    assert forall x, y | UserSlot(x, y) :: At(a, x, y) == At(SetPte(m, d, e, Empty), x, y);
    NamedFrame(m, l, {}, d, e);
  }

  /** Task 1's clean page goes first, then the one of task 3. */
  lemma RaceEvictions() returns (b: Mm)
    ensures Inv(RaceState(false), RaceLedger()) && Inv(b, RaceLedger()) && Evicts(RaceState(false), b, RaceLedger())
    ensures Share(b.memMap, 259) == 1 && Share(b.memMap, 260) == 0
    ensures At(b, 16, 0).Empty? && At(b, 32, 0) == Resident(259, false, false)
  {
    var m, l := RaceState(false), RaceLedger();
    RaceInv(false);
    RaceEntries(false);
    var a := EvictClean(m, l, 16, 0);
    b := EvictClean(a, l, 48, 0);
    EvictsTransitive(m, a, b, l);
  }

  lemma RaceObtains() returns (m1: Mm, l1: Ledger)
    ensures Obtained(RaceState(false), RaceLedger(), m1, l1, 260)
    ensures At(m1, 16, 0).Empty? && At(m1, 32, 0) == Resident(259, false, false) && Share(m1.memMap, 259) == 1
  {
    var b := RaceEvictions();
    RaceInv(false);
    ClaimObtains(RaceState(false), b, RaceLedger(), 260);
    ClaimFacts(b, RaceLedger(), 260);
    m1, l1 := Claim(b, 260), Pin(RaceLedger(), 260, 1);
  }

  /** Task 1 writes its shared page.  The allocation evicts that very entry and then task
      3's page, takes frame 260, and un_wp_page counts frame 259 down to 0 while task 2
      still has it mapped: the next allocation may hand it out. */
  lemma SharedPageFreedInUse() returns (m1: Mm, l1: Ledger)
    ensures Inv(RaceState(false), RaceLedger()) && Obtained(RaceState(false), RaceLedger(), m1, l1, 260)
    ensures At(RaceState(false), 16, 0) == Resident(259, false, false) && m1.dir[16].PageTable? && NoTable(m1, 260)
    ensures TablesOk(AfterCopy(m1, 16, 0, 259, 260))
    ensures Names(At(AfterCopy(m1, 16, 0, 259, 260), 32, 0), 259)
    ensures Share(AfterCopy(m1, 16, 0, 259, 260).memMap, 259) == 0
  {
    RaceInv(false);
    RaceAt(false, 16, 0);
    m1, l1 := RaceObtains();
    PinnedAlone(m1, l1, {}, 260);
    assert m1.phys[259].Bytes?;
    CopyPlaces(m1, 16, 0, 259, 260);
  }

  /** Task 4 faults on the page that task 1 has clean, and needs a page table.  Its
      allocation evicts task 1's entry; try_to_share copies the empty entry and counts
      frame 259 up for nobody. */
  lemma SharedNothingButCounted() returns (m1: Mm)
    ensures Inv(RaceState(false), RaceLedger()) && Offered(RaceState(false), 16, 0)
    ensures TableAdded(RaceState(false), RaceLedger(), m1, RaceLedger(), 64) && m1.dir[16].PageTable?
    ensures TablesOk(AfterShareOf(m1, 16, 64, 0, 259))
    ensures At(AfterShareOf(m1, 16, 64, 0, 259), 64, 0).Empty? && !Counts(AfterShareOf(m1, 16, 64, 0, 259), RaceLedger())
  {
    RaceInv(false);
    RaceEntries(false);
    var mid, l1 := RaceObtains();
    TableAddedAfter(RaceState(false), RaceLedger(), mid, l1, 64, 260);
    m1 := InstallTable(mid, 64, 260);
    assert Kept(At(RaceState(false), 64, 0), At(m1, 64, 0));
    assert At(m1, 16, 0) == At(mid, 16, 0);
    ShareRaced(m1, RaceLedger(), 16, 64, 0, 259);
    EmptyShared(m1, 16, 64, 0, 259);
  }

  /** What is shared of an entry that is gone is nothing. */
  lemma EmptyShared(m: Mm, from: int, to: int, e: int, f: nat)
    requires TablesOk(m) && UserSlot(from, e) && UserSlot(to, e) && from != to && m.dir[from].PageTable? && m.dir[to].PageTable?
    requires At(m, from, e).Empty? && HighFrame(f)
    ensures TablesOk(AfterShareOf(m, from, to, e, f)) && At(AfterShareOf(m, from, to, e, f), to, e).Empty?
  {
    SetPteAt(m, from, e, Empty);
    SetPteAt(SetPte(m, from, e, Empty), to, e, Empty);
  }

  /** The shared page is dirty, as after a fork.  write_verify copies it for task 1 and the
      kernel does not store: the copy is mapped clean although it differs from what would
      be loaded, so an eviction would lose it. */
  lemma CopyLeftUnwritten() returns (m1: Mm, l1: Ledger)
    ensures Inv(RaceState(true), RaceLedger()) && Obtained(RaceState(true), RaceLedger(), m1, l1, 260)
    ensures At(RaceState(true), 16, 0) == Resident(259, false, true) && m1.dir[16].PageTable? && NoTable(m1, 260) && m1.phys[259].Bytes?
    ensures !Inv(AfterCopy(m1, 16, 0, 259, 260), RaceLedger())
  {
    var m, l := RaceState(true), RaceLedger();
    RaceInv(true);
    RaceEntries(true);
    var b := EvictClean(m, l, 48, 0);
    ClaimObtains(m, b, l, 260);
    ClaimFacts(b, l, 260);
    m1, l1 := Claim(b, 260), Pin(l, 260, 1);
    assert SharedDirty(m, 16, 0);
    CopyWithoutStoreIff(m, l, m1, l1, 16, 0, 260);
    assert View(m, l, 16, 0) == OnesPage() && OnesPage()[0] != ZeroPage()[0];
  }

  // ---- when an entry outlives an allocation ----------------------------------------------------

  /** All who share a clean page lose it, and its frame is free. */
  lemma {:induction false} EvictSharers(m: Mm, l: Ledger, d: int, e: int) returns (b: Mm)
    requires Inv(m, l) && UserSlot(d, e) && At(m, d, e).Resident? && HighFrame(At(m, d, e).frame) && !At(m, d, e).dirty
    ensures Inv(b, l) && Evicts(m, b, l) && !At(b, d, e).Resident? && Share(b.memMap, At(m, d, e).frame) == 0
    decreases Share(m.memMap, At(m, d, e).frame)
  {
    var f := At(m, d, e).frame;
    NamedFrame(m, l, {}, d, e);
    var a := EvictClean(m, l, d, e);
    if Share(a.memMap, f) == 0 {
      b := a;
    } else {
      assert Counted(a, l, f) && TableUses(a, f) == TableUses(m, f);
      var p :| p in Refs(a, f);
      assert Homed(m, f);
      b := EvictSharers(a, l, p.0, p.1);
      EvictsTransitive(m, a, b, l);
      assert Kept(At(a, d, e), At(b, d, e));
    }
  }

  /** Whatever page the allocator finds, the entry is still there. */
  ghost predicate Survives(m: Mm, l: Ledger, d: int, e: int)
    requires Inv(m, l) && UserSlot(d, e)
  {
    forall m1, l1, n {:trigger Obtained(m, l, m1, l1, n)} | Obtained(m, l, m1, l1, n) :: At(m1, d, e) == At(m, d, e)
  }

  /** A clean page of a task can be lost to an allocation exactly when no frame is free. */
  lemma CleanSurvivesIff(m: Mm, l: Ledger, d: int, e: int)
    requires Inv(m, l) && UserSlot(d, e) && At(m, d, e).Resident? && HighFrame(At(m, d, e).frame) && !At(m, d, e).dirty
    ensures Survives(m, l, d, e) <==> FrameFree(m)
  {
    if FrameFree(m) {
      assert forall m1, l1, n | Obtained(m, l, m1, l1, n) :: At(m1, d, e) == At(m, d, e);
    } else {
      var f := At(m, d, e).frame;
      var b := EvictSharers(m, l, d, e);
      ClaimObtains(m, b, l, f);
      ClaimFacts(b, l, f);
      assert At(Claim(b, f), d, e) != At(m, d, e);
    }
  }

  /** try_to_share did not spoil the share counts. */
  ghost predicate ShareCounts(m1: Mm, l: Ledger, df: int, dt: int, e: int, f: nat) {
    && TablesOk(m1) && UserSlot(df, e) && UserSlot(dt, e) && m1.dir[df].PageTable? && m1.dir[dt].PageTable? && HighFrame(f)
    && TablesOk(AfterShareOf(m1, df, dt, e, f)) && |l.pins| == PAGING_PAGES && Counts(AfterShareOf(m1, df, dt, e, f), l)
  }

  /** For a page that try_to_share takes although the destination has no page table yet: the
      share counts are right afterwards, whatever the allocation of the table evicts, if and
      only if a frame was free before. */
  lemma ShareAlwaysCountsIff(m: Mm, l: Ledger, df: int, dt: int, e: int)
    requires Inv(m, l) && Offered(m, df, e) && UserSlot(dt, e) && df != dt && df % TASK_DIRS == dt % TASK_DIRS
    requires m.dir[dt].Absent? && l.backing(df, e) == l.backing(dt, e)
    ensures (forall m1 {:trigger TableAdded(m, l, m1, l, dt)} | TableAdded(m, l, m1, l, dt) :: ShareCounts(m1, l, df, dt, e, At(m, df, e).frame))
      <==> FrameFree(m)
  {
    var f := At(m, df, e).frame;
    if FrameFree(m) {
      forall m1 | TableAdded(m, l, m1, l, dt)
        ensures ShareCounts(m1, l, df, dt, e, f)
      {
        ShareOutcome(m, m1, l, df, dt, e);
      }
    } else {
      var m1 := TableTakesIt(m, l, df, dt, e);
      ShareRaced(m1, l, df, dt, e, f);
      assert TableAdded(m, l, m1, l, dt) && !ShareCounts(m1, l, df, dt, e, f);
    }
  }

  /** With no free frame the new page table may take the very frame. */
  lemma TableTakesIt(m: Mm, l: Ledger, df: int, dt: int, e: int) returns (m1: Mm)
    requires Inv(m, l) && Offered(m, df, e) && UserSlot(dt, e) && df != dt && m.dir[dt].Absent? && !FrameFree(m)
    ensures TableAdded(m, l, m1, l, dt) && m1.dir[df].PageTable? && m1.dir[dt].PageTable?
    ensures !At(m1, df, e).Resident? && At(m1, dt, e).Empty?
  {
    var f := At(m, df, e).frame;
    var b := EvictSharers(m, l, df, e);
    ClaimObtains(m, b, l, f);
    ClaimFacts(b, l, f);
    var c := Claim(b, f);
    TableAddedAfter(m, l, c, Pin(l, f, 1), dt, f);
    m1 := InstallTable(c, dt, f);
    InstallTableKeepsInv(c, Pin(l, f, 1), {}, dt, f);
    assert Kept(At(m, dt, e), At(m1, dt, e));
    assert At(m1, df, e) == At(c, df, e) == At(b, df, e);
  }

  /** For a page that un_wp_page copies: its entry outlives every allocation if and only if
      CopySafe holds before. */
  lemma CopySafeIff(m: Mm, l: Ledger, d: int, e: int)
    requires Inv(m, l) && UserSlot(d, e) && At(m, d, e).Resident?
    requires HighFrame(At(m, d, e).frame) ==> Share(m.memMap, At(m, d, e).frame) != 1
    ensures Survives(m, l, d, e) <==> CopySafe(m, d, e)
  {
    if CopySafe(m, d, e) {
      forall m1, l1, n | Obtained(m, l, m1, l1, n)
        ensures At(m1, d, e) == At(m, d, e)
      {
        CopySafeSurvives(m, l, m1, l1, d, e, n);
      }
    } else {
      NamedFrame(m, l, {}, d, e);
      CleanSurvivesIff(m, l, d, e);
    }
  }

  /** un_wp_page did not spoil the share counts. */
  ghost predicate CopyCounts(m1: Mm, l: Ledger, d: int, e: int, f: nat, n: nat) {
    && TablesOk(m1) && UserSlot(d, e) && m1.dir[d].PageTable? && HighFrame(n) && NoTable(m1, n) && f < FRAMES && m1.phys[f].Bytes?
    && TablesOk(AfterCopy(m1, d, e, f, n)) && |l.pins| == PAGING_PAGES && Counts(AfterCopy(m1, d, e, f, n), l)
  }

  /** un_wp_page keeps the share counts right, whatever its allocation evicts, if and only if
      the page was CopySafe before the call. */
  lemma CopyAlwaysCountsIff(m: Mm, l: Ledger, d: int, e: int)
    requires Inv(m, l) && UserSlot(d, e) && At(m, d, e).Resident?
    requires HighFrame(At(m, d, e).frame) ==> Share(m.memMap, At(m, d, e).frame) != 1
    ensures (forall m1, l1, n {:trigger Obtained(m, l, m1, l1, n)} | Obtained(m, l, m1, l1, n) :: CopyCounts(m1, l, d, e, At(m, d, e).frame, n))
      <==> CopySafe(m, d, e)
  {
    CopySafeIff(m, l, d, e);
    forall m1, l1, n | Obtained(m, l, m1, l1, n)
      ensures CopyCounts(m1, l, d, e, At(m, d, e).frame, n) <==> At(m1, d, e) == At(m, d, e)
    {
      CopyKeepsCountsIff(m, l, m1, l1, d, e, n);
    }
  }

  /** The first megabyte is shared with the kernel without copy-on-write: a store into one
      of its pages is seen at exactly those places that still name it. */
  lemma KernelStoreSeen(m: Mm, l: Ledger, f: nat, page: Page)
    requires Inv(m, l) && f < LOW_FRAMES
    ensures Inv(m.(phys := m.phys[f := Bytes(page)]), l)
    ensures forall d, e | UserSlot(d, e) ::
      View(m.(phys := m.phys[f := Bytes(page)]), l, d, e) == if Names(At(m, d, e), f) then page else View(m, l, d, e)
  {
    var m' := m.(phys := m.phys[f := Bytes(page)]);
    assert TablesOk(m') && SameEntries(m, m');
    SameEntriesSameRefs(m, m');
    forall g | HighFrame(g)
      ensures Counted(m', l, g)
    {
      assert Counted(m, l, g);
      assert TableUses(m', g) == TableUses(m, g);
    }
    assert forall s | 0 <= s < SWAP_BITS :: Owners(m', l, s) == Owners(m, l, s);
  }

  /** The last scan stopped at entry 0 of a table that is gone now.  The next one passes over
      the page of task 3, the only one that can be taken, and reports that there is none. */
  lemma PageOverlooked()
    ensures Inv(RaceState(true), RaceLedger()) && RaceState(true).dir[33].Absent?
    ensures Evictable(RaceState(true), 48, 0) && Missed(RaceState(true), 33, 0, 48, 0)
    ensures InVain(RaceState(true), 33, 0) && Exhausted(RaceState(true))
  {
    RaceInv(true);
    RaceEntries(true);
    assert Share(RaceState(true).memMap, 259) == 2;
    assert forall c | 33 <= c < 48 :: RaceState(true).dir[c].Absent?;
    assert FirstTable(RaceState(true), 33, 48);
  }
}
