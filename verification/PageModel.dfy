/** The state of the paging code as a value: share counts, page directory, page
    tables stored in physical frames, and the swap bitmap.  Physical frames are
    numbered by address / 4096, so frames below LOW_FRAMES are the first megabyte. */
module PageModel {
  const LOW_FRAMES: nat := 256        // LOW_MEM >> 12
  const PAGING_PAGES: nat := 3840
  const FRAMES: nat := 4096           // LOW_FRAMES + PAGING_PAGES
  const ENTRIES: nat := 1024          // entries of a page table, and of the directory
  const FIRST_DIR: nat := 16          // FIRST_VM_PAGE >> 10: task 1 starts here
  const TASK_DIRS: nat := 16          // 64 MB of linear space per task
  const SWAP_BITS: nat := 32768
  const USED: nat := 100
  const PAGE_SIZE: nat := 4096

  newtype byte = b: int | 0 <= b < 256
  type Page = p: seq<byte> | |p| == 4096 witness seq(4096, _ => 0)
  function ZeroPage(): Page { seq(4096, _ => 0) }

  /** A page-table word: 0, a present entry, or swap_nr << 1. */
  datatype Pte = Empty | Resident(frame: nat, writable: bool, dirty: bool) | OnSwap(slot: nat)

  /** A directory word: the page-table frame, if the present bit is set. */
  datatype Dir = Absent | PageTable(frame: nat)

  /** What a frame is used as. */
  datatype Frame = Bytes(page: Page) | Table(ptes: seq<Pte>)

  datatype Mm = Mm(
    memMap: seq<nat>,      // mem_map[]: one unsigned char per frame from LOW_FRAMES on
    dir: seq<Dir>,         // pg_dir[]
    phys: seq<Frame>,      // physical memory
    pg0: seq<Pte>,         // the kernel's own first page table
    swapOn: bool,          // swap_bitmap != NULL
    free: seq<bool>,       // swap_bitmap: true is a free slot
    swap: seq<Page>,       // the swap device
    high: nat)             // HIGH_MEMORY >> 12

  /** What the model knows beside the machine state: `pins` counts the kernel's own
      uses of a frame (task page, page in hand, bitmap page, USED filler), `reserved`
      the slots that were never available, and `backing` what a page holds when it
      is loaded on demand (its part of the executable, or zeros). */
  datatype Ledger = Ledger(pins: seq<nat>, reserved: set<nat>, backing: (int, int) -> Page)

  predicate UserSlot(d: int, e: int) { FIRST_DIR <= d < ENTRIES && 0 <= e < ENTRIES }

  ghost function AllSlots(): (all: set<(int, int)>)
    ensures forall d, e :: (d, e) in all <==> UserSlot(d, e)
  {
    set d, e | FIRST_DIR <= d < ENTRIES && 0 <= e < ENTRIES :: (d, e)
  }

  predicate HighFrame(f: int) { LOW_FRAMES <= f < FRAMES }

  /** mem_map[MAP_NR(f)] */
  function Share(memMap: seq<nat>, f: int): nat
    requires |memMap| == PAGING_PAGES && HighFrame(f)
  {
    memMap[f - LOW_FRAMES]
  }

  function Pins(l: Ledger, f: int): nat
    requires |l.pins| == PAGING_PAGES && HighFrame(f)
  {
    l.pins[f - LOW_FRAMES]
  }

  ghost predicate OwnTable(dir: seq<Dir>, d: int)
    requires |dir| == ENTRIES && FIRST_DIR <= d < ENTRIES
  {
    dir[d].PageTable? ==> forall d' | FIRST_DIR <= d' < ENTRIES && d' != d && dir[d'].PageTable? :: dir[d'].frame != dir[d].frame
  }

  ghost predicate TablesOk(m: Mm) {
    && |m.memMap| == PAGING_PAGES && |m.dir| == ENTRIES && |m.phys| == FRAMES && |m.pg0| == ENTRIES
    && |m.free| == |m.swap| == SWAP_BITS
    && LOW_FRAMES <= m.high <= FRAMES
    && (forall d | FIRST_DIR <= d < ENTRIES && m.dir[d].PageTable? ::
          && LOW_FRAMES <= m.dir[d].frame < FRAMES
          && m.phys[m.dir[d].frame].Table?
          && |m.phys[m.dir[d].frame].ptes| == ENTRIES)
    && (forall d {:trigger OwnTable(m.dir, d)} | FIRST_DIR <= d < ENTRIES :: OwnTable(m.dir, d))
    && (forall f | 0 <= f < LOW_FRAMES :: m.phys[f].Bytes?)
    && (forall e | 0 <= e < 160 :: m.pg0[e].Resident? && m.pg0[e].frame == e)
  }

  /** The page-table word that the hardware finds for directory slot d, table slot e. */
  ghost function At(m: Mm, d: int, e: int): Pte
    requires TablesOk(m) && UserSlot(d, e)
  {
    if m.dir[d].PageTable? then m.phys[m.dir[d].frame].ptes[e] else Empty
  }

  predicate Names(p: Pte, f: int) { p.Resident? && p.frame == f }

  predicate Holds(p: Pte, s: int) { p.OnSwap? && p.slot == s }

  ghost function Refs(m: Mm, f: int): set<(int, int)>
    requires TablesOk(m)
  {
    set p | p in AllSlots() && Names(At(m, p.0, p.1), f)
  }

  ghost function SlotRefs(m: Mm, s: int): set<(int, int)>
    requires TablesOk(m)
  {
    set p | p in AllSlots() && Holds(At(m, p.0, p.1), s)
  }

  ghost function TableUses(m: Mm, f: int): set<int>
    requires TablesOk(m)
  {
    set d | FIRST_DIR <= d < ENTRIES && m.dir[d].PageTable? && m.dir[d].frame == f
  }

  ghost predicate ResidentOk(m: Mm, l: Ledger)
    requires TablesOk(m)
  {
    && |l.pins| == PAGING_PAGES
    && (forall d, e | UserSlot(d, e) && At(m, d, e).Resident? ::
          && At(m, d, e).frame < m.high
          && m.phys[At(m, d, e).frame].Bytes?
          && (At(m, d, e).frame >= LOW_FRAMES ==> Pins(l, At(m, d, e).frame) == 0))
    && (forall d | FIRST_DIR <= d < ENTRIES && m.dir[d].PageTable? :: m.dir[d].frame < m.high && Pins(l, m.dir[d].frame) == 0)
    && (forall f | m.high <= f < FRAMES :: Pins(l, f) == USED)
  }

  /** mem_map counts exactly the page-table entries, table uses and kernel uses. */
  ghost predicate Counted(m: Mm, l: Ledger, f: int)
    requires TablesOk(m) && |l.pins| == PAGING_PAGES && HighFrame(f)
  {
    Share(m.memMap, f) == |Refs(m, f)| + |TableUses(m, f)| + Pins(l, f) < 256
  }

  ghost predicate Counts(m: Mm, l: Ledger)
    requires TablesOk(m) && |l.pins| == PAGING_PAGES
  {
    forall f {:trigger Counted(m, l, f)} | HighFrame(f) :: Counted(m, l, f)
  }

  /** A writable entry is its frame's only use; kernel frames are never writable. */
  ghost predicate Exclusive(m: Mm)
    requires TablesOk(m)
  {
    forall d, e | UserSlot(d, e) && At(m, d, e).Resident? && At(m, d, e).writable ::
      HighFrame(At(m, d, e).frame) && Share(m.memMap, At(m, d, e).frame) == 1
  }

  /** All sharers of a frame have it at the same place of their address space, and
      agree on whether it differs from its backing store. */
  ghost predicate SameOffset(m: Mm)
    requires TablesOk(m)
  {
    forall f {:trigger Homed(m, f)} | HighFrame(f) :: Homed(m, f)
  }

  ghost predicate Homed(m: Mm, f: int)
    requires TablesOk(m)
  {
    forall d, e, d', e' | UserSlot(d, e) && UserSlot(d', e') && Names(At(m, d, e), f) && Names(At(m, d', e'), f) ::
      e == e' && d % TASK_DIRS == d' % TASK_DIRS && At(m, d, e).dirty == At(m, d', e').dirty
  }

  ghost function Owners(m: Mm, l: Ledger, s: int): nat
    requires TablesOk(m) && 0 <= s < SWAP_BITS
  {
    if !m.swapOn || m.free[s] || s in l.reserved then 0 else 1
  }

  /** A slot taken from the bitmap is named by exactly one entry, any other by none. */
  ghost predicate Slots(m: Mm, l: Ledger)
    requires TablesOk(m)
  {
    && 0 in l.reserved
    && (forall s | s in l.reserved :: 0 <= s < SWAP_BITS && !m.free[s])
    && (forall d, e | UserSlot(d, e) && At(m, d, e).OnSwap? :: At(m, d, e).slot < SWAP_BITS)
    && (forall s | 0 <= s < SWAP_BITS :: |SlotRefs(m, s)| == Owners(m, l, s))
  }

  /** A clean page still equals what demand loading would bring back. */
  ghost predicate Clean(m: Mm, l: Ledger, hole: set<(int, int)>)
    requires TablesOk(m)
  {
    forall d, e | UserSlot(d, e) && At(m, d, e).Resident? && HighFrame(At(m, d, e).frame)
                  && !At(m, d, e).dirty && (d, e) !in hole ::
      m.phys[At(m, d, e).frame] == Bytes(l.backing(d, e))
  }

  ghost predicate InvBut(m: Mm, l: Ledger, hole: set<(int, int)>) {
    TablesOk(m) && ResidentOk(m, l) && Counts(m, l) && Exclusive(m) && SameOffset(m) && Slots(m, l) && Clean(m, l, hole)
  }

  ghost predicate Inv(m: Mm, l: Ledger) { InvBut(m, l, {}) }

  /** What the task owning (d, e) would read there, wherever the page is kept. */
  ghost function View(m: Mm, l: Ledger, d: int, e: int): Page
    requires TablesOk(m) && ResidentOk(m, l) && Slots(m, l) && UserSlot(d, e)
  {
    match At(m, d, e)
    case Empty => l.backing(d, e)
    case Resident(f, _, _) => m.phys[f].page
    case OnSwap(s) => m.swap[s]
  }

  // ---- one entry changes ----------------------------------------------------

  ghost function SetPte(m: Mm, d: int, e: int, x: Pte): Mm
    requires TablesOk(m) && UserSlot(d, e) && m.dir[d].PageTable?
  {
    m.(phys := m.phys[m.dir[d].frame := Table(m.phys[m.dir[d].frame].ptes[e := x])])
  }

  lemma SetPteAt(m: Mm, d: int, e: int, x: Pte)
    requires TablesOk(m) && UserSlot(d, e) && m.dir[d].PageTable?
    ensures TablesOk(SetPte(m, d, e, x))
    ensures forall d', e' | UserSlot(d', e') :: At(SetPte(m, d, e, x), d', e') == if d' == d && e' == e then x else At(m, d', e')
  {
    var m' := SetPte(m, d, e, x);
    forall a | FIRST_DIR <= a < ENTRIES
      ensures OwnTable(m'.dir, a)
    {
      assert OwnTable(m.dir, a);
    }
    assert OwnTable(m.dir, d);
  }

  function B(b: bool): nat { if b then 1 else 0 }

  lemma DeltaOne<T>(a: set<T>, b: set<T>, x: T)
    requires forall p | p != x :: p in a <==> p in b
    ensures |b| == |a| - B(x in a) + B(x in b)
  {
    var rest := a - {x};
    assert rest == b - {x};
    assert a == if x in a then rest + {x} else rest;
    assert b == if x in b then rest + {x} else rest;
  }

  lemma RefsAfter(m: Mm, m': Mm, d: int, e: int, f: int)
    requires TablesOk(m) && TablesOk(m') && UserSlot(d, e)
    requires forall d', e' | UserSlot(d', e') && (d', e') != (d, e) :: At(m', d', e') == At(m, d', e')
    ensures |Refs(m', f)| == |Refs(m, f)| - B(Names(At(m, d, e), f)) + B(Names(At(m', d, e), f))
  {
    forall p | p != (d, e)
      ensures p in Refs(m, f) <==> p in Refs(m', f)
    {
      assert p in AllSlots() ==> At(m', p.0, p.1) == At(m, p.0, p.1);
    }
    DeltaOne(Refs(m, f), Refs(m', f), (d, e));
  }

  lemma SlotRefsAfter(m: Mm, m': Mm, d: int, e: int, s: int)
    requires TablesOk(m) && TablesOk(m') && UserSlot(d, e)
    requires forall d', e' | UserSlot(d', e') && (d', e') != (d, e) :: At(m', d', e') == At(m, d', e')
    ensures |SlotRefs(m', s)| == |SlotRefs(m, s)| - B(Holds(At(m, d, e), s)) + B(Holds(At(m', d, e), s))
  {
    forall p | p != (d, e)
      ensures p in SlotRefs(m, s) <==> p in SlotRefs(m', s)
    {
      assert p in AllSlots() ==> At(m', p.0, p.1) == At(m, p.0, p.1);
    }
    DeltaOne(SlotRefs(m, s), SlotRefs(m', s), (d, e));
  }

  lemma SubsetSize<T>(a: set<T>, b: set<T>)
    requires a <= b
    ensures |a| <= |b|
  {
    assert b == a + (b - a);
  }

  /** A share count of 1 leaves room for one entry only. */
  lemma SoleRef(m: Mm, l: Ledger, f: int, d: int, e: int, d': int, e': int)
    requires TablesOk(m) && |l.pins| == PAGING_PAGES && HighFrame(f) && Counted(m, l, f)
    requires UserSlot(d, e) && UserSlot(d', e') && Share(m.memMap, f) == 1
    ensures Names(At(m, d, e), f) && Names(At(m, d', e'), f) ==> d == d' && e == e'
  {
    if Names(At(m, d, e), f) && Names(At(m, d', e'), f) {
      SubsetSize({(d, e), (d', e')}, Refs(m, f));
    }
  }

  /** What a new entry x adds to the share count of f: one use, less the kernel's
      own use that the entry takes over. */
  function Gain(l: Ledger, x: Pte, f: int): int
    requires |l.pins| == PAGING_PAGES && HighFrame(f)
  {
    if Names(x, f) then 1 - Pins(l, f) else 0
  }

  /** Conditions under which replacing the entry at (d, e) by x, together with the
      given share counts and bitmap, is a legal step. */
  ghost predicate StepOk(m: Mm, l: Ledger, d: int, e: int, x: Pte, memMap': seq<nat>, free': seq<bool>, hole: set<(int, int)>) {
    && InvBut(m, l, hole) && UserSlot(d, e) && m.dir[d].PageTable?
    && |memMap'| == PAGING_PAGES && |free'| == SWAP_BITS
    && (forall f | HighFrame(f) ::
          && Share(memMap', f) < 256
          && Share(memMap', f) + B(Names(At(m, d, e), f)) == Share(m.memMap, f) + Gain(l, x, f))
    && (x.Resident? ==> x.frame < m.high && m.phys[x.frame].Bytes? && (x.writable ==> HighFrame(x.frame)))
    && (x.Resident? && x.frame >= LOW_FRAMES ==>
          && TableUses(m, x.frame) == {}
          && (x.writable ==> Share(memMap', x.frame) == 1)
          && (forall d', e' | UserSlot(d', e') && (d', e') != (d, e) && Names(At(m, d', e'), x.frame) ::
                !At(m, d', e').writable && e' == e && d' % TASK_DIRS == d % TASK_DIRS && At(m, d', e').dirty == x.dirty))
    && (x.OnSwap? ==> x.slot < SWAP_BITS)
    && (forall s | s in l.reserved :: 0 <= s < SWAP_BITS && !free'[s])
    && (forall s | 0 <= s < SWAP_BITS ::
          Owners(m.(free := free'), l, s) == Owners(m, l, s) - B(Holds(At(m, d, e), s)) + B(Holds(x, s)))
  }

  ghost function Step(m: Mm, d: int, e: int, x: Pte, memMap': seq<nat>, free': seq<bool>): Mm
    requires TablesOk(m) && UserSlot(d, e) && m.dir[d].PageTable?
  {
    SetPte(m, d, e, x).(memMap := memMap', free := free')
  }

  ghost function Unpin(l: Ledger, x: Pte): Ledger {
    if x.Resident? && LOW_FRAMES <= x.frame < LOW_FRAMES + |l.pins| then l.(pins := l.pins[x.frame - LOW_FRAMES := 0]) else l
  }

  lemma StepShape(m: Mm, l: Ledger, d: int, e: int, x: Pte, memMap': seq<nat>, free': seq<bool>, hole: set<(int, int)>)
    requires StepOk(m, l, d, e, x, memMap', free', hole)
    ensures TablesOk(Step(m, d, e, x, memMap', free'))
    ensures forall d', e' | UserSlot(d', e') ::
      At(Step(m, d, e, x, memMap', free'), d', e') == if d' == d && e' == e then x else At(m, d', e')
    ensures ResidentOk(Step(m, d, e, x, memMap', free'), Unpin(l, x))
  {
    SetPteAt(m, d, e, x);
    var m' := Step(m, d, e, x, memMap', free');
    assert forall d', e' | UserSlot(d', e') :: At(m', d', e') == At(SetPte(m, d, e, x), d', e');
    forall d' | FIRST_DIR <= d' < ENTRIES && m.dir[d'].PageTable?
      ensures Pins(Unpin(l, x), m.dir[d'].frame) == 0
    {}
    forall f | m.high <= f < FRAMES
      ensures Pins(Unpin(l, x), f) == USED
    {
      assert Pins(l, f) == USED;
    }
  }

  lemma StepCounts(m: Mm, l: Ledger, d: int, e: int, x: Pte, memMap': seq<nat>, free': seq<bool>, hole: set<(int, int)>)
    requires StepOk(m, l, d, e, x, memMap', free', hole)
    requires TablesOk(Step(m, d, e, x, memMap', free'))
    ensures Counts(Step(m, d, e, x, memMap', free'), Unpin(l, x))
  {
    var m' := Step(m, d, e, x, memMap', free');
    StepShape(m, l, d, e, x, memMap', free', hole);
    forall f | HighFrame(f)
      ensures Counted(m', Unpin(l, x), f)
    {
      assert Counted(m, l, f);
      RefsAfter(m, m', d, e, f);
      assert TableUses(m', f) == TableUses(m, f);
    }
  }

  lemma StepSharing(m: Mm, l: Ledger, d: int, e: int, x: Pte, memMap': seq<nat>, free': seq<bool>, hole: set<(int, int)>)
    requires StepOk(m, l, d, e, x, memMap', free', hole)
    requires TablesOk(Step(m, d, e, x, memMap', free'))
    ensures Exclusive(Step(m, d, e, x, memMap', free'))
    ensures SameOffset(Step(m, d, e, x, memMap', free'))
  {
    var m' := Step(m, d, e, x, memMap', free');
    StepShape(m, l, d, e, x, memMap', free', hole);
    forall d', e' | UserSlot(d', e') && At(m', d', e').Resident? && At(m', d', e').writable
      ensures HighFrame(At(m', d', e').frame) && Share(m'.memMap, At(m', d', e').frame) == 1
    {
      if (d', e') != (d, e) {
        var f := At(m, d', e').frame;
        assert Share(m.memMap, f) == 1;
        assert Counted(m, l, f);
        SoleRef(m, l, f, d, e, d', e');
      }
    }
    forall f | HighFrame(f)
      ensures Homed(m', f)
    {
      assert Homed(m, f);
    }
  }

  lemma StepSlots(m: Mm, l: Ledger, d: int, e: int, x: Pte, memMap': seq<nat>, free': seq<bool>, hole: set<(int, int)>)
    requires StepOk(m, l, d, e, x, memMap', free', hole)
    requires TablesOk(Step(m, d, e, x, memMap', free'))
    ensures Slots(Step(m, d, e, x, memMap', free'), Unpin(l, x))
  {
    var m' := Step(m, d, e, x, memMap', free');
    StepShape(m, l, d, e, x, memMap', free', hole);
    forall s | 0 <= s < SWAP_BITS
      ensures |SlotRefs(m', s)| == Owners(m', Unpin(l, x), s)
    {
      SlotRefsAfter(m, m', d, e, s);
    }
  }

  /** The one preservation argument behind every page-table update of the kernel. */
  lemma StepKeepsInv(m: Mm, l: Ledger, d: int, e: int, x: Pte, memMap': seq<nat>, free': seq<bool>, hole: set<(int, int)>, hole': set<(int, int)>)
    requires StepOk(m, l, d, e, x, memMap', free', hole)
    requires hole <= hole' + {(d, e)}
    requires x.Resident? && x.frame >= LOW_FRAMES && !x.dirty && (d, e) !in hole' ==> m.phys[x.frame] == Bytes(l.backing(d, e))
    ensures InvBut(Step(m, d, e, x, memMap', free'), Unpin(l, x), hole')
    ensures forall d', e' | UserSlot(d', e') :: At(Step(m, d, e, x, memMap', free'), d', e') == if d' == d && e' == e then x else At(m, d', e')
    ensures forall d', e' | UserSlot(d', e') && (d', e') != (d, e) ::
      View(Step(m, d, e, x, memMap', free'), Unpin(l, x), d', e') == View(m, l, d', e')
  {
    StepShape(m, l, d, e, x, memMap', free', hole);
    StepCounts(m, l, d, e, x, memMap', free', hole);
    StepSharing(m, l, d, e, x, memMap', free', hole);
    StepSlots(m, l, d, e, x, memMap', free', hole);
  }

  /** Two states in which every task reads the same memory. */
  ghost predicate SameViews(m: Mm, l: Ledger, m': Mm, l': Ledger)
    requires TablesOk(m) && ResidentOk(m, l) && Slots(m, l)
    requires TablesOk(m') && ResidentOk(m', l') && Slots(m', l')
  {
    forall d, e | UserSlot(d, e) :: View(m', l', d, e) == View(m, l, d, e)
  }

  /** Entries, tables and slots are where they were. */
  ghost predicate SameEntries(m: Mm, m': Mm)
    requires TablesOk(m) && TablesOk(m')
  {
    && m'.free == m.free && m'.swapOn == m.swapOn && m'.high == m.high
    && (forall d, e | UserSlot(d, e) :: At(m', d, e) == At(m, d, e))
  }

  lemma SameEntriesSameRefs(m: Mm, m': Mm)
    requires TablesOk(m) && TablesOk(m') && SameEntries(m, m')
    ensures forall f :: Refs(m', f) == Refs(m, f)
    ensures forall s :: SlotRefs(m', s) == SlotRefs(m, s)
    ensures SameOffset(m) ==> SameOffset(m')
  {
    if SameOffset(m) {
      forall f | HighFrame(f)
        ensures Homed(m', f)
      {
        assert Homed(m, f);
      }
    }
  }

  /** Page tables that are the same, or gone, do not overlap. */
  lemma OwnTablesKept(dir: seq<Dir>, dir': seq<Dir>)
    requires |dir| == |dir'| == ENTRIES
    requires forall d {:trigger OwnTable(dir, d)} | FIRST_DIR <= d < ENTRIES :: OwnTable(dir, d)
    requires forall d | FIRST_DIR <= d < ENTRIES :: dir'[d] == dir[d] || dir'[d].Absent?
    ensures forall d {:trigger OwnTable(dir', d)} | FIRST_DIR <= d < ENTRIES :: OwnTable(dir', d)
  {
    forall d | FIRST_DIR <= d < ENTRIES
      ensures OwnTable(dir', d)
    {
      assert OwnTable(dir, d);
    }
  }

  // ---- frames in the kernel's hand --------------------------------------------

  ghost function Claim(m: Mm, f: int): Mm
    requires TablesOk(m) && HighFrame(f)
  {
    m.(memMap := m.memMap[f - LOW_FRAMES := 1], phys := m.phys[f := Bytes(ZeroPage())])
  }

  ghost function Pin(l: Ledger, f: int, n: nat): Ledger
    requires |l.pins| == PAGING_PAGES && HighFrame(f)
  {
    l.(pins := l.pins[f - LOW_FRAMES := n])
  }

  /** A frame that only the kernel uses is no entry's page and no page table. */
  lemma PinnedAlone(m: Mm, l: Ledger, hole: set<(int, int)>, f: int)
    requires InvBut(m, l, hole) && HighFrame(f) && Share(m.memMap, f) == Pins(l, f)
    ensures Refs(m, f) == {} && TableUses(m, f) == {}
    ensures forall d, e | UserSlot(d, e) :: !Names(At(m, d, e), f)
    ensures forall d | FIRST_DIR <= d < ENTRIES && m.dir[d].PageTable? :: m.dir[d].frame != f
  {
    assert Counted(m, l, f);
    forall d, e | UserSlot(d, e)
      ensures !Names(At(m, d, e), f)
    {
      assert (d, e) in Refs(m, f) <==> Names(At(m, d, e), f);
    }
    forall d | FIRST_DIR <= d < ENTRIES && m.dir[d].PageTable?
      ensures m.dir[d].frame != f
    {
      assert d in TableUses(m, f) <==> m.dir[d].frame == f;
    }
  }

  /** Changing the contents or the kernel use of a frame that only the kernel uses. */
  lemma PinnedStep(m: Mm, l: Ledger, hole: set<(int, int)>, f: int, page: Page, n: nat)
    requires InvBut(m, l, hole) && HighFrame(f) && f < m.high && Share(m.memMap, f) == Pins(l, f) && n < 256
    ensures InvBut(m.(memMap := m.memMap[f - LOW_FRAMES := n], phys := m.phys[f := Bytes(page)]), Pin(l, f, n), hole)
    ensures forall d, e | UserSlot(d, e) :: At(m.(memMap := m.memMap[f - LOW_FRAMES := n], phys := m.phys[f := Bytes(page)]), d, e) == At(m, d, e)
    ensures SameViews(m, l, m.(memMap := m.memMap[f - LOW_FRAMES := n], phys := m.phys[f := Bytes(page)]), Pin(l, f, n))
  {
    PinnedAlone(m, l, hole, f);
    var m' := m.(memMap := m.memMap[f - LOW_FRAMES := n], phys := m.phys[f := Bytes(page)]);
    var l' := Pin(l, f, n);
    assert TablesOk(m');
    assert SameEntries(m, m');
    SameEntriesSameRefs(m, m');
    assert forall g | HighFrame(g) :: TableUses(m', g) == TableUses(m, g) && Pins(l', g) == (if g == f then n else Pins(l, g));
    forall g | HighFrame(g)
      ensures Counted(m', l', g)
    {
      assert Counted(m, l, g);
    }
    PinnedShape(m, l, hole, f, page, n);
  }

  lemma PinnedShape(m: Mm, l: Ledger, hole: set<(int, int)>, f: int, page: Page, n: nat)
    requires InvBut(m, l, hole) && HighFrame(f) && f < m.high && Share(m.memMap, f) == Pins(l, f) && n < 256
    requires TablesOk(m.(memMap := m.memMap[f - LOW_FRAMES := n], phys := m.phys[f := Bytes(page)]))
    requires SameEntries(m, m.(memMap := m.memMap[f - LOW_FRAMES := n], phys := m.phys[f := Bytes(page)]))
    ensures ResidentOk(m.(memMap := m.memMap[f - LOW_FRAMES := n], phys := m.phys[f := Bytes(page)]), Pin(l, f, n))
    ensures Exclusive(m.(memMap := m.memMap[f - LOW_FRAMES := n], phys := m.phys[f := Bytes(page)]))
    ensures Slots(m.(memMap := m.memMap[f - LOW_FRAMES := n], phys := m.phys[f := Bytes(page)]), Pin(l, f, n))
  {
    PinnedAlone(m, l, hole, f);
    var m' := m.(memMap := m.memMap[f - LOW_FRAMES := n], phys := m.phys[f := Bytes(page)]);
    var l' := Pin(l, f, n);
    SameEntriesSameRefs(m, m');
    assert forall g | HighFrame(g) :: Pins(l', g) == (if g == f then n else Pins(l, g));
    assert forall s | 0 <= s < SWAP_BITS :: Owners(m', l', s) == Owners(m, l, s);
    assert forall g | HighFrame(g) && g != f :: Share(m'.memMap, g) == Share(m.memMap, g);
  }

  // ---- page tables come and go --------------------------------------------------

  function EmptyTable(): seq<Pte> { seq(ENTRIES, _ => Empty) }

  ghost function InstallTable(m: Mm, d: int, f: int): Mm
    requires TablesOk(m) && FIRST_DIR <= d < ENTRIES && HighFrame(f)
  {
    m.(dir := m.dir[d := PageTable(f)], phys := m.phys[f := Table(EmptyTable())])
  }

  lemma InstallTableShape(m: Mm, l: Ledger, hole: set<(int, int)>, d: int, f: int)
    requires InvBut(m, l, hole) && FIRST_DIR <= d < ENTRIES && m.dir[d].Absent?
    requires HighFrame(f) && f < m.high && Share(m.memMap, f) == Pins(l, f) == 1
    ensures TablesOk(InstallTable(m, d, f)) && SameEntries(m, InstallTable(m, d, f))
    ensures Counts(InstallTable(m, d, f), Pin(l, f, 0))
  {
    PinnedAlone(m, l, hole, f);
    var m' := InstallTable(m, d, f);
    var l' := Pin(l, f, 0);
    forall a | FIRST_DIR <= a < ENTRIES
      ensures OwnTable(m'.dir, a)
    {
      assert OwnTable(m.dir, a);
    }
    assert TablesOk(m');
    assert SameEntries(m, m');
    SameEntriesSameRefs(m, m');
    forall g | HighFrame(g)
      ensures Counted(m', l', g)
    {
      assert Counted(m, l, g);
      assert TableUses(m', g) == if g == f then {d} else TableUses(m, g);
      assert Pins(l', g) == if g == f then 0 else Pins(l, g);
    }
  }

  lemma InstallTableKeepsInv(m: Mm, l: Ledger, hole: set<(int, int)>, d: int, f: int)
    requires InvBut(m, l, hole) && FIRST_DIR <= d < ENTRIES && m.dir[d].Absent?
    requires HighFrame(f) && f < m.high && Share(m.memMap, f) == Pins(l, f) == 1
    ensures InvBut(InstallTable(m, d, f), Pin(l, f, 0), hole)
    ensures SameEntries(m, InstallTable(m, d, f))
    ensures SameViews(m, l, InstallTable(m, d, f), Pin(l, f, 0))
  {
    InstallTableShape(m, l, hole, d, f);
    PinnedAlone(m, l, hole, f);
    var m' := InstallTable(m, d, f);
    var l' := Pin(l, f, 0);
    SameEntriesSameRefs(m, m');
    assert forall g | HighFrame(g) :: Pins(l', g) == (if g == f then 0 else Pins(l, g));
    assert ResidentOk(m', l');
    assert forall s | 0 <= s < SWAP_BITS :: Owners(m', l', s) == Owners(m, l, s);
    assert Slots(m', l');
  }

  ghost function DropTable(m: Mm, d: int): Mm
    requires TablesOk(m) && FIRST_DIR <= d < ENTRIES && m.dir[d].PageTable?
    requires Share(m.memMap, m.dir[d].frame) > 0
  {
    m.(dir := m.dir[d := Absent],
       memMap := m.memMap[m.dir[d].frame - LOW_FRAMES := m.memMap[m.dir[d].frame - LOW_FRAMES] - 1])
  }

  lemma TableShared(m: Mm, l: Ledger, hole: set<(int, int)>, d: int)
    requires InvBut(m, l, hole) && FIRST_DIR <= d < ENTRIES && m.dir[d].PageTable?
    ensures TableUses(m, m.dir[d].frame) == {d} && Refs(m, m.dir[d].frame) == {}
    ensures Share(m.memMap, m.dir[d].frame) == 1
  {
    var f := m.dir[d].frame;
    assert OwnTable(m.dir, d);
    assert TableUses(m, f) == {d};
    assert m.phys[f].Table?;
    assert forall d', e' | UserSlot(d', e') :: !Names(At(m, d', e'), f);
    assert Counted(m, l, f);
  }

  lemma DropTableKeepsInv(m: Mm, l: Ledger, hole: set<(int, int)>, d: int)
    requires InvBut(m, l, hole) && FIRST_DIR <= d < ENTRIES && m.dir[d].PageTable?
    requires forall e | 0 <= e < ENTRIES :: At(m, d, e) == Empty
    ensures Share(m.memMap, m.dir[d].frame) == 1
    ensures InvBut(DropTable(m, d), l, hole)
    ensures SameEntries(m, DropTable(m, d))
    ensures SameViews(m, l, DropTable(m, d), l)
  {
    DropTableCounts(m, l, hole, d);
    var m' := DropTable(m, d);
    SameEntriesSameRefs(m, m');
    var f := m.dir[d].frame;
    assert forall d', e' | UserSlot(d', e') :: !Names(At(m, d', e'), f);
    assert forall s | 0 <= s < SWAP_BITS :: Owners(m', l, s) == Owners(m, l, s);
  }

  lemma DropTableCounts(m: Mm, l: Ledger, hole: set<(int, int)>, d: int)
    requires InvBut(m, l, hole) && FIRST_DIR <= d < ENTRIES && m.dir[d].PageTable?
    requires forall e | 0 <= e < ENTRIES :: At(m, d, e) == Empty
    ensures Share(m.memMap, m.dir[d].frame) == 1
    ensures TablesOk(DropTable(m, d)) && Counts(DropTable(m, d), l) && SameEntries(m, DropTable(m, d))
  {
    TableShared(m, l, hole, d);
    var m' := DropTable(m, d);
    OwnTablesKept(m.dir, m'.dir);
    assert TablesOk(m');
    SameEntriesSameRefs(m, m');
    forall g | HighFrame(g)
      ensures Counted(m', l, g)
    {
      assert Counted(m, l, g);
      assert TableUses(m', g) == TableUses(m, g) - {d};
    }
  }

  // ---- contents -------------------------------------------------------------------

  lemma SwapWriteKeepsInv(m: Mm, l: Ledger, hole: set<(int, int)>, s: int, page: Page)
    requires InvBut(m, l, hole) && 0 <= s < SWAP_BITS && Owners(m, l, s) == 0
    ensures InvBut(m.(swap := m.swap[s := page]), l, hole)
    ensures SameEntries(m, m.(swap := m.swap[s := page]))
    ensures SameViews(m, l, m.(swap := m.swap[s := page]), l)
  {
    var m' := m.(swap := m.swap[s := page]);
    assert TablesOk(m') && SameEntries(m, m');
    SameEntriesSameRefs(m, m');
    assert forall g | HighFrame(g) :: Counted(m, l, g) && TableUses(m', g) == TableUses(m, g);
    assert forall g | HighFrame(g) :: Counted(m', l, g);
    assert forall z | 0 <= z < SWAP_BITS :: Owners(m', l, z) == Owners(m, l, z);
    assert SlotRefs(m, s) == {};
    forall d, e | UserSlot(d, e)
      ensures !Holds(At(m, d, e), s)
    {
      assert (d, e) in SlotRefs(m, s) <==> Holds(At(m, d, e), s);
    }
  }

  /** The processor stores into a page through a writable, dirty entry. */
  lemma StoreKeepsInv(m: Mm, l: Ledger, hole: set<(int, int)>, d: int, e: int, page: Page)
    requires InvBut(m, l, hole) && UserSlot(d, e) && At(m, d, e).Resident?
    requires At(m, d, e).writable && At(m, d, e).dirty && HighFrame(At(m, d, e).frame)
    ensures InvBut(m.(phys := m.phys[At(m, d, e).frame := Bytes(page)]), l, hole)
    ensures SameEntries(m, m.(phys := m.phys[At(m, d, e).frame := Bytes(page)]))
    ensures View(m.(phys := m.phys[At(m, d, e).frame := Bytes(page)]), l, d, e) == page
    ensures forall d', e' | UserSlot(d', e') && (d', e') != (d, e) ::
      View(m.(phys := m.phys[At(m, d, e).frame := Bytes(page)]), l, d', e') == View(m, l, d', e')
  {
    var f := At(m, d, e).frame;
    var m' := m.(phys := m.phys[f := Bytes(page)]);
    assert m.phys[f].Bytes?;
    assert TablesOk(m') && SameEntries(m, m');
    SameEntriesSameRefs(m, m');
    assert forall g | HighFrame(g) :: Counted(m, l, g) && TableUses(m', g) == TableUses(m, g);
    assert forall g | HighFrame(g) :: Counted(m', l, g);
    assert forall z | 0 <= z < SWAP_BITS :: Owners(m', l, z) == Owners(m, l, z);
    forall d', e' | UserSlot(d', e') && (d', e') != (d, e)
      ensures !Names(At(m, d', e'), f)
    {
      SoleRef(m, l, f, d, e, d', e');
    }
  }
}
