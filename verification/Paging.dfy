/** mm/memory.c, mm/swap.c and the memory half of kernel/fork.c over real arrays.
    Every method says what becomes of the whole paging state (Snap) and of the
    memory that each task sees (View). */
module Paging {
  import opened PageModel
  import opened PageSteps
  import opened PageOps
  import opened PageScan

  /** do_no_page goes for a page that another task has: the entry is empty, not of the heap or
      the stack, and some task that runs the same image offers the page. */
  ghost predicate Sharing(m: Mm, d: int, e: int, anonymous: bool, shareable: bool, peers: seq<bool>) {
    TablesOk(m) && UserSlot(d, e) && At(m, d, e).Empty? && !anonymous && shareable && PeerOffers(m, peers, d, e)
  }

  class Memory {
    const memMap: array<nat>
    const dir: array<Dir>
    const phys: array<Frame>
    const pg0: seq<Pte>
    const free: array<bool>
    const swapDev: array<Page>
    const high: nat
    var swapOn: bool
    var swapDir: int      // the static dir_entry of swap_out
    var swapEntry: int    // the static page_entry of swap_out
    ghost var l: Ledger
    ghost var refused: nat    // how often get_free_page found nothing

    ghost function Snap(): Mm
      reads this, memMap, dir, phys, free, swapDev
    {
      Mm(memMap[..], dir[..], phys[..], pg0, swapOn, free[..], swapDev[..], high)
    }

    ghost predicate Ok(hole: set<(int, int)>)
      reads this, memMap, dir, phys, free, swapDev
    {
      InvBut(Snap(), l, hole) && FIRST_DIR <= swapDir < ENTRIES && -1 <= swapEntry < ENTRIES
    }

    // ---- machine words ------------------------------------------------------------

    function Word(d: int, e: int): (p: Pte)
      requires TablesOk(Snap()) && UserSlot(d, e) && dir[d].PageTable?
      reads this, memMap, dir, phys, free, swapDev
      ensures p == At(Snap(), d, e)
    {
      phys[dir[d].frame].ptes[e]
    }

    method PutWord(d: int, e: int, x: Pte)
      requires TablesOk(Snap()) && UserSlot(d, e) && dir[d].PageTable?
      modifies phys
      ensures Snap() == SetPte(old(Snap()), d, e, x)
    {
      var t := dir[d].frame;
      phys[t] := Table(phys[t].ptes[e := x]);
      assert phys[..] == old(phys[..])[t := Table(old(phys[t].ptes)[e := x])];
    }

    /** Count one user less; true is the "trying to free free page" panic, or the
        panic on a page that does not exist. */
    method FreePage(f: nat) returns (panic: bool)
      requires memMap.Length == PAGING_PAGES && LOW_FRAMES <= high <= FRAMES
      requires HighFrame(f) ==> Share(memMap[..], f) < 256
      modifies memMap
      ensures panic <==> f >= LOW_FRAMES && (f >= high || Share(old(memMap[..]), f) == 0)
      ensures !panic ==> Snap() == old(Snap()).(memMap := Less(old(Snap()).memMap, f))
    {
      if f < LOW_FRAMES {
        return false;
      }
      if f >= high {
        return true;
      }
      var i := f - LOW_FRAMES;
      var was := memMap[i];
      memMap[i] := (was + 255) % 256;
      assert memMap[..] == old(memMap[..])[i := (was + 255) % 256];
      if was != 0 {
        return false;
      }
      memMap[i] := 0;
      return true;
    }

    // ---- swap slots -----------------------------------------------------------------

    method GetSwapPage() returns (s: nat)
      requires free.Length == SWAP_BITS
      modifies free
      ensures s == 0 ==> Snap() == old(Snap())
      ensures s != 0 ==> s < SWAP_BITS && swapOn && old(free[s]) && Snap() == old(Snap()).(free := old(Snap()).free[s := false])
      ensures s == 0 <==> !swapOn || forall i | 0 < i < SWAP_BITS :: !old(free[i])
      ensures forall i | 0 < i < s :: !old(free[i])
    {
      if !swapOn {
        return 0;
      }
      var nr := 1;
      while nr < SWAP_BITS
        invariant 1 <= nr <= SWAP_BITS
        invariant forall i | 0 < i < nr :: !free[i]
        invariant free[..] == old(free[..])
      {
        if free[nr] {
          free[nr] := false;
          assert free[..] == old(free[..])[nr := false];
          return nr;
        }
        nr := nr + 1;
      }
      return 0;
    }

    /** Give a slot back; bad is the "Swap-space bad" message. */
    method SwapFree(s: nat) returns (bad: bool)
      requires free.Length == SWAP_BITS
      modifies free
      ensures s == 0 ==> !bad && Snap() == old(Snap())
      ensures s != 0 ==> (bad <==> !swapOn || s >= SWAP_BITS || old(free[s]))
      ensures s != 0 && swapOn && s < SWAP_BITS ==> Snap() == old(Snap()).(free := old(Snap()).free[s := true])
    {
      if s == 0 {
        return false;
      }
      if swapOn && s < SWAP_BITS {
        var was := free[s];
        free[s] := true;
        assert free[..] == old(free[..])[s := true];
        return was;
      }
      return true;
    }

    /** Take the page of one entry away: a clean page is dropped whoever shares it, a
        dirty one goes to the swap device if it has one user and there is a slot. */
    method TryToSwapOut(d: int, e: int) returns (done: bool)
      requires Ok({}) && UserSlot(d, e) && dir[d].PageTable?
      modifies memMap, phys, free, swapDev
      ensures Ok({})
      ensures done <==> Evictable(old(Snap()), d, e)
      ensures done ==> Taken(old(Snap()), Snap(), d, e)
      ensures !done ==> Snap() == old(Snap())
      ensures done ==> Evicts(old(Snap()), Snap(), l)
      ensures done ==> Residents(Snap()) < Residents(old(Snap()))
    {
      var p := Word(d, e);
      if !p.Resident? || p.frame < LOW_FRAMES {
        return false;
      }
      ghost var m := Snap();
      NamedFrame(m, l, {}, d, e);
      assert Counted(m, l, p.frame);
      if p.dirty {
        if memMap[p.frame - LOW_FRAMES] != 1 {
          return false;
        }
        done := SwapDirty(d, e, p.frame);
      } else {
        DropClean(d, e, p.frame);
        done := true;
      }
    }

    // swap.c:182-185
    method DropClean(d: int, e: int, f: nat)
      requires Ok({}) && UserSlot(d, e) && dir[d].PageTable? && Names(At(Snap(), d, e), f) && !At(Snap(), d, e).dirty && HighFrame(f)
      modifies memMap, phys
      ensures Ok({})
      ensures Evictable(old(Snap()), d, e) && Taken(old(Snap()), Snap(), d, e)
      ensures Evicts(old(Snap()), Snap(), l) && Residents(Snap()) < Residents(old(Snap()))
    {
      ghost var m := Snap();
      NamedFrame(m, l, {}, d, e);
      assert Counted(m, l, f);
      CleanTaken(m, l, d, e);
      Drop(d, e, f);
    }

    // swap.c:171-178
    method SwapDirty(d: int, e: int, f: nat) returns (done: bool)
      requires Ok({}) && UserSlot(d, e) && dir[d].PageTable? && Names(At(Snap(), d, e), f) && At(Snap(), d, e).dirty
      requires HighFrame(f) && Share(memMap[..], f) == 1
      modifies memMap, phys, free, swapDev
      ensures Ok({})
      ensures done <==> Evictable(old(Snap()), d, e)
      ensures done ==> Taken(old(Snap()), Snap(), d, e)
      ensures !done ==> Snap() == old(Snap())
      ensures done ==> Evicts(old(Snap()), Snap(), l) && Residents(Snap()) < Residents(old(Snap()))
    {
      ghost var m := Snap();
      var s := GetSwapPage();
      if s == 0 {
        return false;
      }
      DirtyTaken(m, l, d, e, s);
      WriteOut(m, d, e, f, s);
      done := true;
    }

    // swap.c:175-178, once the slot is taken
    method WriteOut(ghost m: Mm, d: int, e: int, f: nat, s: nat)
      requires TablesOk(m) && UserSlot(d, e) && Names(At(m, d, e), f) && HighFrame(f) && f < high && m.phys[f].Bytes? && s < SWAP_BITS
      requires Snap() == m.(free := m.free[s := false]) && 0 < Share(m.memMap, f) < 256
      modifies memMap, phys, swapDev
      ensures Snap() == DirtyOut(m, d, e, s)
    {
      assert TablesOk(Snap());
      assert At(Snap(), d, e) == At(m, d, e);
      var page := phys[f].page;
      PutWord(d, e, OnSwap(s));
      swapDev[s] := page;
      assert swapDev[..] == old(swapDev[..])[s := page];
      var panic := FreePage(f);
    }

    // swap.c:182-184
    method Drop(d: int, e: int, f: nat)
      requires TablesOk(Snap()) && UserSlot(d, e) && Names(At(Snap(), d, e), f) && HighFrame(f) && f < high
      requires 0 < Share(memMap[..], f) < 256
      modifies memMap, phys
      ensures Snap() == CleanOut(old(Snap()), d, e)
    {
      PutWord(d, e, Empty);
      var panic := FreePage(f);
    }
  
    /** Scan the page tables from where the last scan stopped until one page goes.  It goes
        round once, but for what Missed says. */
    method SwapOut() returns (done: bool)
      requires Ok({})
      modifies this`swapDir, this`swapEntry, memMap, phys, free, swapDev
      ensures Ok({})
      ensures !done ==> Snap() == old(Snap()) && InVain(Snap(), old(swapDir), old(swapEntry))
      ensures done ==> OneTaken(old(Snap()), Snap(), old(swapDir), old(swapEntry))
      ensures done ==> Evicts(old(Snap()), Snap(), l)
      ensures done ==> Residents(Snap()) < Residents(old(Snap()))
    {
      ghost var m, sd, se := Snap(), swapDir, swapEntry;
      var counter: int := ENTRIES * (ENTRIES - FIRST_DIR);
      ghost var k := 0;
      while counter > 0
        invariant Ok({}) && Snap() == m && 0 <= k <= TABLES && swapDir == Turn(sd, k) && swapEntry == se
        invariant counter == ENTRIES * (TABLES - k) && Skipped(m, sd, k)
      {
        if dir[swapDir].PageTable? {
          break;
        }
        counter := counter - 1024;
        swapDir := swapDir + 1;
        if swapDir >= ENTRIES {
          swapDir := FIRST_DIR;
        }
        k := k + 1;
      }
      if counter <= 0 {
        NothingMapped(m, sd, se);
        return false;
      }
      ghost var g := k;
      while counter > 0
        invariant Ok({}) && Snap() == m && ScanAt(m, sd, se, k, g) && Looked(m, sd, se, k, g, swapEntry)
        invariant swapDir == Turn(sd, g) && dir[swapDir].PageTable?
        invariant counter == ENTRIES * (TABLES - g) - (swapEntry - se) && (g == k ==> swapEntry >= se)
      {
        var more;
        more, counter, g := NextEntry(counter, m, sd, se, k, g);
        if !more {
          return false;
        }
        ghost var x := swapEntry;
        done := TryToSwapOut(swapDir, swapEntry);
        if done {
          assert Evictable(m, Turn(sd, g), x);
          return;
        }
        LookedMore(m, sd, se, k, g, x);
      }
      ComeRound(m, sd, se, k, g, swapEntry);
      return false;
    }

    // swap.c:225-246: on to the next entry
    method NextEntry(counter0: int, ghost m: Mm, ghost sd: int, ghost se: int, ghost k: int, ghost g0: int)
      returns (more: bool, counter: int, ghost g: int)
      requires Ok({}) && Snap() == m && ScanAt(m, sd, se, k, g0) && Looked(m, sd, se, k, g0, swapEntry)
      requires swapDir == Turn(sd, g0) && dir[swapDir].PageTable? && (g0 == k ==> swapEntry >= se)
      requires counter0 == ENTRIES * (TABLES - g0) - (swapEntry - se) > 0
      modifies this`swapDir, this`swapEntry
      ensures Ok({}) && Snap() == m
      ensures more ==> ScanAt(m, sd, se, k, g) && LookedBefore(m, sd, se, k, g, swapEntry)
      ensures more ==> swapDir == Turn(sd, g) && dir[swapDir].PageTable? && 0 <= swapEntry && (g == k ==> swapEntry > se)
      ensures more ==> 0 <= counter == ENTRIES * (TABLES - g) - (swapEntry - se) < counter0
      ensures more ==> !Missed(m, sd, se, swapDir, swapEntry)
      ensures !more ==> InVain(m, sd, se)
    {
      counter, g, more := counter0 - 1, g0, true;
      swapEntry := swapEntry + 1;
      if swapEntry >= ENTRIES {
        swapEntry := 0;
        more, counter, g := NextTable(counter, m, sd, se, k, g);
        if !more {
          return;
        }
      }
      LookedAtIsNotMissed(m, sd, se, k, g, swapEntry);
    }

    // swap.c:229-245: on to the next page table, if the counter allows it
    method NextTable(counter0: int, ghost m: Mm, ghost sd: int, ghost se: int, ghost k: int, ghost g0: int)
      returns (more: bool, counter: int, ghost g: int)
      requires Ok({}) && Snap() == m && TableDone(m, sd, se, k, g0, counter0) && counter0 >= 0 && swapDir == Turn(sd, g0)
      modifies this`swapDir
      ensures FIRST_DIR <= swapDir < ENTRIES
      ensures more ==> TableBegun(m, sd, se, k, g, counter) && swapDir == Turn(sd, g) && 0 <= counter <= counter0
      ensures !more ==> InVain(m, sd, se)
    {
      counter, g, more := counter0, g0, false;
      while !more
        invariant FIRST_DIR <= swapDir < ENTRIES && swapDir == Turn(sd, g) && 0 <= counter <= counter0
        invariant if more then TableBegun(m, sd, se, k, g, counter) else TableDone(m, sd, se, k, g, counter)
        decreases !more, counter
      {
        TurnOn(m, sd, se, k, g, counter);
        swapDir := if swapDir + 1 >= ENTRIES then FIRST_DIR else swapDir + 1;
        g := g + 1;
        if dir[swapDir].PageTable? {
          more := true;
        } else {
          counter := counter - 1024;
          if counter <= 0 {
            return;
          }
        }
      }
    }

    method LastFree() returns (i: int)
      requires memMap.Length == PAGING_PAGES
      ensures -1 <= i < PAGING_PAGES
      ensures i >= 0 ==> memMap[i] == 0
      ensures i == -1 ==> !FrameFree(Snap())
      ensures forall j | i < j < PAGING_PAGES :: memMap[j] != 0
    {
      i := PAGING_PAGES - 1;
      while i >= 0 && memMap[i] != 0
        invariant -1 <= i < PAGING_PAGES
        invariant forall j | i < j < PAGING_PAGES :: memMap[j] != 0
      {
        i := i - 1;
      }
    }

    method Take(f: nat)
      requires Ok({}) && HighFrame(f) && Share(memMap[..], f) == 0
      modifies this`l, memMap, phys
      ensures Ok({}) && Snap() == Claim(old(Snap()), f) && l == Pin(old(l), f, 1) && f < high
    {
      ghost var m := Snap();
      assert Counted(m, l, f);
      assert Pins(l, f) == 0 && f < high;
      PinnedStep(m, l, {}, f, ZeroPage(), 1);
      memMap[f - LOW_FRAMES] := 1;
      phys[f] := Bytes(ZeroPage());
      l := Pin(l, f, 1);
      assert Snap() == Claim(m, f);
    }

    /** Take the last free frame, zeroed; swap pages out while there is none. */
    method GetFreePage() returns (f: nat)
      requires Ok({})
      modifies this`l, this`refused, this`swapDir, this`swapEntry, memMap, phys, free, swapDev
      ensures refused == (if f == 0 then old(refused) + 1 else old(refused))
      ensures f == 0 ==> Exhausted(Snap())
      ensures f != 0 ==> HighFrame(f) && forall g | f < g < FRAMES :: Share(memMap[..], g) != 0
      ensures Ok({})
      ensures f == 0 ==> Unseen(old(Snap()), old(l), Snap(), l)
      ensures f != 0 ==> Obtained(old(Snap()), old(l), Snap(), l, f)
    {
      var tried := true;
      while tried
        invariant Ok({}) && l == old(l) && Evicts(old(Snap()), Snap(), l)
        invariant FrameFree(old(Snap())) ==> tried && Snap() == old(Snap())
        invariant refused == old(refused) && (!tried ==> Exhausted(Snap()))
        decreases tried, Residents(Snap())
      {
        ghost var m := Snap();
        var i := LastFree();
        if i >= 0 {
          f := i + LOW_FRAMES;
          ClaimObtains(old(Snap()), m, l, f);
          Take(f);
          return;
        }
        tried := SwapOut();
        if tried { EvictsTransitive(old(Snap()), m, Snap(), l); }
      }
      f := 0;
      refused := refused + 1;
    }

    /** Bring the page of an entry back from the swap device. */
    method SwapIn(d: int, e: int) returns (r: Outcome)
      requires Ok({}) && UserSlot(d, e) && dir[d].PageTable?
      modifies this`l, this`refused, this`swapDir, this`swapEntry, memMap, phys, free, swapDev
      ensures refused >= old(refused) && (r == OutOfMemory ==> refused > old(refused) && Exhausted(Snap()))
      ensures Ok({}) && SwappedInTo(old(Snap()), old(l), Snap(), l, d, e, r)
    {
      ghost var m := Snap();
      var p := Word(d, e);
      if p.Resident? || p.Empty? {
        return Complaint;
      }
      NamedSlot(m, l, {}, d, e);
      if !swapOn || p.slot == 0 {
        return Complaint;
      }
      var ok := ReadBack(d, e, p.slot);
      return if ok then Done else OutOfMemory;
    }

    // swap.c:136-144
    method ReadBack(d: int, e: int, s: nat) returns (ok: bool)
      requires Ok({}) && UserSlot(d, e) && At(Snap(), d, e) == OnSwap(s) && s < SWAP_BITS && dir[d].PageTable?
      modifies this`l, this`refused, this`swapDir, this`swapEntry, memMap, phys, free, swapDev
      ensures refused >= old(refused) && (!ok ==> refused > old(refused) && Exhausted(Snap()))
      ensures Ok({}) && SwappedInTo(old(Snap()), old(l), Snap(), l, d, e, if ok then Done else OutOfMemory)
    {
      ghost var m := Snap();
      var f := GetFreePage();
      if f == 0 {
        return false;
      }
      SwappedInAfter(m, old(l), Snap(), l, d, e, f);
      ReadIn(d, e, f, s);
      l := Pin(l, f, 0);
      return true;
    }

    // swap.c:139-144, once the page is there
    method ReadIn(d: int, e: int, f: nat, s: nat)
      requires TablesOk(Snap()) && UserSlot(d, e) && At(Snap(), d, e) == OnSwap(s) && s < SWAP_BITS && HighFrame(f)
      requires dir[d].PageTable? && dir[d].frame != f && TablesOk(Snap().(phys := Snap().phys[f := Bytes(Snap().swap[s])]))
      modifies phys, free
      ensures Snap() == InFromSwap(old(Snap()), d, e, f)
    {
      ghost var m := Snap();
      phys[f] := Bytes(swapDev[s]);
      assert phys[..] == m.phys[f := Bytes(m.swap[s])];
      assert Snap() == m.(phys := m.phys[f := Bytes(m.swap[s])]);
      free[s] := true;
      assert free[..] == m.free[s := true];
      PutWord(d, e, Resident(f, true, true));
    }
  
    /** Make a present page writable for its task, copying it if it is shared.  `mid` is
        the state right after the allocation. */
    method UnWpPage(d: int, e: int) returns (r: Outcome, n: nat, ghost mid: Mm, ghost midL: Ledger)
      requires Ok({}) && UserSlot(d, e) && At(Snap(), d, e).Resident? && dir[d].PageTable?
      modifies this`l, this`refused, this`swapDir, this`swapEntry, memMap, phys, free, swapDev
      ensures refused >= old(refused) && (r == OutOfMemory ==> refused > old(refused) && Exhausted(Snap()))
      ensures r != Complaint
      ensures r == Done && n == 0 <==> old(HighFrame(At(Snap(), d, e).frame) && Share(memMap[..], At(Snap(), d, e).frame) == 1)
      ensures r == OutOfMemory ==> Ok({}) && Unseen(old(Snap()), old(l), Snap(), l)
      ensures r == Done && n == 0 ==> Ok({}) && Unshared(old(Snap()), old(l), Snap(), l, d, e)
      ensures r == Done && n == 0 ==> At(Snap(), d, e) == old(At(Snap(), d, e)).(writable := true) && memMap[..] == old(memMap[..])
      ensures r == Done && n != 0 ==> UnWpCopied(old(Snap()), old(l), mid, midL, Snap(), l, d, e, n)
      ensures r == Done && n != 0 && At(mid, d, e) == old(At(Snap(), d, e)) ==> Ok({(d, e)})
      ensures WriteSafe(old(Snap()), d, e) && r == Done && n != 0 ==> At(mid, d, e) == old(At(Snap(), d, e))
    {
      ghost var m := Snap();
      mid, midL := m, l;
      var p := Word(d, e);
      if p.frame >= LOW_FRAMES && memMap[p.frame - LOW_FRAMES] == 1 {
        MadeWritable(m, l, d, e);
        PutWord(d, e, p.(writable := true));
        return Done, 0, mid, midL;
      }
      n, mid, midL := CopyPage(d, e, p.frame);
      r := if n == 0 then OutOfMemory else Done;
    }

    // memory.c:369-374
    method CopyPage(d: int, e: int, f: nat) returns (n: nat, ghost mid: Mm, ghost midL: Ledger)
      requires Ok({}) && UserSlot(d, e) && dir[d].PageTable? && At(Snap(), d, e).Resident? && At(Snap(), d, e).frame == f
      modifies this`l, this`refused, this`swapDir, this`swapEntry, memMap, phys, free, swapDev
      ensures refused >= old(refused) && (n == 0 ==> refused > old(refused) && Exhausted(Snap()))
      ensures n == 0 ==> Ok({}) && Unseen(old(Snap()), old(l), Snap(), l)
      ensures n != 0 ==> UnWpCopied(old(Snap()), old(l), mid, midL, Snap(), l, d, e, n)
      ensures n != 0 && At(mid, d, e) == old(At(Snap(), d, e)) ==> Ok({(d, e)})
      ensures n != 0 && CopySafe(old(Snap()), d, e) ==> At(mid, d, e) == old(At(Snap(), d, e))
    {
      n := GetFreePage();
      mid, midL := Snap(), l;
      if n != 0 {
        CopyOutcome(old(Snap()), old(l), mid, midL, d, e, n);
        CopyAndMap(d, e, f, n);
        l := Pin(l, n, 0);
      }
    }

    // memory.c:371-374
    method CopyAndMap(d: int, e: int, f: nat, n: nat)
      requires TablesOk(Snap()) && UserSlot(d, e) && dir[d].PageTable? && HighFrame(n) && NoTable(Snap(), n)
      requires f < FRAMES && phys[f].Bytes?
      modifies memMap, phys
      ensures Snap() == AfterCopy(old(Snap()), d, e, f, n)
    {
      ghost var m := Snap();
      if f >= LOW_FRAMES {
        memMap[f - LOW_FRAMES] := (memMap[f - LOW_FRAMES] + 255) % 256;
        assert memMap[..] == m.memMap[f - LOW_FRAMES := (Share(m.memMap, f) + 255) % 256];
      }
      phys[n] := phys[f];
      assert phys[..] == m.phys[n := Bytes(m.phys[f].page)];
      PutWord(d, e, Resident(n, true, false));
    }

    /** The processor stores a byte through a writable entry and sets the dirty bit. */
    method Store(d: int, e: int, off: nat, v: byte)
      requires TablesOk(Snap()) && UserSlot(d, e) && dir[d].PageTable? && off < PAGE_SIZE
      requires At(Snap(), d, e).Resident? && At(Snap(), d, e).writable && At(Snap(), d, e).frame < FRAMES
      requires phys[At(Snap(), d, e).frame].Bytes?
      modifies phys
      ensures Snap() == AfterStore(old(Snap()), d, e, old(phys[At(Snap(), d, e).frame].page)[off := v])
      ensures |l.pins| == PAGING_PAGES ==> TablesOk(Snap()) && (Counts(Snap(), l) <==> Counts(old(Snap()), l))
      ensures old(Ok({(d, e)})) ==> Ok({}) && Stored(old(Snap()), l, Snap(), l, d, e, off, v, {(d, e)})
    {
      ghost var m := Snap();
      if |l.pins| == PAGING_PAGES { StoreKeepsCounts(m, l, d, e, phys[At(m, d, e).frame].page[off := v]); }
      if InvBut(m, l, {(d, e)}) { StoreLegal(m, l, d, e, off, v); }
      var p := Word(d, e);
      var page: Page := phys[p.frame].page[off := v];
      PutWord(d, e, Resident(p.frame, true, true));
      phys[p.frame] := Bytes(page);
      assert Snap() == AfterStore(m, d, e, page);
    }

    /** A task writes a byte of a page it has in memory: the processor faults on a
        read-only entry, un_wp_page runs, and the store is tried again.  If the allocation
        in between evicted the entry itself, the counts are wrong from then on. */
    method UserWrite(d: int, e: int, off: nat, v: byte) returns (r: Outcome, ghost kept: bool)
      requires Ok({}) && UserSlot(d, e) && dir[d].PageTable? && off < PAGE_SIZE && At(Snap(), d, e).Resident?
      modifies this`l, this`refused, this`swapDir, this`swapEntry, memMap, phys, free, swapDev
      ensures refused >= old(refused) && (r == OutOfMemory ==> refused > old(refused) && Exhausted(Snap()))
      ensures r == Done || r == OutOfMemory
      ensures r == OutOfMemory ==> Ok({}) && Unseen(old(Snap()), old(l), Snap(), l)
      ensures r == Done && kept ==> Ok({}) && Stored(old(Snap()), old(l), Snap(), l, d, e, off, v, {})
      ensures r == Done && !kept ==> TablesOk(Snap()) && l == old(l) && |l.pins| == PAGING_PAGES && !Counts(Snap(), l)
      ensures old(WriteSafe(Snap(), d, e)) ==> kept
      ensures old(At(Snap(), d, e).writable || (HighFrame(At(Snap(), d, e).frame) && Share(memMap[..], At(Snap(), d, e).frame) == 1)) ==> r == Done && kept
    {
      ghost var m := Snap();
      r, kept := WriteFault(d, e);
      if r == OutOfMemory {
        return;
      }
      ghost var m1 := Snap();
      Store(d, e, off, v);
      if kept { StoredSince(m, l, m1, Snap(), d, e, off, v); }
    }

    method WriteFault(d: int, e: int) returns (r: Outcome, ghost kept: bool)
      requires Ok({}) && UserSlot(d, e) && dir[d].PageTable? && At(Snap(), d, e).Resident?
      modifies this`l, this`refused, this`swapDir, this`swapEntry, memMap, phys, free, swapDev
      ensures refused >= old(refused) && (r == OutOfMemory ==> refused > old(refused) && Exhausted(Snap()))
      ensures r == Done || r == OutOfMemory
      ensures r == OutOfMemory ==> Ok({}) && Unseen(old(Snap()), old(l), Snap(), l)
      ensures r == Done ==> TablesOk(Snap()) && l == old(l) && |l.pins| == PAGING_PAGES && dir[d].PageTable?
      ensures r == Done ==> At(Snap(), d, e).Resident? && At(Snap(), d, e).writable && At(Snap(), d, e).frame < FRAMES
      ensures r == Done ==> phys[At(Snap(), d, e).frame].Bytes?
      ensures r == Done && kept ==> Ok({(d, e)}) && Unshared(old(Snap()), old(l), Snap(), l, d, e)
      ensures r == Done && !kept ==> !Counts(Snap(), l)
      ensures old(WriteSafe(Snap(), d, e)) ==> kept
      ensures old(At(Snap(), d, e).writable || (HighFrame(At(Snap(), d, e).frame) && Share(memMap[..], At(Snap(), d, e).frame) == 1)) ==> r == Done && kept
    {
      r, kept := Done, true;
      var p := Word(d, e);
      if !p.writable {
        ghost var m := Snap();
        ghost var mid, midL;
        var n;
        r, n, mid, midL := UnWpPage(d, e);
        kept := r == OutOfMemory || n == 0 || At(mid, d, e) == At(m, d, e);
      }
    }

    /** The kernel makes a page writable before it stores into it.  Without that store the
        page is only as safe as CopyWithoutStoreIff says. */
    method WriteVerify(d: int, e: int) returns (r: Outcome, n: nat, ghost mid: Mm, ghost midL: Ledger)
      requires Ok({}) && UserSlot(d, e)
      modifies this`l, this`refused, this`swapDir, this`swapEntry, memMap, phys, free, swapDev
      ensures refused >= old(refused) && (r == OutOfMemory ==> refused > old(refused) && Exhausted(Snap()))
      ensures r == OutOfMemory ==> Ok({}) && Unseen(old(Snap()), old(l), Snap(), l)
      ensures r == Complaint <==> !old(At(Snap(), d, e).Resident? && !At(Snap(), d, e).writable)
      ensures r == Complaint ==> Snap() == old(Snap()) && l == old(l)
      ensures r == Done && n == 0 <==> old(At(Snap(), d, e).Resident? && !At(Snap(), d, e).writable
        && HighFrame(At(Snap(), d, e).frame) && Share(memMap[..], At(Snap(), d, e).frame) == 1)
      ensures r == Done && n == 0 ==> Ok({}) && Unshared(old(Snap()), old(l), Snap(), l, d, e)
      ensures r == Done && n != 0 ==> UnWpCopied(old(Snap()), old(l), mid, midL, Snap(), l, d, e, n)
      ensures r == Done && n != 0 && At(mid, d, e) == old(At(Snap(), d, e)) ==> Ok({(d, e)}) && Unshared(old(Snap()), old(l), Snap(), l, d, e)
      ensures r == Done && n != 0 && old(WriteSafe(Snap(), d, e)) ==> At(mid, d, e) == old(At(Snap(), d, e))
    {
      mid, midL := Snap(), l;
      if dir[d].Absent? {
        return Complaint, 0, mid, midL;
      }
      var p := Word(d, e);
      if !p.Resident? || p.writable {
        return Complaint, 0, mid, midL;
      }
      r, n, mid, midL := UnWpPage(d, e);
    }
  
    /** A new, empty page table for directory slot d. */
    method NewTable(d: int) returns (ok: bool)
      requires Ok({}) && FIRST_DIR <= d < ENTRIES && dir[d].Absent?
      modifies this`l, this`refused, this`swapDir, this`swapEntry, memMap, dir, phys, free, swapDev
      ensures refused >= old(refused) && (!ok ==> refused > old(refused) && Exhausted(Snap()))
      ensures Ok({})
      ensures ok ==> TableAdded(old(Snap()), old(l), Snap(), l, d)
      ensures !ok ==> Unseen(old(Snap()), old(l), Snap(), l)
    {
      ghost var m := Snap();
      var f := GetFreePage();
      if f == 0 {
        return false;
      }
      ghost var m1 := Snap();
      TableAddedAfter(m, old(l), m1, l, d, f);
      dir[d] := PageTable(f);
      phys[f] := Table(EmptyTable());      // the zeroed page, read as a page table
      l := Pin(l, f, 0);
      assert Snap() == InstallTable(m1, d, f);
      return true;
    }

    method EnsureTable(d: int) returns (ok: bool)
      requires Ok({}) && FIRST_DIR <= d < ENTRIES
      modifies this`l, this`refused, this`swapDir, this`swapEntry, memMap, dir, phys, free, swapDev
      ensures refused >= old(refused) && (!ok ==> refused > old(refused) && Exhausted(Snap()))
      ensures Ok({}) && l == old(l)
      ensures ok ==> dir[d].PageTable? && (Snap() == old(Snap()) || TableAdded(old(Snap()), old(l), Snap(), l, d))
      ensures !ok ==> Unseen(old(Snap()), old(l), Snap(), l)
    {
      ok := true;
      if dir[d].Absent? {
        ok := NewTable(d);
      }
    }

    /** put_page and put_dirty_page: map page f at (d, e); warned is the printk about a page
        that is out of range or not counted once.  The page is mapped all the same, and then
        `mid` is the state once the page table was there. */
    method PutPage(f: nat, d: int, e: int, dirty: bool) returns (ok: bool, warned: bool, ghost mid: Mm)
      requires Ok({}) && UserSlot(d, e) && HighFrame(f)
      modifies this`l, this`refused, this`swapDir, this`swapEntry, memMap, dir, phys, free, swapDev
      ensures refused >= old(refused) && (!ok ==> refused > old(refused) && Exhausted(Snap()))
      ensures warned <==> f >= high || old(Share(memMap[..], f)) != 1
      ensures !ok ==> Ok({}) && Unseen(old(Snap()), old(l), Snap(), l)
      ensures ok && InHand(old(Snap()), old(l), f, d, e, dirty) ==> !warned && Ok({}) && Mapped(old(Snap()), old(l), Snap(), l, d, e, f, dirty)
      ensures ok && !InHand(old(Snap()), old(l), f, d, e, dirty) ==>
        (mid == old(Snap()) || TableAdded(old(Snap()), old(l), mid, l, d)) && TablesOk(mid) && mid.dir[d].PageTable?
        && Snap() == SetPte(mid, d, e, Resident(f, true, dirty)) && l == old(l)
    {
      ghost var m := Snap();
      mid := m;
      warned := f < LOW_FRAMES || f >= high || memMap[f - LOW_FRAMES] != 1;
      ok := EnsureTable(d);
      if !ok {
        return false, warned, mid;
      }
      mid := Snap();
      HandMapped(m, old(l), mid, d, e, f, dirty);
      PutWord(d, e, Resident(f, true, dirty));
      if InHand(m, old(l), f, d, e, dirty) { l := Pin(l, f, 0); }
      return true, warned, mid;
    }

    /** Share a clean page of (df, e) with (dt, e), where the same executable belongs.  `mid`
        is the state once the page table is there: the allocation of a missing table may
        have evicted the very page that is to be shared. */
    method TryToShare(df: int, dt: int, e: int) returns (done: bool, r: Outcome, ghost mid: Mm)
      requires Ok({}) && UserSlot(df, e) && UserSlot(dt, e) && df != dt && df % TASK_DIRS == dt % TASK_DIRS
      requires At(Snap(), dt, e).Empty? && l.backing(df, e) == l.backing(dt, e)
      modifies this`l, this`refused, this`swapDir, this`swapEntry, memMap, dir, phys, free, swapDev
      ensures refused >= old(refused) && (r == OutOfMemory ==> refused > old(refused) && Exhausted(Snap()))
      ensures r == Done || r == OutOfMemory
      ensures r == Done ==> (done <==> Offered(old(Snap()), df, e))
      ensures r == OutOfMemory ==> Offered(old(Snap()), df, e) && old(dir[dt]).Absent?
      ensures !done && r == Done ==> Ok({}) && Snap() == old(Snap()) && l == old(l)
      ensures r == OutOfMemory ==> !done && Ok({}) && Unseen(old(Snap()), old(l), Snap(), l)
      ensures done ==> r == Done && SharedAfter(old(Snap()), old(l), mid, Snap(), l, df, dt, e)
      ensures done && At(mid, df, e) == old(At(Snap(), df, e)) ==> Ok({})
      ensures done && (old(dir[dt]).PageTable? || FrameFree(old(Snap()))) ==> At(mid, df, e) == old(At(Snap(), df, e))
    {
      mid := Snap();
      if dir[df].Absent? {
        return false, Done, mid;
      }
      var p := Word(df, e);
      if !p.Resident? || p.dirty {
        return false, Done, mid;
      }
      if p.frame >= high || p.frame < LOW_FRAMES {
        return false, Done, mid;
      }
      ghost var m := Snap();
      if dir[dt].Absent? {
        var made := NewTable(dt);
        if !made {
          return false, OutOfMemory, mid;
        }
      }
      mid := Snap();
      ShareOutcome(m, mid, l, df, dt, e);
      MapShared(df, dt, e, p.frame);
      return true, Done, mid;
    }

    // memory.c:523-531
    method MapShared(df: int, dt: int, e: int, f: nat)
      requires TablesOk(Snap()) && UserSlot(df, e) && UserSlot(dt, e) && dir[df].PageTable? && dir[dt].PageTable? && HighFrame(f)
      modifies memMap, phys
      ensures Snap() == AfterShareOf(old(Snap()), df, dt, e, f)
    {
      ghost var m := Snap();
      var q := ReadOnly(Word(df, e));
      SetPteTablesOk(m, df, e, q);
      PutWord(df, e, q);
      PutWord(dt, e, q);
      var i := f - LOW_FRAMES;
      memMap[i] := (memMap[i] + 1) % 256;
      assert memMap[..] == m.memMap[i := (Share(m.memMap, f) + 1) % 256];
    }

    method TryPeer(t: int, d: int, e: int) returns (done: bool, r: Outcome, ghost lost: bool)
      requires Ok({}) && UserSlot(d, e) && 0 < t < 64 && t != d / TASK_DIRS
      requires At(Snap(), d, e).Empty? && l.backing(TASK_DIRS * t + d % TASK_DIRS, e) == l.backing(d, e)
      modifies this`l, this`refused, this`swapDir, this`swapEntry, memMap, dir, phys, free, swapDev
      ensures refused >= old(refused) && (r == OutOfMemory ==> refused > old(refused) && Exhausted(Snap()))
      ensures (r == Done || r == OutOfMemory) && (done ==> r == Done)
      ensures done || r == OutOfMemory <==> Offered(old(Snap()), TASK_DIRS * t + d % TASK_DIRS, e)
      ensures !lost ==> Ok({}) && NothingLost(old(Snap()), old(l), Snap(), l)
      ensures !lost && done ==> At(Snap(), d, e).Resident? && SharesWith(old(Snap()), Snap(), TASK_DIRS * t + d % TASK_DIRS, d, e)
      ensures !done && r == Done ==> !lost && Snap() == old(Snap()) && l == old(l)
      ensures lost ==> r == Done && done && l == old(l) && TablesOk(Snap()) && |l.pins| == PAGING_PAGES && !Counts(Snap(), l)
      ensures lost ==> old(dir[d]).Absent? && !FrameFree(old(Snap()))
    {
      ghost var mid;
      ghost var df := TASK_DIRS * t + d % TASK_DIRS;
      done, r, mid := TryToShare(TASK_DIRS * t + d % TASK_DIRS, d, e);
      lost := done && At(mid, df, e) != At(old(Snap()), df, e);
    }
  
    /** Ask the tasks that run the same image, last task first, for a clean page.  `lost` is
        the race of TryToShare, possible only where a table is missing, no frame is free and
        a peer has the page. */
    method SharePage(shareable: bool, peers: seq<bool>, d: int, e: int) returns (done: bool, r: Outcome, ghost lost: bool)
      requires Ok({}) && UserSlot(d, e) && At(Snap(), d, e).Empty? && |peers| == 64
      requires forall t | 0 < t < 64 && peers[t] :: l.backing(TASK_DIRS * t + d % TASK_DIRS, e) == l.backing(d, e)
      modifies this`l, this`refused, this`swapDir, this`swapEntry, memMap, dir, phys, free, swapDev
      ensures refused >= old(refused) && (r == OutOfMemory ==> refused > old(refused) && Exhausted(Snap()))
      ensures r == Done || r == OutOfMemory
      ensures !lost ==> Ok({}) && NothingLost(old(Snap()), old(l), Snap(), l)
      ensures done ==> r == Done
      ensures done || r == OutOfMemory <==> shareable && PeerOffers(old(Snap()), peers, d, e)
      ensures !lost && done ==> At(Snap(), d, e).Resident? && SharedWithPeer(old(Snap()), Snap(), peers, d, e)
      ensures !done && r == Done ==> !lost && Snap() == old(Snap())
      ensures lost ==> r == Done && l == old(l) && TablesOk(Snap()) && |l.pins| == PAGING_PAGES && !Counts(Snap(), l)
      ensures lost ==> shareable && PeerOffers(old(Snap()), peers, d, e) && old(dir[d]).Absent? && !FrameFree(old(Snap()))
    {
      lost := false;
      if !shareable {
        return false, Done, lost;
      }
      var t := 63;
      while t > 0
        invariant 0 <= t <= 63 && !lost && Ok({}) && Snap() == old(Snap()) && l == old(l) && refused >= old(refused)
        invariant forall u {:trigger peers[u]} | t < u < 64 && u != d / TASK_DIRS && peers[u] :: !Offered(Snap(), TASK_DIRS * u + d % TASK_DIRS, e)
      {
        if t != d / TASK_DIRS && peers[t] {
          done, r, lost := TryPeer(t, d, e);
          if done || r == OutOfMemory {
            assert LastPeer(old(Snap()), peers, d, e, t);
            return;
          }
        }
        t := t - 1;
      }
      return false, Done, lost;
    }

    /** A page that nothing backs: a zeroed frame. */
    method GetEmptyPage(d: int, e: int) returns (r: Outcome)
      requires Ok({}) && UserSlot(d, e) && At(Snap(), d, e).Empty? && l.backing(d, e) == ZeroPage()
      modifies this`l, this`refused, this`swapDir, this`swapEntry, memMap, dir, phys, free, swapDev
      ensures refused >= old(refused) && (r == OutOfMemory ==> refused > old(refused))
      ensures r == Done || r == OutOfMemory
      ensures Ok({}) && NothingLost(old(Snap()), old(l), Snap(), l)
      ensures r == Done ==> At(Snap(), d, e).Resident? && At(Snap(), d, e).writable && !At(Snap(), d, e).dirty
    {
      r := LoadPage(d, e, ZeroPage());
    }

    // memory.c:641-664 with the page as bread_page and the zero fill leave it, and
    // get_empty_page with the page as get_free_page leaves it
    method LoadPage(d: int, e: int, loaded: Page) returns (r: Outcome)
      requires Ok({}) && UserSlot(d, e) && At(Snap(), d, e).Empty? && l.backing(d, e) == loaded
      modifies this`l, this`refused, this`swapDir, this`swapEntry, memMap, dir, phys, free, swapDev
      ensures refused >= old(refused) && (r == OutOfMemory ==> refused > old(refused))
      ensures r == Done || r == OutOfMemory
      ensures Ok({}) && NothingLost(old(Snap()), old(l), Snap(), l)
      ensures r == Done ==> At(Snap(), d, e).Resident? && At(Snap(), d, e).writable && !At(Snap(), d, e).dirty
    {
      ghost var m := Snap();
      var f := GetFreePage();
      if f == 0 {
        return OutOfMemory;
      }
      r := MapLoaded(f, d, e, loaded, m, old(l));
    }

    // memory.c:641-664, the page in hand
    method MapLoaded(f: nat, d: int, e: int, loaded: Page, ghost m: Mm, ghost l0: Ledger) returns (r: Outcome)
      requires Ok({}) && Obtained(m, l0, Snap(), l, f) && UserSlot(d, e) && At(m, d, e).Empty? && l0.backing(d, e) == loaded
      modifies this`l, this`refused, this`swapDir, this`swapEntry, memMap, dir, phys, free, swapDev
      ensures refused >= old(refused) && (r == OutOfMemory ==> refused > old(refused))
      ensures r == Done || r == OutOfMemory
      ensures Ok({}) && NothingLost(m, l0, Snap(), l)
      ensures r == Done ==> At(Snap(), d, e).Resident? && At(Snap(), d, e).writable && !At(Snap(), d, e).dirty
    {
      ghost var m1, l1 := Snap(), l;
      assert Kept(At(m, d, e), At(m1, d, e));
      FillInHand(m, l0, m1, l1, f, loaded);
      phys[f] := Bytes(loaded);
      assert Snap() == m1.(phys := m1.phys[f := Bytes(loaded)]);
      ghost var m2 := Snap();
      ghost var mid;
      var ok, warned;
      ok, warned, mid := PutPage(f, d, e, false);
      if ok {
        LoadedNothingLost(m, l0, m2, l1, Snap(), l, d, e, f);
        return Done;
      }
      FreeLoaded(f, m, l0, m2);
      return OutOfMemory;
    }

    // memory.c:663
    method FreeLoaded(f: nat, ghost m: Mm, ghost l0: Ledger, ghost m2: Mm)
      requires Ok({}) && Inv(m, l0) && HighFrame(f) && f < high && Pins(l0, f) == 0 && l == Pin(l0, f, 1)
      requires Unseen(m2, l, Snap(), l) && SameViews(m, l0, m2, l) && m2.phys[f].Bytes?
      modifies this`l, memMap
      ensures Ok({}) && NothingLost(m, l0, Snap(), l)
    {
      GiveUp(m, l0, m2, Snap(), l, f);
      var panic := FreePage(f);
      l := Pin(l, f, 0);
    }

    /** The page fault on a page that is not present. */
    method DoNoPage(d: int, e: int, anonymous: bool, shareable: bool, peers: seq<bool>, loaded: Page) returns (r: Outcome, ghost lost: bool)
      requires Ok({}) && UserSlot(d, e) && !At(Snap(), d, e).Resident? && |peers| == 64
      requires l.backing(d, e) == if anonymous then ZeroPage() else loaded
      requires forall t | 0 < t < 64 && peers[t] :: l.backing(TASK_DIRS * t + d % TASK_DIRS, e) == l.backing(d, e)
      modifies this`l, this`refused, this`swapDir, this`swapEntry, memMap, dir, phys, free, swapDev
      ensures refused >= old(refused) && (r == OutOfMemory ==> refused > old(refused))
      ensures r == Done || r == OutOfMemory
      ensures !lost ==> Ok({}) && NothingLost(old(Snap()), old(l), Snap(), l)
      ensures !lost && r == Done ==> At(Snap(), d, e).Resident?
      ensures !lost && r == Done && Sharing(old(Snap()), d, e, anonymous, shareable, peers) ==> SharedWithPeer(old(Snap()), Snap(), peers, d, e)
      ensures !lost && r == Done && !Sharing(old(Snap()), d, e, anonymous, shareable, peers) ==>
        At(Snap(), d, e).writable && (At(Snap(), d, e).dirty <==> old(At(Snap(), d, e)).OnSwap?)
      ensures lost ==> r == Done && l == old(l) && TablesOk(Snap()) && |l.pins| == PAGING_PAGES && !Counts(Snap(), l)
      ensures lost ==> !anonymous && shareable && PeerOffers(old(Snap()), peers, d, e) && old(dir[d]).Absent? && !FrameFree(old(Snap()))
    {
      lost := false;
      if dir[d].PageTable? {
        var p := Word(d, e);
        if p.OnSwap? {
          r := SwapIn(d, e);
          return;
        }
      }
      r, lost := FillIn(d, e, anonymous, shareable, peers, loaded);
    }

    // memory.c:609-664: a page that was never there
    method FillIn(d: int, e: int, anonymous: bool, shareable: bool, peers: seq<bool>, loaded: Page) returns (r: Outcome, ghost lost: bool)
      requires Ok({}) && UserSlot(d, e) && At(Snap(), d, e).Empty? && |peers| == 64
      requires l.backing(d, e) == if anonymous then ZeroPage() else loaded
      requires forall t | 0 < t < 64 && peers[t] :: l.backing(TASK_DIRS * t + d % TASK_DIRS, e) == l.backing(d, e)
      modifies this`l, this`refused, this`swapDir, this`swapEntry, memMap, dir, phys, free, swapDev
      ensures refused >= old(refused) && (r == OutOfMemory ==> refused > old(refused))
      ensures r == Done || r == OutOfMemory
      ensures !lost ==> Ok({}) && NothingLost(old(Snap()), old(l), Snap(), l)
      ensures !lost && r == Done ==> At(Snap(), d, e).Resident?
      ensures !lost && r == Done && !anonymous && shareable && PeerOffers(old(Snap()), peers, d, e) ==> SharedWithPeer(old(Snap()), Snap(), peers, d, e)
      ensures !lost && r == Done && (anonymous || !shareable || !PeerOffers(old(Snap()), peers, d, e)) ==> At(Snap(), d, e).writable && !At(Snap(), d, e).dirty
      ensures lost ==> r == Done && l == old(l) && TablesOk(Snap()) && |l.pins| == PAGING_PAGES && !Counts(Snap(), l)
      ensures lost ==> !anonymous && shareable && PeerOffers(old(Snap()), peers, d, e) && old(dir[d]).Absent? && !FrameFree(old(Snap()))
    {
      lost := false;
      if anonymous {
        r := GetEmptyPage(d, e);
        return;
      }
      var done;
      done, r, lost := SharePage(shareable, peers, d, e);
      if done || r == OutOfMemory {
        return;
      }
      r := LoadPage(d, e, loaded);
    }
  
    // memory.c:137-144
    method FreeEntry(d: int, e: int) returns (panic: bool, bad: bool)
      requires Ok({}) && UserSlot(d, e) && dir[d].PageTable?
      modifies memMap, phys, free
      ensures !panic && !bad && Snap() == AfterRelease(old(Snap()), d, e)
    {
      ghost var m := Snap();
      ReleaseLegal(m, l, d, e);
      var p := Word(d, e);
      panic, bad := false, false;
      match p {
        case Empty =>
          return;
        case Resident(f, _, _) =>
          panic := FreePage(f);
        case OnSwap(s) =>
          bad := SwapFree(s);
      }
      PutWord(d, e, Empty);
      assert At(m, d, e) == p;
    }

    /** Release n directory slots: their pages, swap slots and page tables.  The panics
        on the kernel's own space apart, nothing can go wrong. */
    method FreePageTables(from: int, n: nat) returns (panic: bool, bad: bool)
      requires Ok({}) && (from == 0 || FIRST_DIR <= from) && from + n <= ENTRIES
      modifies memMap, dir, phys, free
      ensures Ok({}) && (panic <==> from == 0) && !bad
      ensures panic ==> Snap() == old(Snap())
      ensures !panic ==> Emptied(old(Snap()), l, Snap(), l, from, from + n)
    {
      bad := false;
      if from == 0 {
        return true, bad;
      }
      panic := false;
      ghost var m := Snap();
      var d := from;
      while d < from + n
        invariant from <= d <= from + n && !panic && !bad
        invariant Ok({}) && Emptied(m, l, Snap(), l, from, d)
      {
        if dir[d].PageTable? {
          var e := 0;
          assert Emptying(m, l, Snap(), l, from, d, 0);
          while e < ENTRIES
            invariant 0 <= e <= ENTRIES && !panic && !bad && dir[d].PageTable?
            invariant Ok({}) && Emptying(m, l, Snap(), l, from, d, e)
          {
            EmptyOne(m, l, Snap(), from, d, e);
            panic, bad := FreeEntry(d, e);
            e := e + 1;
          }
          EmptyTableGoes(m, l, Snap(), from, d);
          panic := FreeTable(d);
        }
        d := d + 1;
      }
    }

    // memory.c:147-148
    method FreeTable(d: int) returns (panic: bool)
      requires TablesOk(Snap()) && FIRST_DIR <= d < ENTRIES && dir[d].PageTable?
      requires dir[d].frame < high && Share(memMap[..], dir[d].frame) == 1
      modifies memMap, dir
      ensures !panic && Snap() == DropTable(old(Snap()), d)
    {
      ghost var m := Snap();
      panic := FreePage(dir[d].frame);
      dir[d] := Absent;
      assert dir[..] == m.dir[d := Absent];
    }

    /** Let the child's entry (td, e) show what the parent's (fd, e) shows. */
    method CopyEntry(fd: int, td: int, e: int) returns (ok: bool)
      requires Ok({}) && UserSlot(fd, e) && UserSlot(td, e) && fd != td && fd % TASK_DIRS == td % TASK_DIRS
      requires dir[fd].PageTable? && dir[td].PageTable? && At(Snap(), td, e).Empty? && l.backing(fd, e) == l.backing(td, e)
      modifies this`l, this`refused, this`swapDir, this`swapEntry, memMap, phys, free, swapDev
      ensures refused >= old(refused) && (!ok ==> refused > old(refused) && Exhausted(Snap()))
      ensures Ok({})
      ensures ok ==> Duplicated(old(Snap()), old(l), Snap(), l, fd, td, e)
      ensures ok ==> EntryCopied(old(Snap()), Snap(), fd, td, e)
      ensures !ok ==> Unseen(old(Snap()), old(l), Snap(), l)
    {
      ghost var m := Snap();
      var p := Word(fd, e);
      match p {
        case Empty =>
          return true;
        case OnSwap(s) =>
          ok := CopySwapped(fd, td, e);
          return;
        case Resident(f, _, _) =>
          ShareCopies(m, l, fd, td, e);
          CopyWord(fd, td, e, p);
      }
      return true;
    }

    // memory.c:232-240
    method CopySwapped(fd: int, td: int, e: int) returns (ok: bool)
      requires Ok({}) && UserSlot(fd, e) && UserSlot(td, e) && fd != td && fd % TASK_DIRS == td % TASK_DIRS
      requires dir[fd].PageTable? && dir[td].PageTable? && At(Snap(), td, e).Empty? && At(Snap(), fd, e).OnSwap?
      modifies this`l, this`refused, this`swapDir, this`swapEntry, memMap, phys, free, swapDev
      ensures refused >= old(refused) && (!ok ==> refused > old(refused) && Exhausted(Snap()))
      ensures Ok({})
      ensures ok ==> Duplicated(old(Snap()), old(l), Snap(), l, fd, td, e)
      ensures ok ==> EntryCopied(old(Snap()), Snap(), fd, td, e)
      ensures !ok ==> Unseen(old(Snap()), old(l), Snap(), l)
    {
      ghost var m := Snap();
      var n := GetFreePage();
      if n == 0 {
        return false;
      }
      HandoverDuplicates(m, old(l), Snap(), l, fd, td, e, n);
      HandSlotOver(fd, td, e, n);
      l := Pin(l, n, 0);
      return true;
    }

    // memory.c:236-238
    method HandSlotOver(fd: int, td: int, e: int, n: nat)
      requires TablesOk(Snap()) && UserSlot(fd, e) && UserSlot(td, e) && dir[fd].PageTable? && dir[td].PageTable?
      requires At(Snap(), fd, e).OnSwap? && At(Snap(), fd, e).slot < SWAP_BITS && HighFrame(n) && NoTable(Snap(), n)
      modifies phys
      ensures Snap() == AfterSlotHandover(old(Snap()), fd, td, e, n)
    {
      ghost var m := Snap();
      var p := Word(fd, e);
      phys[n] := Bytes(swapDev[p.slot]);
      assert Snap() == m.(phys := m.phys[n := Bytes(m.swap[p.slot])]);
      SetPteTablesOk(Snap(), td, e, p);
      PutWord(td, e, p);
      PutWord(fd, e, Resident(n, true, true));
    }

    // memory.c:241-249
    method CopyWord(fd: int, td: int, e: int, p: Pte)
      requires TablesOk(Snap()) && UserSlot(fd, e) && UserSlot(td, e) && dir[fd].PageTable? && dir[td].PageTable? && fd != td
      requires At(Snap(), fd, e) == p && p.Resident? && p.frame < FRAMES
      requires HighFrame(p.frame) ==> Share(memMap[..], p.frame) < 255
      requires !HighFrame(p.frame) ==> !p.writable
      modifies memMap, phys
      ensures Snap() == AfterShare(old(Snap()), fd, td, e)
    {
      ghost var m := Snap();
      var q := p.(writable := false);
      SetPteTablesOk(m, fd, e, q);
      SetPteTablesOk(m, td, e, q);
      PutWord(td, e, q);
      if p.frame >= LOW_FRAMES {
        PutWord(fd, e, q);
        var i := p.frame - LOW_FRAMES;
        memMap[i] := (memMap[i] + 1) % 256;
        assert memMap[..] == More(m.memMap, p.frame);
      }
      SharedEitherWay(m, fd, td, e);
    }
  
    /** Give the address space at td the memory of the one at fd, page by page. */
    method CopyPageTables(fd: int, td: int, n: nat) returns (r: Outcome)
      requires Ok({}) && Disjoint(fd, td, n) && NoTables(Snap(), td, n) && SameBacking(l, fd, td, n)
      modifies this`l, this`refused, this`swapDir, this`swapEntry, memMap, dir, phys, free, swapDev
      ensures refused >= old(refused) && (r == OutOfMemory ==> refused > old(refused) && Exhausted(Snap()))
      ensures Ok({}) && l == old(l) && (r == Done || r == OutOfMemory)
      ensures r == Done ==> Forked(old(Snap()), l, Snap(), l, fd, td, n)
      ensures forall a, b | UserSlot(a, b) && !(td <= a < td + n) :: View(Snap(), l, a, b) == View(old(Snap()), l, a, b)
    {
      ghost var m := Snap();
      var i := 0;
      while i < n
        invariant 0 <= i <= n && refused >= old(refused) && Ok({}) && l == old(l) && Copying(m, l, Snap(), l, fd, td, n, i, 0)
        invariant forall a | td + i <= a < td + n :: dir[a].Absent?
      {
        if dir[td + i].PageTable? {
          return Complaint;
        }
        TasksApart(fd, td, n, i);
        if dir[fd + i].PageTable? {
          r := CopyTable(m, fd, td, n, i);
          if r == OutOfMemory {
            return;
          }
        } else {
          CopyingNext(m, l, Snap(), fd, td, n, i, 0);
        }
        i := i + 1;
      }
      return Done;
    }

    // memory.c:218-250
    method CopyTable(ghost m: Mm, fd: int, td: int, n: nat, i: int) returns (r: Outcome)
      requires Ok({}) && Copying(m, l, Snap(), l, fd, td, n, i, 0) && i < n && SameBacking(l, fd, td, n)
      requires dir[fd + i].PageTable? && dir[td + i].Absent?
      modifies this`l, this`refused, this`swapDir, this`swapEntry, memMap, dir, phys, free, swapDev
      ensures refused >= old(refused) && (r == OutOfMemory ==> refused > old(refused) && Exhausted(Snap()))
      ensures Ok({}) && l == old(l) && (r == Done || r == OutOfMemory)
      ensures r == Done ==> Copying(m, l, Snap(), l, fd, td, n, i + 1, 0)
      ensures r == Done ==> forall a | td + i < a < td + n :: dir[a].Absent?
      ensures forall a, b | UserSlot(a, b) && !(td <= a < td + n) :: View(Snap(), l, a, b) == View(m, l, a, b)
    {
      ghost var m1 := Snap();
      TasksApart(fd, td, n, i);
      var ok := NewTable(td + i);
      if !ok {
        CopyingUnseen(m, l, m1, Snap(), fd, td, n, i, 0);
        return OutOfMemory;
      }
      CopyingTable(m, l, m1, Snap(), fd, td, n, i);
      r := CopyEntries(m, fd, td, n, i);
      if r == Done {
        CopyingNext(m, l, Snap(), fd, td, n, i, ENTRIES);
      }
    }

    // memory.c:226-250
    method CopyEntries(ghost m: Mm, fd: int, td: int, n: nat, i: int) returns (r: Outcome)
      requires Ok({}) && Copying(m, l, Snap(), l, fd, td, n, i, 0) && i < n && SameBacking(l, fd, td, n)
      requires dir[fd + i].PageTable? && dir[td + i].PageTable?
      modifies this`l, this`refused, this`swapDir, this`swapEntry, memMap, phys, free, swapDev
      ensures refused >= old(refused) && (r == OutOfMemory ==> refused > old(refused) && Exhausted(Snap()))
      ensures Ok({}) && l == old(l) && (r == Done || r == OutOfMemory)
      ensures r == Done ==> Copying(m, l, Snap(), l, fd, td, n, i, ENTRIES)
      ensures forall a, b | UserSlot(a, b) && !(td <= a < td + n) :: View(Snap(), l, a, b) == View(m, l, a, b)
    {
      TasksApart(fd, td, n, i);
      var e := 0;
      while e < ENTRIES
        invariant 0 <= e <= ENTRIES && refused >= old(refused) && Ok({}) && l == old(l) && Copying(m, l, Snap(), l, fd, td, n, i, e)
      {
        var ok := CopyNext(m, fd, td, n, i, e);
        if !ok {
          return OutOfMemory;
        }
        e := e + 1;
      }
      return Done;
    }

    /** Entry e of table i, and with it the copy one entry further. */
    method CopyNext(ghost m: Mm, fd: int, td: int, n: nat, i: int, e: int) returns (ok: bool)
      requires Ok({}) && Copying(m, l, Snap(), l, fd, td, n, i, e) && i < n && e < ENTRIES && SameBacking(l, fd, td, n)
      requires dir[fd + i].PageTable? && dir[td + i].PageTable?
      modifies this`l, this`refused, this`swapDir, this`swapEntry, memMap, phys, free, swapDev
      ensures refused >= old(refused) && (!ok ==> refused > old(refused) && Exhausted(Snap()))
      ensures Ok({}) && l == old(l)
      ensures ok ==> EntryCopied(old(Snap()), Snap(), fd + i, td + i, e)
      ensures ok ==> Copying(m, l, Snap(), l, fd, td, n, i, e + 1)
      ensures !ok ==> forall a, b | UserSlot(a, b) && !(td <= a < td + n) :: View(Snap(), l, a, b) == View(m, l, a, b)
    {
      ghost var m2 := Snap();
      CopyingReady(m, l, m2, fd, td, n, i, e);
      ok := CopyEntry(fd + i, td + i, e);
      if !ok {
        CopyingUnseen(m, l, m2, Snap(), fd, td, n, i, e);
      } else {
        CopyingEntry(m, l, m2, Snap(), fd, td, n, i, e);
      }
    }

    /** The same for the first fork, from address 0: one table, its first 160 pages, shared
        with the kernel and not counted. */
    method CopyKernelTable(td: int) returns (r: Outcome)
      requires Ok({}) && FIRST_DIR <= td < ENTRIES && dir[td].Absent?
      modifies this`l, this`refused, this`swapDir, this`swapEntry, memMap, dir, phys, free, swapDev
      ensures refused >= old(refused) && (r == OutOfMemory ==> refused > old(refused) && Exhausted(Snap()))
      ensures Ok({}) && l == old(l) && (r == Done || r == OutOfMemory)
      ensures r == Done ==> CopyingKernel(old(Snap()), l, Snap(), l, td, 160)
      ensures r == OutOfMemory ==> Unseen(old(Snap()), old(l), Snap(), l)
    {
      ghost var m := Snap();
      var ok := NewTable(td);
      if !ok {
        return OutOfMemory;
      }
      KernelTableReady(m, l, Snap(), td);
      var e := 0;
      while e < 160
        invariant 0 <= e <= 160 && refused >= old(refused) && Ok({}) && l == old(l) && dir[td].PageTable? && CopyingKernel(m, l, Snap(), l, td, e)
      {
        ghost var m1 := Snap();
        var p := pg0[e];
        KernelPageLegal(m1, l, td, e, p.dirty);
        PutWord(td, e, p.(writable := false));
        CopyingKernelEntry(m, l, m1, Snap(), td, e);
        e := e + 1;
      }
      return Done;
    }

    /** fork's copy_mem: duplicate the parent's memory, or undo the half-made copy. */
    method CopyMem(parent: nat, child: nat, n: nat) returns (r: Outcome)
      requires Ok({}) && 0 < parent < 64 && 0 < child < 64 && parent != child && n <= TASK_DIRS
      requires NoTables(Snap(), TASK_DIRS * child, n)
      modifies this`l, this`refused, this`swapDir, this`swapEntry, memMap, dir, phys, free, swapDev
      ensures refused >= old(refused) && (r == OutOfMemory ==> refused > old(refused))
      ensures Ok({}) && (r == Done || r == OutOfMemory)
      ensures r == Done ==> Forked(old(Snap()), old(l), Snap(), l, TASK_DIRS * parent, TASK_DIRS * child, n)
      ensures r == OutOfMemory ==> NotForked(old(Snap()), old(l), Snap(), l, TASK_DIRS * child, n)
    {
      ghost var m := Snap();
      var fd, td := TASK_DIRS * parent, TASK_DIRS * child;
      InheritKeepsInv(m, l, fd, td, n);
      l := Inherit(l, fd, td, n);
      r := CopyPageTables(fd, td, n);
      if r == OutOfMemory {
        ghost var m1 := Snap();
        var panic, bad := FreePageTables(td, n);
        UndoneFork(m, old(l), m1, Snap(), l, td, n);
      } else {
        DoneFork(m, old(l), Snap(), l, fd, td, n);
      }
    }
  }
}
