/** The scan of swap_out: which pages it may take, which of them it looks at from where the
    last scan stopped, and which it passes over. */
module PageScan {
  import opened PageModel
  import opened PageOps

  const TABLES: nat := ENTRIES - FIRST_DIR      // VM_PAGES / 1024

  /** A page that can be taken away: of paged memory; clean, or with one user and a swap slot
      to go to. */
  ghost predicate Evictable(m: Mm, d: int, e: int)
    requires TablesOk(m)
  {
    && UserSlot(d, e) && At(m, d, e).Resident? && HighFrame(At(m, d, e).frame)
    && (At(m, d, e).dirty ==> Share(m.memMap, At(m, d, e).frame) == 1 && m.swapOn && exists s :: 0 < s < SWAP_BITS && m.free[s])
  }

  /** The entry's page was taken: a clean one is forgotten, a dirty one has gone to a slot that
      was free; every other entry is as before. */
  ghost predicate Taken(m: Mm, m': Mm, d: int, e: int)
    requires TablesOk(m) && TablesOk(m') && UserSlot(d, e)
  {
    && At(m, d, e).Resident? && (At(m', d, e).Empty? <==> !At(m, d, e).dirty)
    && (At(m, d, e).dirty ==> At(m', d, e).OnSwap? && 0 < At(m', d, e).slot < SWAP_BITS && m.free[At(m', d, e).slot] && !m'.free[At(m', d, e).slot])
    && (forall d', e' | UserSlot(d', e') && (d', e') != (d, e) :: At(m', d', e') == At(m, d', e'))
  }

  /** Some page was taken that the scan from entry se of table sd looks at. */
  ghost predicate OneTaken(m: Mm, m': Mm, sd: int, se: int)
    requires TablesOk(m) && TablesOk(m')
  {
    exists d, e :: Evictable(m, d, e) && !Missed(m, sd, se, d, e) && Taken(m, m', d, e)
  }

  /** d is the first page table from sd on, around the end of the directory. */
  ghost predicate FirstTable(m: Mm, sd: int, d: int)
    requires |m.dir| == ENTRIES
  {
    && FIRST_DIR <= d < ENTRIES && m.dir[d].PageTable?
    && forall c | FIRST_DIR <= c < ENTRIES && (if sd <= d then sd <= c < d else sd <= c || c < d) :: m.dir[c].Absent?
  }

  /** What a scan does not look at that goes on behind entry se of table sd: if that table is
      gone meanwhile, entries 0 to se of the next one; otherwise only entry 0 of that table, if
      the last scan stopped there and there is no table right before it. */
  ghost predicate Missed(m: Mm, sd: int, se: int, d: int, e: int)
    requires |m.dir| == ENTRIES
  {
    && FirstTable(m, sd, d)
    && if d == sd then e == 0 == se && m.dir[if sd == FIRST_DIR then ENTRIES - 1 else sd - 1].Absent? else e <= se
  }

  /** No frame is free, and no page can be taken that some scan would look at. */
  ghost predicate Exhausted(m: Mm) {
    TablesOk(m) && !FrameFree(m) && exists sd, se :: FIRST_DIR <= sd < ENTRIES && -1 <= se < ENTRIES && InVain(m, sd, se)
  }

  ghost predicate InVain(m: Mm, sd: int, se: int)
    requires TablesOk(m)
  {
    forall d, e {:trigger Evictable(m, d, e)} | Evictable(m, d, e) :: Missed(m, sd, se, d, e)
  }

  lemma DirtyTaken(m: Mm, l: Ledger, d: int, e: int, s: nat)
    requires Inv(m, l) && UserSlot(d, e) && At(m, d, e).Resident? && HighFrame(At(m, d, e).frame)
    requires At(m, d, e).dirty && Share(m.memMap, At(m, d, e).frame) == 1
    requires 0 < s < SWAP_BITS && m.swapOn && m.free[s]
    ensures Inv(DirtyOut(m, d, e, s), l) && Evicts(m, DirtyOut(m, d, e, s), l) && Residents(DirtyOut(m, d, e, s)) < Residents(m)
    ensures Evictable(m, d, e) && Taken(m, DirtyOut(m, d, e, s), d, e)
  {
    DirtyOutEvicts(m, l, d, e, s);
    SetPteAt(m, d, e, OnSwap(s));
    assert forall a, b | UserSlot(a, b) :: At(DirtyOut(m, d, e, s), a, b) == At(SetPte(m, d, e, OnSwap(s)), a, b);
  }

  lemma CleanTaken(m: Mm, l: Ledger, d: int, e: int)
    requires Inv(m, l) && UserSlot(d, e) && At(m, d, e).Resident? && HighFrame(At(m, d, e).frame) && !At(m, d, e).dirty
    ensures Inv(CleanOut(m, d, e), l) && Evicts(m, CleanOut(m, d, e), l) && Residents(CleanOut(m, d, e)) < Residents(m)
    ensures Evictable(m, d, e) && Taken(m, CleanOut(m, d, e), d, e)
  {
    CleanOutEvicts(m, l, d, e);
    SetPteAt(m, d, e, Empty);
    assert forall a, b | UserSlot(a, b) :: At(CleanOut(m, d, e), a, b) == At(SetPte(m, d, e, Empty), a, b);
  }

  // ---- how far the scan is -------------------------------------------------------------------------

  /** The i-th directory slot from sd on. */
  function Turn(sd: int, i: int): int { if sd + i < ENTRIES then sd + i else sd + i - TABLES }

  /** The first k slots from sd on have no table. */
  ghost predicate Skipped(m: Mm, sd: int, k: int)
    requires |m.dir| == ENTRIES && FIRST_DIR <= sd < ENTRIES && 0 <= k <= TABLES
  {
    forall i | 0 <= i < k :: m.dir[Turn(sd, i)].Absent?
  }

  /** Everything was looked at in vain from behind entry se of the k-th table on up to entry x
      of the g-th. */
  ghost predicate Looked(m: Mm, sd: int, se: int, k: int, g: int, x: int)
    requires TablesOk(m)
  {
    forall i, e {:trigger Evictable(m, Turn(sd, i), e)} |
      k <= i <= g && 0 <= e < ENTRIES && (i == k ==> e > se) && (i == g ==> e <= x) :: !Evictable(m, Turn(sd, i), e)
  }

  /** The k-th table from sd on is the first one, and the scan is at the g-th. */
  ghost predicate ScanAt(m: Mm, sd: int, se: int, k: int, g: int) {
    && TablesOk(m) && FIRST_DIR <= sd < ENTRIES && -1 <= se < ENTRIES && 0 <= k <= g <= TABLES && k < TABLES
    && Skipped(m, sd, k) && m.dir[Turn(sd, k)].PageTable?
    && (g == TABLES ==> se > 0 || m.dir[Turn(sd, TABLES - 1)].PageTable?)
  }

  lemma Before(m: Mm, sd: int, d: int, k: int, i: int)
    requires |m.dir| == ENTRIES && FIRST_DIR <= sd < ENTRIES && 0 <= k < i < TABLES && d == Turn(sd, i) && FirstTable(m, sd, d)
    ensures m.dir[Turn(sd, k)].Absent?
  {
  }

  lemma FirstIsTurn(m: Mm, sd: int, k: int, d: int)
    requires |m.dir| == ENTRIES && FIRST_DIR <= sd < ENTRIES && 0 <= k < TABLES && Skipped(m, sd, k) && m.dir[Turn(sd, k)].PageTable?
    ensures FirstTable(m, sd, d) <==> d == Turn(sd, k)
  {
    if FirstTable(m, sd, d) {
      var i := if sd <= d then d - sd else d - sd + TABLES;
      assert Turn(sd, i) == d;
      if i > k { Before(m, sd, d, k, i); }
    }
    forall c | FIRST_DIR <= c < ENTRIES && (if sd <= Turn(sd, k) then sd <= c < Turn(sd, k) else sd <= c || c < Turn(sd, k))
      ensures m.dir[c].Absent?
    {
      var i := if sd <= c then c - sd else c - sd + TABLES;
      assert Turn(sd, i) == c && i < k;
    }
  }

  /** What the scan looks at it does not miss. */
  lemma LookedAtIsNotMissed(m: Mm, sd: int, se: int, k: int, g: int, x: int)
    requires ScanAt(m, sd, se, k, g) && 0 <= x < ENTRIES && m.dir[Turn(sd, g)].PageTable?
    requires (g == k ==> x > se) && (g == TABLES ==> x <= se)
    ensures !Missed(m, sd, se, Turn(sd, g), x)
  {
    FirstIsTurn(m, sd, k, Turn(sd, g));
    if g == TABLES { assert k == 0; }
  }

  /** Everything was looked at in vain up to right before entry x of the g-th table. */
  ghost predicate LookedBefore(m: Mm, sd: int, se: int, k: int, g: int, x: int)
    requires TablesOk(m)
  {
    if x > 0 then Looked(m, sd, se, k, g, x - 1) else Looked(m, sd, se, k, g - 1, ENTRIES - 1)
  }

  lemma LookedMore(m: Mm, sd: int, se: int, k: int, g: int, x: int)
    requires TablesOk(m) && LookedBefore(m, sd, se, k, g, x) && 0 <= x < ENTRIES && !Evictable(m, Turn(sd, g), x)
    ensures Looked(m, sd, se, k, g, x)
  {
  }

  lemma LookedThere(m: Mm, sd: int, se: int, k: int, g: int, x: int, i: int, e: int)
    requires TablesOk(m) && Looked(m, sd, se, k, g, x)
    requires k <= i <= g && 0 <= e < ENTRIES && (i == k ==> e > se) && (i == g ==> e <= x)
    ensures !Evictable(m, Turn(sd, i), e)
  {
  }

  /** A scan that has come round has looked at all it does not miss. */
  lemma ComeRound(m: Mm, sd: int, se: int, k: int, g: int, x: int)
    requires TablesOk(m) && FIRST_DIR <= sd < ENTRIES && -1 <= se < ENTRIES && 0 <= k <= g <= TABLES && k < TABLES
    requires Skipped(m, sd, k) && m.dir[Turn(sd, k)].PageTable? && Looked(m, sd, se, k, g, x)
    requires if g == TABLES then x >= se else g == TABLES - 1 && x == ENTRIES - 1 && (se == -1 || (se == 0 && m.dir[Turn(sd, g)].Absent?))
    ensures InVain(m, sd, se)
  {
    forall d, e | Evictable(m, d, e)
      ensures Missed(m, sd, se, d, e)
    {
      var i := if sd <= d then d - sd else d - sd + TABLES;
      assert Turn(sd, i) == d;
      assert i >= k;
      FirstIsTurn(m, sd, k, d);
      if i > k || e > se || (k == 0 && g == TABLES) {
        LookedThere(m, sd, se, k, g, x, if i > k || e > se then i else TABLES, e);
      }
    }
  }

  ghost predicate NoneMissed(m: Mm, sd: int, se: int)
    requires |m.dir| == ENTRIES
  {
    forall d, e {:trigger Missed(m, sd, se, d, e)} | UserSlot(d, e) :: !Missed(m, sd, se, d, e)
  }

  /** A scan looks at every page exactly if the table where the last one stopped is still
      there, and, should it have stopped at entry 0, the table before it too; or if it is the
      first scan, or there are no tables. */
  lemma NoneMissedIff(m: Mm, sd: int, se: int)
    requires |m.dir| == ENTRIES && FIRST_DIR <= sd < ENTRIES && -1 <= se < ENTRIES
    ensures NoneMissed(m, sd, se) <==>
      || se == -1 || (forall d | FIRST_DIR <= d < ENTRIES :: m.dir[d].Absent?)
      || (m.dir[sd].PageTable? && (se > 0 || m.dir[if sd == FIRST_DIR then ENTRIES - 1 else sd - 1].PageTable?))
  {
    if d0 :| FIRST_DIR <= d0 < ENTRIES && m.dir[d0].PageTable? {
      var k := FirstFrom(m, sd, if sd <= d0 then d0 - sd else d0 - sd + TABLES);
      FirstIsTurn(m, sd, k, Turn(sd, k));
      assert Missed(m, sd, se, Turn(sd, k), 0) <==> if k == 0 then se == 0 && m.dir[if sd == FIRST_DIR then ENTRIES - 1 else sd - 1].Absent? else 0 <= se;
      forall d, e | UserSlot(d, e) && Missed(m, sd, se, d, e)
        ensures Missed(m, sd, se, Turn(sd, k), 0)
      {
        FirstIsTurn(m, sd, k, d);
      }
    }
  }

  /** All of the g-th table and before was looked at in vain; so much of the counter is left. */
  ghost predicate TableDone(m: Mm, sd: int, se: int, k: int, g: int, counter: int) {
    && ScanAt(m, sd, se, k, g) && g < TABLES && Looked(m, sd, se, k, g, ENTRIES - 1) && counter == ENTRIES * (TABLES - g - 1) + se
    && (g == TABLES - 1 ==> se > 0 || m.dir[Turn(sd, g)].PageTable?)
  }

  /** The g-th slot has a table, of which nothing was looked at yet. */
  ghost predicate TableBegun(m: Mm, sd: int, se: int, k: int, g: int, counter: int) {
    && ScanAt(m, sd, se, k, g) && m.dir[Turn(sd, g)].PageTable? && k < g && Looked(m, sd, se, k, g - 1, ENTRIES - 1)
    && counter == ENTRIES * (TABLES - g) + se
  }

  lemma TurnOn(m: Mm, sd: int, se: int, k: int, g: int, counter: int)
    requires TableDone(m, sd, se, k, g, counter)
    ensures Turn(sd, g + 1) == if Turn(sd, g) + 1 >= ENTRIES then FIRST_DIR else Turn(sd, g) + 1
    ensures if m.dir[Turn(sd, g + 1)].PageTable? then TableBegun(m, sd, se, k, g + 1, counter)
      else if counter > 1024 then TableDone(m, sd, se, k, g + 1, counter - 1024)
      else InVain(m, sd, se)
  {
    if m.dir[Turn(sd, g + 1)].Absent? {
      assert Looked(m, sd, se, k, g + 1, ENTRIES - 1);
      if counter <= 1024 { ComeRound(m, sd, se, k, g + 1, ENTRIES - 1); }
    }
  }

  lemma {:induction false} FirstFrom(m: Mm, sd: int, i: int) returns (k: int)
    requires |m.dir| == ENTRIES && FIRST_DIR <= sd < ENTRIES && 0 <= i < TABLES && m.dir[Turn(sd, i)].PageTable?
    ensures 0 <= k <= i && Skipped(m, sd, k) && m.dir[Turn(sd, k)].PageTable?
    decreases i
  {
    if j :| 0 <= j < i && m.dir[Turn(sd, j)].PageTable? {
      k := FirstFrom(m, sd, j);
    } else {
      k := i;
    }
  }

  lemma NothingMapped(m: Mm, sd: int, se: int)
    requires TablesOk(m) && FIRST_DIR <= sd < ENTRIES && Skipped(m, sd, TABLES)
    ensures InVain(m, sd, se)
  {
    forall d | FIRST_DIR <= d < ENTRIES
      ensures m.dir[d].Absent?
    {
      assert d == Turn(sd, if sd <= d then d - sd else d - sd + TABLES);
    }
  }
}
