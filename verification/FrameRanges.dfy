/**
 `vmem_32_alloc_frames`: mapping a run of given frames at a run of pages, the
 two-level counterpart of one assignment to the flat map.
 */
module FrameRanges {
  import opened Words
  import opened FrameMap
  import opened Accounting
  import opened FlatMap
  import opened Paging
  import opened Vmem32
  import opened Ledger
  import opened PageRanges

  /** Page pg translates to frame pg + base, for all pages of [lo, hi). */
  ghost predicate MapsTo(phys: Memory, pd: nat, lo: nat, hi: nat, base: int, flags: Word) {
    && Tree(phys, pd) && hi <= MAX_FRAMES && 0 <= lo + base && hi + base < WORD
    && (forall pg :: lo <= pg < hi ==>
          Look(phys, pd, pg) == pg + base && Entry(phys, pd, pg) == PteCreate(pg + base, flags))
  }

  // ---- when mapping succeeds ---------------------------------------------------------

  ghost predicate AllRefable(m: seq<Byte>, pfindex: nat, n: nat) {
    forall f :: pfindex <= f < pfindex + n ==> RefableFrame(m, f)
  }

  /** Exactly the frames mapped at pages [lo, hi) have gained a reference, and the table
      in frame c, if any, has been left mapped. */
  ghost predicate Tally(m0: seq<Byte>, m: seq<Byte>, lo: nat, hi: nat, base: int, c: nat) {
    && |m| == |m0| && (|m| > 0 ==> m[0] == m0[0])
    && (forall f :: 1 <= f < |m0| ==>
          && GetRef(m[f]) == GetRef(m0[f]) + (if lo <= f - base < hi then 1 else 0) + Extra(f, c)
          && GetType(m[f]) == GetType(m0[f]))
  }

  lemma TallyNone(m: seq<Byte>, pg: nat, base: int)
    ensures Tally(m, m, pg, pg, base, 0)
  {
  }

  lemma TallyStep(m1: seq<Byte>, m: seq<Byte>, m': seq<Byte>, lo: nat, pg: nat, base: int)
    requires Tally(m1, m, lo, pg, base, 0) && lo <= pg && 0 < pg + base < |m|
    requires RefMoved(m, m', pg + base, 0) && m'[0] == m[0]
    ensures Tally(m1, m', lo, pg + 1, base, 0)
  {
  }

  lemma TallyJoins(m0: seq<Byte>, m1: seq<Byte>, m2: seq<Byte>, lo: nat, mid: nat, hi: nat, base: int, c: nat)
    requires Tally(m0, m1, lo, mid, base, 0) && Tally(m1, m2, mid, hi, base, c) && lo <= mid <= hi
    ensures Tally(m0, m2, lo, hi, base, c)
  {
  }

  /** Mapping a table temporarily around the pass shows in the tally only until it is
      unmapped. */
  lemma TallyMapped(empty: bool, m0: seq<Byte>, m1: seq<Byte>, m2: seq<Byte>, c: nat,
                    pfindex: nat, count: nat, lo: nat, hi: nat, base: int)
    requires empty ==> Opened(m0, m1, c, pfindex, count) && Tally(m1, m2, lo, hi, base, 0)
    ensures empty ==> Tally(m0, m2, lo, hi, base, c)
  {
  }

  lemma TallyUnmapped(empty: bool, m0: seq<Byte>, m2: seq<Byte>, m3: seq<Byte>, c: nat, lo: nat, hi: nat, base: int)
    requires c > 0 && RefMoved(m2, m3, 0, c) && |m2| > 0 && m3[0] == m2[0]
    requires empty ==> Tally(m0, m2, lo, hi, base, c)
    ensures empty ==> Tally(m0, m3, lo, hi, base, 0)
  {
  }

  /** A frame not yet mapped is as refable as it was. */
  lemma RefableStill(m0: seq<Byte>, m: seq<Byte>, lo: nat, pg: nat, base: int, f: nat)
    requires Tally(m0, m, lo, pg, base, 0) && f >= 1 && f - base >= pg
    ensures RefableFrame(m, f) <==> RefableFrame(m0, f)
  {
  }

  /** Nor does the temporary mapping of a table decide whether a frame is refable,
      unless it is the table's own and nearly saturated. */
  lemma RefableThroughMapping(m0: seq<Byte>, m1: seq<Byte>, c: nat, f: nat)
    requires RefMoved(m0, m1, c, 0) && f >= 1 && c < |m0| && GetRef(m0[c]) > 0
    requires f == c ==> GetRef(m0[c]) + 1 < MAX_REF
    ensures RefableFrame(m1, f) <==> RefableFrame(m0, f)
  {
  }

  lemma FrameStored(phys: Memory, m: seq<Byte>, m': seq<Byte>, pd: nat, tmp: nat,
                    s: nat, j: nat, f: nat, flags: Word)
    requires WellFormed(phys, pd, tmp) && |m| == |phys| <= MAX_FRAMES
    requires s < TABLE_LEN && s != TMP_SLOT && j < TABLE_LEN && Child(phys, pd, s) != 0
    requires f < |m| && RefMoved(m, m', f, FrameOf(phys[Child(phys, pd, s)][j]))
    ensures var phys' := Stored(phys, Child(phys, pd, s), j, PteCreate(f, flags));
            var pg := s * TABLE_LEN + j;
            && Filling(phys, m, phys', m', pd, tmp, pg, pg + 1, GainAt(f - pg))
            && Entry(phys', pd, pg) == PteCreate(f, flags) && Look(phys', pd, pg) == f
  {
    EntryRoundTrip(f, flags);
    StorePage(phys, pd, tmp, s, j, PteCreate(f, flags));
    var pg := s * TABLE_LEN + j;
    assert pg / TABLE_LEN == s && pg % TABLE_LEN == j;
  }

  lemma FrameFillStep(phys1: Memory, m1: seq<Byte>, phys: Memory, m: seq<Byte>, m': seq<Byte>,
                      pd: nat, tmp: nat, s: nat, j: nat, lo: nat, pgindex: nat, n: nat, base: int, flags: Word)
    requires Filling(phys1, m1, phys, m, pd, tmp, pgindex, pgindex + n, GainAt(base)) && |m| <= MAX_FRAMES
    requires WellFormed(phys, pd, tmp) && |m| == |phys|
    requires s < TABLE_LEN && s != TMP_SLOT && j < TABLE_LEN && Child(phys, pd, s) != 0
    requires pgindex + n == s * TABLE_LEN + j && lo <= pgindex
    requires MapsTo(phys, pd, lo, pgindex + n, base, flags)
    requires 0 <= pgindex + n + base < |m|
    requires RefMoved(m, m', pgindex + n + base, FrameOf(phys[Child(phys, pd, s)][j]))
    ensures var phys' := Stored(phys, Child(phys, pd, s), j, PteCreate(pgindex + n + base, flags));
            && Filling(phys1, m1, phys', m', pd, tmp, pgindex, pgindex + n + 1, GainAt(base))
            && MapsTo(phys', pd, lo, pgindex + n + 1, base, flags)
  {
    hide Progress, Filling, MapsTo;
    var pg := pgindex + n;
    var phys' := Stored(phys, Child(phys, pd, s), j, PteCreate(pg + base, flags));
    FrameStored(phys, m, m', pd, tmp, s, j, pg + base, flags);
    FillingJoins(phys1, m1, phys, m, phys', m', pd, tmp, pgindex, pg, pg + 1, base);
    MapsToExtends(phys, m, phys', m', pd, tmp, lo, pg, base, flags);
  }

  lemma FillingJoins(phys0: Memory, m0: seq<Byte>, phys1: Memory, m1: seq<Byte>, phys2: Memory, m2: seq<Byte>,
                     pd: nat, tmp: nat, lo: nat, mid: nat, hi: nat, base: int)
    requires lo <= mid <= hi
    requires Filling(phys0, m0, phys1, m1, pd, tmp, lo, mid, GainAt(base))
    requires Filling(phys1, m1, phys2, m2, pd, tmp, mid, hi, GainAt(base))
    ensures Filling(phys0, m0, phys2, m2, pd, tmp, lo, hi, GainAt(base))
  {
    ProgressJoins(phys0, m0, phys1, m1, phys2, m2, pd, tmp, lo, mid, hi, GainAt(base));
  }

  lemma MapsToExtends(phys: Memory, m: seq<Byte>, phys': Memory, m': seq<Byte>,
                      pd: nat, tmp: nat, lo: nat, pg: nat, base: int, flags: Word)
    requires MapsTo(phys, pd, lo, pg, base, flags) && lo <= pg < MAX_FRAMES && pg + base + 1 < WORD
    requires Filling(phys, m, phys', m', pd, tmp, pg, pg + 1, GainAt(base))
    requires Entry(phys', pd, pg) == PteCreate(pg + base, flags) && Look(phys', pd, pg) == pg + base
    ensures MapsTo(phys', pd, lo, pg + 1, base, flags)
  {
    forall p | lo <= p < pg
      ensures Look(phys', pd, p) == p + base && Entry(phys', pd, p) == PteCreate(p + base, flags)
    {
      assert Entry(phys, pd, p) == PteCreate(p + base, flags);
    }
  }

  /** The inner loop of `vmem_32_alloc_frames`. */
  method FillFrames(mem: PagedMemory, pd: nat, s: nat, pt: nat, pfindex: Word, pgindex: nat, pgcount: nat,
                    flags: Word, ghost lo: nat, ghost empty: bool)
    returns (res: int, n: nat)
    requires mem.Valid() && WellFormed(mem.phys, pd, mem.tmp) && pd in mem.shares.dirs
    requires pgindex + pgcount <= MAX_FRAMES && pgcount > 0 && pfindex + pgcount < WORD
    requires s == pgindex / TABLE_LEN && s != TMP_SLOT && Child(mem.phys, pd, s) != 0
    requires TMP_PAGE <= pt < TMP_PAGE + TABLE_LEN && TempFrame(mem.phys, mem.tmp, pt) == Child(mem.phys, pd, s)
    requires lo <= pgindex && MapsTo(mem.phys, pd, lo, pgindex, pfindex - pgindex, flags)
    requires empty ==> pfindex > 0 && AllEmpty(mem.phys, pd, pgindex, pgindex + pgcount)
    modifies mem`phys, mem.pmem.memmap
    ensures mem.Valid()
    ensures res <= 0 && n <= Min(pgcount, TABLE_LEN - pgindex % TABLE_LEN)
    ensures res == 0 <==> n == Min(pgcount, TABLE_LEN - pgindex % TABLE_LEN)
    ensures Filling(old(mem.phys), old(mem.Map()), mem.phys, mem.Map(), pd, mem.tmp,
                    pgindex, pgindex + n, GainAt(pfindex - pgindex))
    ensures MapsTo(mem.phys, pd, lo, pgindex + n, pfindex - pgindex, flags)
    ensures empty ==>
      && Tally(old(mem.Map()), mem.Map(), pgindex, pgindex + n, pfindex - pgindex, 0)
      && AllRefable(old(mem.Map()), pfindex, n)
      && (res != 0 ==> n < pgcount && !RefableFrame(old(mem.Map()), pfindex + n))
  {
    hide Accounted, Filling, SameOutside, MapsTo, Tally, AllEmpty, AllRefable, WellFormed, Tree, Stored;
    hide FrameOf, GetRef, GetType, PteCreate, RefMoved;
    ghost var phys1, m1, base := mem.phys, mem.pmem.memmap[..], pfindex - pgindex;
    AccountedSizes(m1, phys1, mem.owners, mem.shares);
    FramesFilledNone(phys1, m1, pd, mem.tmp, pfindex, pgindex);
    var j, left := pgindex % TABLE_LEN, pgcount;
    n, res := 0, 0;
    while left > 0 && j < TABLE_LEN
      invariant n <= Min(pgcount, TABLE_LEN - pgindex % TABLE_LEN)
      invariant left == pgcount - n && j == pgindex % TABLE_LEN + n
      invariant mem.Valid() && res == 0
      invariant Filling(phys1, m1, mem.phys, mem.Map(), pd, mem.tmp, pgindex, pgindex + n, GainAt(base))
      invariant MapsTo(mem.phys, pd, lo, pgindex + n, base, flags)
      invariant empty ==> Tally(m1, mem.Map(), pgindex, pgindex + n, base, 0) && AllRefable(m1, pfindex, n)
    {
      ghost var phys2, m2 := mem.phys, mem.pmem.memmap[..];
      FillingFacts(phys1, m1, phys2, m2, pd, mem.tmp, pgindex, pgindex + n, GainAt(base));
      FilledSlot(phys1, phys2, pd, mem.tmp, s, pt);
      ChildIsNoDir(m2, phys2, mem.owners, mem.shares, pd, s);
      res := mem.MapPageFrame(TempFrame(mem.phys, mem.tmp, pt), pfindex + n, j, flags);
      if res < 0 {
        FrameRefused(empty, m1, m2, pgindex, n, pfindex);
        return;
      }
      FrameFillStep(phys1, m1, phys2, m2, mem.pmem.memmap[..], pd, mem.tmp, s, j, lo, pgindex, n, base, flags);
      FrameTallied(empty, phys1, m1, phys2, m2, mem.pmem.memmap[..], pd, mem.tmp, s, j, pgindex, n, pgcount, pfindex);
      left, j, n := left - 1, j + 1, n + 1;
    }
  }

  lemma FramesFilledNone(phys: Memory, m: seq<Byte>, pd: nat, tmp: nat, pfindex: nat, pg: nat)
    requires WellFormed(phys, pd, tmp) && |m| == |phys|
    ensures Filling(phys, m, phys, m, pd, tmp, pg, pg, GainAt(pfindex - pg))
    ensures Tally(m, m, pg, pg, pfindex - pg, 0) && AllRefable(m, pfindex, 0)
  {
    TallyNone(m, pg, pfindex - pg);
    NoProgress(phys, m, pd, tmp, pg, GainAt(pfindex - pg));
  }

  /** The mapped table is still that of the slot. */
  lemma FilledSlot(phys1: Memory, phys: Memory, pd: nat, tmp: nat, s: nat, pt: nat)
    requires Tree(phys, pd) && IsTable(phys1, pd) && phys[pd] == phys1[pd] && s < TABLE_LEN
    requires Child(phys1, pd, s) != 0
    requires IsTable(phys, tmp) && IsTable(phys1, tmp) && phys[tmp] == phys1[tmp]
    requires TMP_PAGE <= pt < TMP_PAGE + TABLE_LEN && TempFrame(phys1, tmp, pt) == Child(phys1, pd, s)
    ensures Child(phys, pd, s) == Child(phys1, pd, s) && IsTable(phys, Child(phys, pd, s))
    ensures TempFrame(phys, tmp, pt) == Child(phys, pd, s)
  {
  }

  /** The frame that stops the loop could not be referenced to begin with. */
  lemma FrameRefused(empty: bool, m1: seq<Byte>, m: seq<Byte>, lo: nat, n: nat, pfindex: nat)
    requires !RefableFrame(m, pfindex + n)
    requires empty ==> pfindex > 0 && Tally(m1, m, lo, lo + n, pfindex - lo, 0)
    ensures empty ==> !RefableFrame(m1, pfindex + n)
  {
    if empty {
      RefableStill(m1, m, lo, lo + n, pfindex - lo, pfindex + n);
    }
  }

  /** One more frame has been mapped in an empty range. */
  lemma FrameTallied(empty: bool, phys1: Memory, m1: seq<Byte>, phys: Memory, m: seq<Byte>, m': seq<Byte>,
                     pd: nat, tmp: nat, s: nat, j: nat, lo: nat, n: nat, count: nat, pfindex: nat)
    requires Filling(phys1, m1, phys, m, pd, tmp, lo, lo + n, GainAt(pfindex - lo)) && Tree(phys, pd)
    requires s < TABLE_LEN && j < TABLE_LEN && lo + n == s * TABLE_LEN + j && n < count && lo + count <= MAX_FRAMES
    requires Child(phys, pd, s) != 0 && RefableFrame(m, pfindex + n)
    requires RefMoved(m, m', pfindex + n, FrameOf(phys[Child(phys, pd, s)][j]))
    requires pfindex + n != 0 ==> m'[0] == m[0]
    requires empty ==>
      && pfindex > 0 && AllEmpty(phys1, pd, lo, lo + count)
      && Tally(m1, m, lo, lo + n, pfindex - lo, 0) && AllRefable(m1, pfindex, n)
    ensures empty ==> Tally(m1, m', lo, lo + n + 1, pfindex - lo, 0) && AllRefable(m1, pfindex, n + 1)
  {
    if empty {
      EmptySlot(phys1, m1, phys, m, pd, tmp, s, j, lo, lo + n, lo + count, pfindex - lo);
      TallyStep(m1, m, m', lo, lo + n, pfindex - lo);
      RefableStill(m1, m, lo, lo + n, pfindex - lo, pfindex + n);
    }
  }

  /** The entry about to be written in an empty range is still empty. */
  lemma EmptySlot(phys1: Memory, m1: seq<Byte>, phys: Memory, m: seq<Byte>, pd: nat, tmp: nat,
                  s: nat, j: nat, lo: nat, pg: nat, hi: nat, base: int)
    requires Filling(phys1, m1, phys, m, pd, tmp, lo, pg, GainAt(base)) && lo <= pg < hi <= MAX_FRAMES
    requires AllEmpty(phys1, pd, lo, hi) && pg == s * TABLE_LEN + j && j < TABLE_LEN && s < TABLE_LEN
    requires Child(phys, pd, s) != 0
    ensures FrameOf(phys[Child(phys, pd, s)][j]) == 0
  {
    assert pg / TABLE_LEN == s && pg % TABLE_LEN == j;
    assert Look(phys1, pd, pg) == 0;
  }

  /** Mapped pages stay mapped while a table is mapped or unmapped temporarily. */
  lemma MapsToKept(phys: Memory, phys': Memory, pd: nat, lo: nat, hi: nat, base: int, flags: Word)
    requires MapsTo(phys, pd, lo, hi, base, flags) && Tree(phys', pd)
    requires forall pg :: lo <= pg < hi ==> Entry(phys', pd, pg) == Entry(phys, pd, pg)
    ensures MapsTo(phys', pd, lo, hi, base, flags)
  {
  }

  lemma MapsToReached(phys: Memory, phys': Memory, pd: nat, tmp: nat, s: nat, j: nat,
                      lo: nat, hi: nat, base: int, flags: Word)
    requires MapsTo(phys, pd, lo, hi, base, flags) && AvoidsTemp(lo, hi)
    requires TableReached(phys, phys', pd, tmp, s, j)
    ensures MapsTo(phys', pd, lo, hi, base, flags)
  {
    MapsToKept(phys, phys', pd, lo, hi, base, flags);
  }

  lemma MapsToAfterUnmap(phys: Memory, pd: nat, tmp: nat, j: nat, lo: nat, hi: nat, base: int, flags: Word)
    requires MapsTo(phys, pd, lo, hi, base, flags) && AvoidsTemp(lo, hi)
    requires WellFormed(phys, pd, tmp) && j < TABLE_LEN
    ensures MapsTo(Stored(phys, tmp, j, 0), pd, lo, hi, base, flags)
  {
    StoreTemp(phys, pd, tmp, j, 0);
    MapsToKept(phys, Stored(phys, tmp, j, 0), pd, lo, hi, base, flags);
  }

  /** The rest of a pass, once the table is mapped at page pt: fill, then unmap. */
  method FillFramesAndUnmap(mem: PagedMemory, pd: nat, s: nat, pt: nat, pfindex: Word, pgindex: nat, pgcount: nat,
                      flags: Word, ghost lo: nat, ghost empty: bool,
                      ghost phys0: Memory, ghost m0: seq<Byte>, ghost own0: seq<nat>)
    returns (res: int, n: nat)
    requires mem.Valid() && TMP_PAGE <= pt && |mem.phys| <= MAX_FRAMES && pd in mem.shares.dirs
    requires lo <= pgindex && pgcount > 0 && pgindex + pgcount <= MAX_FRAMES && AvoidsTemp(lo, pgindex + pgcount)
    requires pfindex + pgcount < WORD && s == pgindex / TABLE_LEN
    requires TableReached(phys0, mem.phys, pd, mem.tmp, s, pt - TMP_PAGE)
    requires TableCounted(phys0, m0, own0, mem.Map(), mem.owners, Child(mem.phys, pd, s))
    requires MapsTo(mem.phys, pd, lo, pgindex, pfindex - pgindex, flags)
    requires empty ==> pfindex > 0 && AllEmpty(mem.phys, pd, pgindex, pgindex + pgcount)
    requires empty ==> Opened(m0, mem.Map(), Child(mem.phys, pd, s), pfindex, pgcount)
    modifies mem`phys, mem.pmem.memmap
    ensures mem.Valid() && WellFormed(mem.phys, pd, mem.tmp) && WellFormed(phys0, pd, mem.tmp)
    ensures res <= 0
    ensures res != 0 ==>
      n < pgcount && Aborted(phys0, mem.phys, pd, mem.tmp, pgindex, pgindex + n, pt - TMP_PAGE)
    ensures MapsTo(mem.phys, pd, lo, pgindex + n, pfindex - pgindex, flags)
    ensures res == 0 ==>
      && n == Min(pgcount, TABLE_LEN - pgindex % TABLE_LEN)
      && Progress(phys0, m0, mem.phys, mem.Map(), pd, mem.tmp, pgindex, pgindex + n, GainAt(pfindex - pgindex))
    ensures res != 0 ==> n < Min(pgcount, TABLE_LEN - pgindex % TABLE_LEN)
    ensures empty ==>
      Tally(m0, mem.Map(), pgindex, pgindex + n, pfindex - pgindex, if res == 0 then 0 else Child(mem.phys, pd, s))
    ensures empty ==> if res == 0 then AllRefable(m0, pfindex, n) else !AllRefable(m0, pfindex, pgcount)
    ensures TableBooks(phys0, own0, mem.phys, mem.owners, pd, pgindex, pgindex + pgcount)
  {
    hide Accounted, MapsTo, TableReached, TableCounted, Filling, Progress, SameOutside, OthersKept, Aborted;
    hide Opened, AllRefable, Tally, RefMoved, AllEmpty, RefableFrame, WellFormed, Tree, FrameOf, GetRef, GetType;
    hide TableBooks;
    ghost var phys1, m1, own1, j, base := mem.phys, mem.pmem.memmap[..], mem.owners, pt - TMP_PAGE, pfindex - pgindex;
    ReachedFacts(phys0, phys1, pd, mem.tmp, s, j);
    ghost var c := Child(phys1, pd, s);
    res, n := FillFrames(mem, pd, s, pt, pfindex, pgindex, pgcount, flags, lo, empty);
    ghost var phys2, m2 := mem.phys, mem.pmem.memmap[..];
    FillingFacts(phys1, m1, phys2, m2, pd, mem.tmp, pgindex, pgindex + n, GainAt(base));
    RefableInPass(empty, m0, m1, c, pfindex, n, pgcount);
    TallyMapped(empty, m0, m1, m2, c, pfindex, pgcount, pgindex, pgindex + n, base);
    if res < 0 {
      TableBooksMapped(phys0, m0, own0, phys1, m1, own1, phys2, pd, mem.tmp, s, j, pgindex, pgindex + pgcount);
      SameSlot(pgindex, n);
      PassFailed(phys0, phys1, m1, phys2, m2, pd, mem.tmp, s, j, pgindex, n, GainAt(base));
      return;
    }
    var _ := UninstallTempPage(mem, pt);
    PassProgress(phys0, m0, own0, phys1, m1, own1, phys2, m2, mem.pmem.memmap[..], pd, mem.tmp, s, j,
                 pgindex, n, GainAt(base));
    ProgressFacts(phys0, m0, mem.phys, mem.pmem.memmap[..], pd, mem.tmp, pgindex, pgindex + n, GainAt(base));
    MapsToAfterUnmap(phys2, pd, mem.tmp, j, lo, pgindex + n, base, flags);
    TallyUnmapped(empty, m0, m2, mem.pmem.memmap[..], c, pgindex, pgindex + n, base);
    TableBooksMapped(phys0, m0, own0, phys1, m1, own1, mem.phys, pd, mem.tmp, s, j, pgindex, pgindex + pgcount);
  }

  /** One pass of the outer loop of `vmem_32_alloc_frames`. */
  method FramePass(mem: PagedMemory, pd: nat, s: nat, pfindex: Word, pgindex: nat, pgcount: nat, flags: Word,
                   ghost lo: nat, ghost empty: bool)
    returns (res: int, n: nat, ghost leak: int)
    requires mem.Valid() && WellFormed(mem.phys, pd, mem.tmp) && pd in mem.shares.dirs
    requires lo <= pgindex && pgcount > 0 && pgindex + pgcount <= MAX_FRAMES && AvoidsTemp(lo, pgindex + pgcount)
    requires pfindex + pgcount < WORD
    requires s == pgindex / TABLE_LEN && Mappable(mem.phys, mem.Map(), pd, s)
    requires MapsTo(mem.phys, pd, lo, pgindex, pfindex - pgindex, flags)
    requires empty ==> Clear(mem.phys, mem.Map(), pd, s, pfindex, pgindex, pgindex + pgcount)
    modifies mem`phys, mem`owners, mem.pmem.memmap
    ensures mem.Valid() && WellFormed(mem.phys, pd, mem.tmp)
    ensures res <= 0
    ensures res != 0 ==>
      n < pgcount && Aborted(old(mem.phys), mem.phys, pd, mem.tmp, pgindex, pgindex + n, leak)
    ensures MapsTo(mem.phys, pd, lo, pgindex + n, pfindex - pgindex, flags)
    ensures res == 0 ==>
      && n == Min(pgcount, TABLE_LEN - pgindex % TABLE_LEN)
      && Progress(old(mem.phys), old(mem.Map()), mem.phys, mem.Map(), pd, mem.tmp,
                  pgindex, pgindex + n, GainAt(pfindex - pgindex))
    ensures (res == 0 ==> leak == -1) && n <= pgcount && -1 <= leak < TABLE_LEN
    ensures empty ==>
      && Tally(old(mem.Map()), mem.Map(), pgindex, pgindex + n, pfindex - pgindex,
               LeftMapped(mem.phys, pd, pgindex + n, leak))
      && (if res == 0 then HasFree(old(mem.phys)[mem.tmp]) && AllRefable(old(mem.Map()), pfindex, n)
          else !HasFree(old(mem.phys)[mem.tmp]) || !AllRefable(old(mem.Map()), pfindex, pgcount))
    ensures TableBooks(old(mem.phys), old(mem.owners), mem.phys, mem.owners, pd, pgindex, pgindex + pgcount)
    ensures res == 0 ==> HasFree(old(mem.phys)[mem.tmp])
    ensures !HasFree(old(mem.phys)[mem.tmp]) ==>
      mem.phys == old(mem.phys) && mem.Map() == old(mem.Map()) && mem.owners == old(mem.owners)
  {
    hide TableBooks;
    hide Accounted, MapsTo, TableReached, TableCounted, Progress, SameOutside, OthersKept, Aborted;
    hide Clear, Opened, HasFree, AllRefable, Tally, RefMoved, AllEmpty, WellFormed, FrameOf, GetRef, GetType;
    WellFormedTree(mem.phys, pd, mem.tmp);
    ghost var phys0, m0, own0, base := mem.phys, mem.pmem.memmap[..], mem.owners, pfindex - pgindex;
    AccountedSizes(m0, phys0, own0, mem.shares);
    ClearTable(empty, phys0, m0, pd, s, pfindex, pgindex, pgindex + pgcount);
    var pt := MapPageTable(mem, pd, s, true);
    if pt == 0 {
      AbortedAtOnce(phys0, pd, mem.tmp, pgindex);
      TallyNone(m0, pgindex, base);
      TableBooksStart(phys0, own0, pd, pgindex, pgindex + pgcount);
      return -ENOMEM, 0, -1;
    }
    ghost var phys1, m1, j := mem.phys, mem.pmem.memmap[..], pt - TMP_PAGE;
    AccountedSizes(m1, phys1, mem.owners, mem.shares);
    ReachedFacts(phys0, phys1, pd, mem.tmp, s, j);
    MapsToReached(phys0, phys1, pd, mem.tmp, s, j, lo, pgindex, base, flags);
    PassOpens(empty, phys0, m0, own0, mem.shares, phys1, m1, pd, mem.tmp, s, j, pfindex, pgindex, pgindex + pgcount);
    res, n := FillFramesAndUnmap(mem, pd, s, pt, pfindex, pgindex, pgcount, flags, lo, empty, phys0, m0, own0);
    leak := if res == 0 then -1 else j;
    WellFormedTree(mem.phys, pd, mem.tmp);
    if res != 0 {
      AbortedSlot(phys0, mem.phys, pd, mem.tmp, pgindex, n, leak);
    }
  }

  lemma ClearTable(empty: bool, phys: Memory, m: seq<Byte>, pd: nat, s: nat, pfindex: nat, lo: nat, hi: nat)
    requires Tree(phys, pd) && s < TABLE_LEN && |m| == |phys| && hi <= MAX_FRAMES
    requires empty ==> Clear(phys, m, pd, s, pfindex, lo, hi)
    ensures empty ==> Child(phys, pd, s) != 0
  {
  }

  /** An empty range, its table installed and not so full of references that the
      temporary mapping would keep the table's own frame from being mapped. */
  ghost predicate Clear(phys: Memory, m: seq<Byte>, pd: nat, s: nat, pfindex: nat, lo: nat, hi: nat)
    requires Tree(phys, pd) && s < TABLE_LEN && |m| == |phys| && hi <= MAX_FRAMES
  {
    var c := Child(phys, pd, s);
    && pfindex > 0 && AllEmpty(phys, pd, lo, hi) && c != 0 && lo <= hi
    && (pfindex <= c < pfindex + (hi - lo) ==> GetRef(m[c]) + 1 < MAX_REF)
  }

  /** The frame map once the table in frame c has been mapped. */
  ghost predicate Opened(m0: seq<Byte>, m1: seq<Byte>, c: nat, pfindex: nat, count: nat) {
    && RefMoved(m0, m1, c, 0) && pfindex > 0 && 0 < c < |m0| && GetRef(m0[c]) > 0 && m1[0] == m0[0]
    && (pfindex <= c < pfindex + count ==> GetRef(m0[c]) + 1 < MAX_REF)
  }

  lemma PassOpens(empty: bool, phys0: Memory, m0: seq<Byte>, own0: seq<nat>, sh: Shares, phys1: Memory, m1: seq<Byte>,
                  pd: nat, tmp: nat, s: nat, j: nat, pfindex: nat, lo: nat, hi: nat)
    requires TableReached(phys0, phys1, pd, tmp, s, j) && Accounted(m0, phys0, own0, sh)
    requires hi <= MAX_FRAMES && AvoidsTemp(lo, hi) && lo <= hi
    requires Child(phys0, pd, s) != 0 ==> RefMoved(m0, m1, Child(phys0, pd, s), 0) && |m0| > 0 && m1[0] == m0[0]
    requires empty ==> |m0| == |phys0| && Clear(phys0, m0, pd, s, pfindex, lo, hi)
    ensures empty ==>
      && pfindex > 0 && AllEmpty(phys1, pd, lo, hi)
      && Opened(m0, m1, Child(phys1, pd, s), pfindex, hi - lo)
  {
    if empty {
      hide Accounted;
      EmptyStays(phys0, phys1, pd, tmp, s, j, lo, hi);
      AccountedNames(m0, phys0, own0, sh, pd, s);
    }
  }

  lemma EmptyStays(phys0: Memory, phys1: Memory, pd: nat, tmp: nat, s: nat, j: nat, lo: nat, hi: nat)
    requires TableReached(phys0, phys1, pd, tmp, s, j) && hi <= MAX_FRAMES && AvoidsTemp(lo, hi)
    requires AllEmpty(phys0, pd, lo, hi)
    ensures AllEmpty(phys1, pd, lo, hi)
    ensures Child(phys0, pd, s) != 0 ==> Child(phys1, pd, s) == Child(phys0, pd, s)
  {
    forall pg | lo <= pg < hi ensures Look(phys1, pd, pg) == 0 {
      assert Look(phys0, pd, pg) == 0;
    }
  }

  lemma RefableInPass(empty: bool, m0: seq<Byte>, m1: seq<Byte>, c: nat, pfindex: nat, n: nat, count: nat)
    requires empty ==> Opened(m0, m1, c, pfindex, count) && n <= count
    ensures empty && AllRefable(m1, pfindex, n) ==> AllRefable(m0, pfindex, n)
    ensures empty && n < count && !RefableFrame(m1, pfindex + n) ==> !AllRefable(m0, pfindex, count)
  {
    if empty {
      RefableAlike(m0, m1, c, pfindex, count);
    }
  }

  lemma RefableAlike(m0: seq<Byte>, m1: seq<Byte>, c: nat, pfindex: nat, count: nat)
    requires Opened(m0, m1, c, pfindex, count)
    ensures forall f :: pfindex <= f < pfindex + count ==> (RefableFrame(m1, f) <==> RefableFrame(m0, f))
  {
    forall f | pfindex <= f < pfindex + count ensures RefableFrame(m1, f) <==> RefableFrame(m0, f) {
      RefableThroughMapping(m0, m1, c, f);
    }
  }

  /** The range is unmapped and none of its page tables is missing. */
  ghost predicate ReadyRange(phys: Memory, pd: nat, pfindex: nat, lo: nat, hi: nat)
    requires Tree(phys, pd) && hi <= MAX_FRAMES
  {
    pfindex > 0 && AllEmpty(phys, pd, lo, hi) && Missing(phys, pd, lo / TABLE_LEN, hi) == 0
  }

  /** What the next pass over an empty range with installed tables may rely on. */
  lemma ReadyPass(phys0: Memory, m0: seq<Byte>, phys: Memory, m: seq<Byte>, pd: nat, tmp: nat,
                  pfindex: nat, lo: nat, pg: nat, hi: nat, s: nat)
    requires Progress(phys0, m0, phys, m, pd, tmp, lo, pg, GainAt(pfindex - lo)) && lo <= pg < hi <= MAX_FRAMES
    requires AllEmpty(phys0, pd, lo, hi) && s == pg / TABLE_LEN && Child(phys0, pd, s) != 0
    requires RangeMappable(phys0, m0, pd, lo, hi, GainAt(pfindex - lo))
    requires Tally(m0, m, lo, pg, pfindex - lo, 0) && Child(phys, pd, s) == Child(phys0, pd, s)
    requires pfindex > 0
    ensures |m| == |phys| && Clear(phys, m, pd, s, pfindex + (pg - lo), pg, hi)
  {
    RestEmpty(phys0, m0, phys, m, pd, tmp, lo, pg, hi, GainAt(pfindex - lo));
    var c := Child(phys, pd, s);
    if pfindex + (pg - lo) <= c < pfindex + (hi - lo) {
      assert GetRef(m[c]) == GetRef(m0[c]);
    }
  }

  /** Refable frames accumulate over passes, in terms of the first map. */
  lemma RefableJoins(m0: seq<Byte>, m: seq<Byte>, lo: nat, pg: nat, pfindex: nat, k: nat)
    requires Tally(m0, m, lo, pg, pfindex - lo, 0) && lo <= pg && pfindex > 0
    requires AllRefable(m0, pfindex, pg - lo)
    ensures AllRefable(m, pfindex + (pg - lo), k) <==> AllRefable(m0, pfindex, pg - lo + k)
  {
    var q := pfindex + (pg - lo);
    forall f | q <= f < q + k ensures RefableFrame(m, f) <==> RefableFrame(m0, f) {
      RefableStill(m0, m, lo, pg, pfindex - lo, f);
    }
    if AllRefable(m0, pfindex, pg - lo + k) {
      assert forall f :: q <= f < q + k ==> RefableFrame(m0, f);
    }
  }

  // ---- the whole range ----------------------------------------------------------------------

  /** The state of the outer loop: pages [lo, mid) of [lo, hi) are done. */
  ghost predicate FramesDone(phys0: Memory, m0: seq<Byte>, own0: seq<nat>, phys: Memory, m: seq<Byte>, own: seq<nat>,
                             pd: nat, tmp: nat, pfindex: nat, lo: nat, mid: nat, hi: nat, flags: Word, ready: bool)
  {
    && Progress(phys0, m0, phys, m, pd, tmp, lo, mid, GainAt(pfindex - lo))
    && lo <= mid <= hi <= MAX_FRAMES && AvoidsTemp(lo, hi)
    && RangeMappable(phys0, m0, pd, lo, hi, GainAt(pfindex - lo))
    && MapsTo(phys, pd, lo, mid, pfindex - lo, flags)
    && TableBooks(phys0, own0, phys, own, pd, lo, hi)
    && (ready ==>
          && ReadyRange(phys0, pd, pfindex, lo, hi)
          && Tally(m0, m, lo, mid, pfindex - lo, 0) && AllRefable(m0, pfindex, mid - lo))
  }

  lemma FramesStart(phys: Memory, m: seq<Byte>, own: seq<nat>, pd: nat, tmp: nat,
                    pfindex: nat, lo: nat, hi: nat, flags: Word, ready: bool)
    requires WellFormed(phys, pd, tmp) && |m| == |phys| == |own| && lo <= hi <= MAX_FRAMES && AvoidsTemp(lo, hi)
    requires RangeMappable(phys, m, pd, lo, hi, GainAt(pfindex - lo)) && pfindex < WORD
    requires ready ==> ReadyRange(phys, pd, pfindex, lo, hi)
    ensures FramesDone(phys, m, own, phys, m, own, pd, tmp, pfindex, lo, lo, hi, flags, ready)
  {
    hide ReadyRange, RangeMappable;
    TallyNone(m, lo, pfindex - lo);
    NoProgress(phys, m, pd, tmp, lo, GainAt(pfindex - lo));
    TableBooksStart(phys, own, pd, lo, hi);
  }

  lemma FirstMappable(phys: Memory, m: seq<Byte>, pd: nat, lo: nat, hi: nat, base: int)
    requires Tree(phys, pd) && |m| == |phys| && lo < hi <= MAX_FRAMES
    requires RangeMappable(phys, m, pd, lo, hi, GainAt(base))
    ensures Mappable(phys, m, pd, lo / TABLE_LEN)
  {
  }

  /** What the next pass of the outer loop may rely on. */
  lemma FramesNext(phys0: Memory, m0: seq<Byte>, own0: seq<nat>, phys: Memory, m: seq<Byte>, own: seq<nat>,
                   pd: nat, tmp: nat, pfindex: nat, lo: nat, pg: nat, hi: nat, s: nat, flags: Word, ready: bool)
    requires FramesDone(phys0, m0, own0, phys, m, own, pd, tmp, pfindex, lo, pg, hi, flags, ready)
    requires pg < hi && s == pg / TABLE_LEN && ((phys == phys0 && m == m0 && pg == lo) || pg == s * TABLE_LEN)
    ensures WellFormed(phys, pd, tmp) && Tree(phys, pd) && |m| == |phys| && phys[tmp] == phys0[tmp]
    ensures Mappable(phys, m, pd, s) && AvoidsTemp(lo, hi) && MapsTo(phys, pd, lo, pg, pfindex - lo, flags)
    ensures ready ==>
      && Clear(phys, m, pd, s, pfindex + (pg - lo), pg, hi)
      && (AllRefable(m, pfindex + (pg - lo), hi - pg) <==> AllRefable(m0, pfindex, hi - lo))
  {
    hide Tally, AllRefable, AllEmpty, Missing, Clear, SameOutside, OthersKept, TablesKept, TableBooks, MapsTo;
    ProgressFacts(phys0, m0, phys, m, pd, tmp, lo, pg, GainAt(pfindex - lo));
    if pg == s * TABLE_LEN {
      StillMappable(phys0, m0, phys, m, pd, tmp, lo, pg, hi, s, GainAt(pfindex - lo));
    } else {
      FirstMappable(phys0, m0, pd, lo, hi, pfindex - lo);
    }
    if ready {
      NoneMissing(phys0, pd, lo / TABLE_LEN, hi, s);
      ReadyPass(phys0, m0, phys, m, pd, tmp, pfindex, lo, pg, hi, s);
      RefableJoins(m0, m, lo, pg, pfindex, hi - pg);
    }
  }

  lemma FramesPassed(phys0: Memory, m0: seq<Byte>, own0: seq<nat>, phys1: Memory, m1: seq<Byte>, own1: seq<nat>,
                     phys2: Memory, m2: seq<Byte>, own2: seq<nat>,
                     pd: nat, tmp: nat, pfindex: nat, lo: nat, pg: nat, k: nat, hi: nat, flags: Word, ready: bool)
    requires FramesDone(phys0, m0, own0, phys1, m1, own1, pd, tmp, pfindex, lo, pg, hi, flags, ready) && pg + k <= hi
    requires Progress(phys1, m1, phys2, m2, pd, tmp, pg, pg + k, GainAt(pfindex - lo))
    requires MapsTo(phys2, pd, lo, pg + k, pfindex - lo, flags)
    requires TableBooks(phys1, own1, phys2, own2, pd, pg, hi)
    requires ready ==>
      Tally(m1, m2, pg, pg + k, pfindex - lo, 0) && AllRefable(m1, pfindex + (pg - lo), k)
    ensures FramesDone(phys0, m0, own0, phys2, m2, own2, pd, tmp, pfindex, lo, pg + k, hi, flags, ready)
  {
    hide TableBooks, MapsTo, Progress, RangeMappable, Tally, AllRefable, AllEmpty, Missing;
    ProgressFacts(phys0, m0, phys1, m1, pd, tmp, lo, pg, GainAt(pfindex - lo));
    ProgressJoins(phys0, m0, phys1, m1, phys2, m2, pd, tmp, lo, pg, pg + k, GainAt(pfindex - lo));
    TableBooksJoin(phys0, own0, phys1, own1, phys2, own2, pd, lo, pg, hi);
    if ready {
      TallyJoins(m0, m1, m2, lo, pg, pg + k, pfindex - lo, 0);
      RefableJoins(m0, m1, lo, pg, pfindex, k);
    }
  }

  lemma FramesFailed(phys0: Memory, m0: seq<Byte>, own0: seq<nat>, phys1: Memory, m1: seq<Byte>, own1: seq<nat>,
                     phys2: Memory, m2: seq<Byte>, own2: seq<nat>,
                     pd: nat, tmp: nat, pfindex: nat, lo: nat, pg: nat, k: nat, hi: nat, leak: int,
                     flags: Word, ready: bool)
    requires FramesDone(phys0, m0, own0, phys1, m1, own1, pd, tmp, pfindex, lo, pg, hi, flags, ready) && pg + k <= hi
    requires WellFormed(phys1, pd, tmp) && WellFormed(phys2, pd, tmp)
    requires Aborted(phys1, phys2, pd, tmp, pg, pg + k, leak)
    requires TableBooks(phys1, own1, phys2, own2, pd, pg, hi)
    requires ready ==> Tally(m1, m2, pg, pg + k, pfindex - lo, LeftMapped(phys2, pd, pg + k, leak))
    ensures WellFormed(phys0, pd, tmp) && Aborted(phys0, phys2, pd, tmp, lo, pg + k, leak)
    ensures TableBooks(phys0, own0, phys2, own2, pd, lo, hi)
    ensures ready ==>
      own2 == own0 && Tally(m0, m2, lo, pg + k, pfindex - lo, LeftMapped(phys2, pd, pg + k, leak))
  {
    hide TableBooks, MapsTo, Progress, RangeMappable, Tally, AllRefable, AllEmpty, Aborted, LeftMapped;
    ProgressFacts(phys0, m0, phys1, m1, pd, tmp, lo, pg, GainAt(pfindex - lo));
    RangeFailed(phys0, m0, phys1, m1, phys2, pd, tmp, lo, pg, pg + k, leak, GainAt(pfindex - lo));
    TableBooksJoin(phys0, own0, phys1, own1, phys2, own2, pd, lo, pg, hi);
    if ready {
      TallyJoins(m0, m1, m2, lo, pg, pg + k, pfindex - lo, LeftMapped(phys2, pd, pg + k, leak));
      ReadyOwners(phys0, own0, phys2, own2, pd, pfindex, lo, hi);
    }
  }

  /** With no table missing, no owner changes. */
  lemma ReadyOwners(phys0: Memory, own0: seq<nat>, phys: Memory, own: seq<nat>, pd: nat, pfindex: nat, lo: nat, hi: nat)
    requires TableBooks(phys0, own0, phys, own, pd, lo, hi)
    requires Tree(phys0, pd) && hi <= MAX_FRAMES && ReadyRange(phys0, pd, pfindex, lo, hi)
    ensures own == own0
  {
    hide TableBooks, AllEmpty, Missing;
    forall t | lo / TABLE_LEN <= t < TABLE_LEN && t * TABLE_LEN < hi ensures Child(phys0, pd, t) != 0 {
      NoneMissing(phys0, pd, lo / TABLE_LEN, hi, t);
    }
    NoTablesNoOwners(phys0, own0, phys, own, pd, lo, hi);
  }

  lemma FramesEnd(phys0: Memory, m0: seq<Byte>, own0: seq<nat>, phys: Memory, m: seq<Byte>, own: seq<nat>,
                  pd: nat, tmp: nat, pfindex: nat, lo: nat, hi: nat, flags: Word, ready: bool)
    requires FramesDone(phys0, m0, own0, phys, m, own, pd, tmp, pfindex, lo, hi, hi, flags, ready)
    ensures WellFormed(phys, pd, tmp) && IsTable(phys, pd) && MapsTo(phys, pd, lo, hi, pfindex - lo, flags)
    ensures Tree(phys0, pd) && Tree(phys, pd)
    ensures SameOutside(phys0, phys, pd, lo, hi) && OthersKept(phys0, phys, pd, tmp)
    ensures TableBooks(phys0, own0, phys, own, pd, lo, hi)
    ensures ready ==>
      && own == own0 && AllRefable(m0, pfindex, hi - lo)
      && Tally(m0, m, lo, hi, pfindex - lo, LeftMapped(phys, pd, hi, -1))
  {
    hide TableBooks, Tally, AllRefable, AllEmpty, TablesKept;
    if ready {
      ReadyOwners(phys0, own0, phys, own, pd, pfindex, lo, hi);
    }
  }

  /** `vmem_32_alloc_frames`: on success the flat map is changed exactly to
      pfindex + k at pgindex + k, across table boundaries and new tables; owners change
      only by the new tables. Over an unmapped range with its page tables installed it
      succeeds exactly if a temporary page is free and every frame can be referenced,
      and exactly the frames mapped gain a reference. After a failure the pages done so
      far are mapped, and all that was left behind is what Aborted says. */
  method AllocFrames(mem: PagedMemory, pd: nat, pfindex: Word, pgindex: nat, pgcount: nat, flags: Word)
    returns (res: int, ghost done: nat, ghost leak: int)
    requires mem.Valid() && WellFormed(mem.phys, pd, mem.tmp) && pd in mem.shares.dirs
    requires pgindex + pgcount <= MAX_FRAMES && AvoidsTemp(pgindex, pgindex + pgcount)
    requires pfindex + pgcount < WORD
    requires RangeMappable(mem.phys, mem.Map(), pd, pgindex, pgindex + pgcount, GainAt(pfindex - pgindex))
    modifies mem`phys, mem`owners, mem.pmem.memmap
    ensures mem.Valid() && WellFormed(mem.phys, pd, mem.tmp)
    ensures res <= 0 && done <= pgcount
    ensures res == 0 <==> done == pgcount
    ensures MapsTo(mem.phys, pd, pgindex, pgindex + done, pfindex - pgindex, flags)
    ensures res != 0 ==> Aborted(old(mem.phys), mem.phys, pd, mem.tmp, pgindex, pgindex + done, leak)
    ensures res == 0 ==>
      && leak == -1
      && SameOutside(old(mem.phys), mem.phys, pd, pgindex, pgindex + pgcount)
      && OthersKept(old(mem.phys), mem.phys, pd, mem.tmp)
    ensures TableBooks(old(mem.phys), old(mem.owners), mem.phys, mem.owners, pd, pgindex, pgindex + pgcount)
    ensures old(ReadyRange(mem.phys, pd, pfindex, pgindex, pgindex + pgcount)) ==>
      && (res == 0 <==>
            pgcount == 0 || (HasFree(old(mem.phys)[mem.tmp]) && AllRefable(old(mem.Map()), pfindex, pgcount)))
      && mem.owners == old(mem.owners)
      && Tally(old(mem.Map()), mem.Map(), pgindex, pgindex + done, pfindex - pgindex,
               LeftMapped(mem.phys, pd, pgindex + done, leak))
    ensures !HasFree(old(mem.phys)[mem.tmp]) ==>
      mem.phys == old(mem.phys) && mem.Map() == old(mem.Map()) && mem.owners == old(mem.owners)
  {
    hide Accounted, FramesDone, MapsTo, Progress, SameOutside, OthersKept, Aborted, Mappable, RangeMappable, TableBooks;
    hide TableCount, TableIndex, PageAddress, PageMemory, HasFree, Tally, AllRefable, ReadyRange;
    hide Covered, Tree, RefMoved, WellFormed, AvoidsTemp, Clear, FrameOf, GetRef, GetType;
    WellFormedTree(mem.phys, pd, mem.tmp);
    ghost var phys0, m0, own0, hi := mem.phys, mem.pmem.memmap[..], mem.owners, pgindex + pgcount;
    AccountedSizes(m0, phys0, own0, mem.shares);
    ghost var ready := ReadyRange(phys0, pd, pfindex, pgindex, hi);
    NotTheWholeSpace(pgindex, pgcount);
    TableWalk(pgindex, pgcount);
    FramesStart(phys0, m0, own0, pd, mem.tmp, pfindex, pgindex, hi, flags, ready);
    var ptindex := TableIndex(PageAddress(pgindex));
    var ptcount := TableCount(PageAddress(pgindex), PageMemory(pgcount));
    CoveredAll(pgindex, pgcount, ptcount);
    var i, n := 0, 0;
    while i < ptcount
      invariant 0 <= i <= ptcount && n == Covered(pgindex, pgcount, i)
      invariant mem.Valid()
      invariant FramesDone(phys0, m0, own0, mem.phys, mem.Map(), mem.owners, pd, mem.tmp,
                           pfindex, pgindex, pgindex + n, hi, flags, ready)
      invariant i == 0 ==> mem.phys == phys0 && mem.Map() == m0 && mem.owners == own0
      invariant i > 0 ==> HasFree(phys0[mem.tmp])
    {
      ghost var phys1, m1, own1 := mem.phys, mem.pmem.memmap[..], mem.owners;
      var pg, s := pgindex + n, ptindex + i;
      CoveredStep(pgindex, pgcount, ptcount, i);
      FramesNext(phys0, m0, own0, phys1, m1, own1, pd, mem.tmp, pfindex, pgindex, pg, hi, s, flags, ready);
      var k;
      res, k, leak := FramePass(mem, pd, s, pfindex + n, pg, pgcount - n, flags, pgindex, ready);
      done := n + k;
      if res < 0 {
        FramesFailed(phys0, m0, own0, phys1, m1, own1, mem.phys, mem.pmem.memmap[..], mem.owners,
                     pd, mem.tmp, pfindex, pgindex, pg, k, hi, leak, flags, ready);
        return;
      }
      FramesPassed(phys0, m0, own0, phys1, m1, own1, mem.phys, mem.pmem.memmap[..], mem.owners,
                   pd, mem.tmp, pfindex, pgindex, pg, k, hi, flags, ready);
      i, n := i + 1, n + k;
    }
    res, done, leak := 0, pgcount, -1;
    FramesEnd(phys0, m0, own0, mem.phys, mem.pmem.memmap[..], mem.owners, pd, mem.tmp,
              pfindex, pgindex, hi, flags, ready);
  }
}
