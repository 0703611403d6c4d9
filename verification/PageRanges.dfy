/**
 `vmem_32_alloc_pages`: filling page ranges across page tables, creating tables on
 the way; and what filling a range may change, which FrameRanges shares.
 */
module PageRanges {
  import opened Words
  import opened FrameMap
  import opened Accounting
  import opened FlatMap
  import opened Paging
  import opened Vmem32
  import opened Ledger

  // ---- what a range operation may change ----------------------------------------------

  /** Which frames gain a reference from page pg being filled: frame pg + base for
      an operation that maps given frames; no frame in use for one that allocates. */
  datatype Gain = NoGain | GainAt(base: int)

  predicate Gains(gain: Gain, f: nat, lo: nat, hi: nat) {
    gain.GainAt? && lo <= f - gain.base < hi
  }

  /** Structures stay structures, and the count of one grows at most by one, and
      only where the operation maps that very frame. */
  ghost predicate TablesKept(phys0: Memory, m0: seq<Byte>, phys: Memory, m: seq<Byte>, lo: nat, hi: nat, gain: Gain) {
    && |phys0| == |m0| == |phys| == |m|
    && (forall k :: 1 <= k < |phys0| ==> phys0[k] != [] ==>
          phys[k] != [] && GetRef(m[k]) <= GetRef(m0[k]) + One(Gains(gain, k, lo, hi)))
  }

  /** The effect of filling pages [lo, hi) on everything else. */
  ghost predicate Progress(phys0: Memory, m0: seq<Byte>, phys: Memory, m: seq<Byte>,
                           pd: nat, tmp: nat, lo: nat, hi: nat, gain: Gain)
  {
    && WellFormed(phys0, pd, tmp) && WellFormed(phys, pd, tmp)
    && TablesKept(phys0, m0, phys, m, lo, hi, gain)
    && phys[tmp] == phys0[tmp]
    && SameOutside(phys0, phys, pd, lo, hi)
    && OthersKept(phys0, phys, pd, tmp)
    && (forall t :: 0 <= t < TABLE_LEN && (t < lo / TABLE_LEN || hi <= t * TABLE_LEN) ==>
          phys[pd][t] == phys0[pd][t])
  }

  /** Page pg maps a frame that was allocable in m0, is owned once, holds no
      structure and is named by this page's entry alone. */
  ghost predicate FreshPage(m0: seq<Byte>, m: seq<Byte>, phys: Memory, own: seq<nat>,
                            pd: nat, pg: nat, flags: Word)
    requires Tree(phys, pd) && pg < MAX_FRAMES && |m0| == |m| == |phys| == |own|
  {
    var f := Look(phys, pd, pg);
    && 0 < f < |m0| && IsAllocable(m0[f]) && phys[f] == []
    && GetRef(m[f]) == 2 && own[f] == 1
    && Entry(phys, pd, pg) == PteCreate(f, flags)
  }

  /** All of [lo, hi) is fresh, and nothing became allocable since m0. */
  ghost predicate Fresh(m0: seq<Byte>, m: seq<Byte>, phys: Memory, own: seq<nat>,
                        pd: nat, lo: nat, hi: nat, flags: Word)
  {
    && Tree(phys, pd) && hi <= MAX_FRAMES && |m0| == |m| == |phys| == |own|
    && (forall pg :: lo <= pg < hi ==> FreshPage(m0, m, phys, own, pd, pg, flags))
    && (forall f :: 1 <= f < |m| && IsAllocable(m[f]) ==> IsAllocable(m0[f]))
  }

  /** Fresh pages survive a step that leaves their entries, frames and owners alone. */
  lemma FreshKept(m0: seq<Byte>, m: seq<Byte>, phys: Memory, own: seq<nat>,
                  m': seq<Byte>, phys': Memory, own': seq<nat>,
                  pd: nat, lo: nat, hi: nat, flags: Word, c: nat)
    requires Fresh(m0, m, phys, own, pd, lo, hi, flags)
    requires Tree(phys', pd) && |m'| == |phys'| == |own'| == |m|
    requires forall pg :: lo <= pg < hi ==> Entry(phys', pd, pg) == Entry(phys, pd, pg)
    requires 0 < c < |phys| && (phys[c] != [] || GetRef(m[c]) == 0)
    requires forall f :: 1 <= f < |m| && f != c ==>
               && GetRef(m'[f]) == GetRef(m[f]) && GetType(m'[f]) == GetType(m[f]) && own'[f] == own[f]
               && (phys'[f] == [] <==> phys[f] == [])
    requires IsAllocable(m'[c]) ==> IsAllocable(m[c])
    ensures Fresh(m0, m', phys', own', pd, lo, hi, flags)
  {
    forall pg | lo <= pg < hi ensures FreshPage(m0, m', phys', own', pd, pg, flags) {
      assert FreshPage(m0, m, phys, own, pd, pg, flags);
    }
  }

  // ---- one page ---------------------------------------------------------------------------

  /** Storing the entry of a newly allocated frame f at page pg. */
  lemma PageStored(phys: Memory, m: seq<Byte>, m': seq<Byte>, pd: nat, tmp: nat,
                   s: nat, j: nat, f: nat, flags: Word)
    requires WellFormed(phys, pd, tmp) && |m| == |phys| <= MAX_FRAMES
    requires s < TABLE_LEN && s != TMP_SLOT && j < TABLE_LEN && Child(phys, pd, s) != 0
    requires 0 < f < |m| && IsAllocable(m[f]) && phys[f] == []
    requires RefMoved(RefRange(m, f, f + 1), m', f, FrameOf(phys[Child(phys, pd, s)][j]))
    requires FrameOf(phys[Child(phys, pd, s)][j]) != f
    ensures var phys' := Stored(phys, Child(phys, pd, s), j, PteCreate(f, flags));
            var pg := s * TABLE_LEN + j;
            && Progress(phys, m, phys', m', pd, tmp, pg, pg + 1, NoGain)
            && phys'[pd] == phys[pd]
            && Entry(phys', pd, pg) == PteCreate(f, flags) && Look(phys', pd, pg) == f
            && (forall k :: 0 <= k < |phys| ==> (phys'[k] == [] <==> phys[k] == []))
            && GetRef(m'[f]) == 2
            && (Look(phys, pd, pg) == 0 ==> forall g :: 1 <= g < |m| && g != f ==>
                  GetRef(m'[g]) == GetRef(m[g]) && GetType(m'[g]) == GetType(m[g]))
  {
    EntryRoundTrip(f, flags);
    StorePage(phys, pd, tmp, s, j, PteCreate(f, flags));
    var pg := s * TABLE_LEN + j;
    assert pg / TABLE_LEN == s && pg % TABLE_LEN == j;
  }

  /** The body of the inner loop of `vmem_32_alloc_pages`. */
  method AllocOnePage(mem: PagedMemory, pd: nat, s: nat, pt: nat, j: nat, flags: Word)
    returns (res: int, ghost f: nat)
    requires mem.Valid() && WellFormed(mem.phys, pd, mem.tmp) && pd in mem.shares.dirs
    requires s < TABLE_LEN && s != TMP_SLOT && j < TABLE_LEN && Child(mem.phys, pd, s) != 0
    requires TMP_PAGE <= pt < TMP_PAGE + TABLE_LEN && TempFrame(mem.phys, mem.tmp, pt) == Child(mem.phys, pd, s)
    modifies mem`phys, mem`owners, mem.pmem.memmap
    ensures mem.Valid()
    ensures res in {0, -ENOMEM}
    ensures res != 0 <==> NoFit(old(mem.Map()), 1)
    ensures res != 0 ==> mem.phys == old(mem.phys) && mem.Map() == old(mem.Map()) && mem.owners == old(mem.owners)
    ensures res == 0 ==>
      && 0 < f < |old(mem.phys)| && IsAllocable(old(mem.Map())[f]) && old(mem.phys)[f] == []
      && mem.owners == old(mem.owners)[f := 1] && mem.Map()[0] == old(mem.Map())[0]
      && FrameOf(old(mem.phys)[old(Child(mem.phys, pd, s))][j]) != f
      && mem.phys == Stored(old(mem.phys), old(Child(mem.phys, pd, s)), j, PteCreate(f, flags))
      && RefMoved(RefRange(old(mem.Map()), f, f + 1), mem.Map(), f,
                  FrameOf(old(mem.phys)[old(Child(mem.phys, pd, s))][j]))
  {
    hide Accounted;
    AccountedSizes(mem.pmem.memmap[..], mem.phys, mem.owners, mem.shares);
    ChildIsNoDir(mem.pmem.memmap[..], mem.phys, mem.owners, mem.shares, pd, s);
    var pfindex := AllocOneFrame(mem);
    if pfindex == 0 {
      return -ENOMEM, 0;
    }
    f := pfindex;
    res := mem.MapPageFrame(TempFrame(mem.phys, mem.tmp, pt), pfindex, j, flags);
  }

  // ---- one table --------------------------------------------------------------------------

  lemma ProgressJoins(phys0: Memory, m0: seq<Byte>, phys1: Memory, m1: seq<Byte>, phys2: Memory, m2: seq<Byte>,
                      pd: nat, tmp: nat, lo: nat, mid: nat, hi: nat, gain: Gain)
    requires lo <= mid <= hi
    requires Progress(phys0, m0, phys1, m1, pd, tmp, lo, mid, gain)
    requires Progress(phys1, m1, phys2, m2, pd, tmp, mid, hi, gain)
    ensures Progress(phys0, m0, phys2, m2, pd, tmp, lo, hi, gain)
  {
    forall pg: nat | pg < MAX_FRAMES && !(lo <= pg < hi)
      ensures Entry(phys2, pd, pg) == Entry(phys0, pd, pg)
    {
      assert Entry(phys2, pd, pg) == Entry(phys1, pd, pg);
    }
    forall t | 0 <= t < TABLE_LEN && (t < lo / TABLE_LEN || hi <= t * TABLE_LEN)
      ensures phys2[pd][t] == phys0[pd][t]
    {
      assert t < mid / TABLE_LEN || hi <= t * TABLE_LEN;
      assert phys2[pd][t] == phys1[pd][t];
    }
  }

  /** One more fresh page. */
  lemma FreshExtends(m0: seq<Byte>, m: seq<Byte>, phys: Memory, own: seq<nat>, m': seq<Byte>, phys': Memory,
                     pd: nat, tmp: nat, lo: nat, pg: nat, f: nat, flags: Word, gain: Gain)
    requires Fresh(m0, m, phys, own, pd, lo, pg, flags) && lo <= pg < MAX_FRAMES && |m| <= MAX_FRAMES
    requires Progress(phys, m, phys', m', pd, tmp, pg, pg + 1, gain)
    requires 0 < f < |m| && IsAllocable(m[f]) && phys[f] == []
    requires forall k :: 0 <= k < |phys| ==> (phys'[k] == [] <==> phys[k] == [])
    requires Entry(phys', pd, pg) == PteCreate(f, flags) && Look(phys', pd, pg) == f
    requires GetRef(m'[f]) == 2
    requires forall g :: 1 <= g < |m| && g != f ==> GetRef(m'[g]) == GetRef(m[g]) && GetType(m'[g]) == GetType(m[g])
    ensures Fresh(m0, m', phys', own[f := 1], pd, lo, pg + 1, flags)
  {
    FreshKept(m0, m, phys, own, m', phys', own[f := 1], pd, lo, pg, flags, f);
  }

  /** A page costs at most one of the frames that are left. */
  lemma PageSpare(m: seq<Byte>, m': seq<Byte>, f: nat, down: nat)
    requires 0 < f < |m| && RefMoved(RefRange(m, f, f + 1), m', f, down)
    ensures Spare(m') >= Spare(m) - 1
  {
    SpareAfter(m, m', f);
  }

  /** Dropping a reference costs none. */
  lemma UnmapSpare(m: seq<Byte>, m': seq<Byte>, c: nat)
    requires RefMoved(m, m', 0, c)
    ensures Spare(m') >= Spare(m)
  {
    SpareAfter(m, m', 0);
  }

  /** Mapping a table costs a frame only if the table is new. */
  lemma TableSpare(phys0: Memory, m0: seq<Byte>, own0: seq<nat>, sh: Shares, m1: seq<Byte>, own1: seq<nat>, c: nat)
    requires Accounted(m0, phys0, own0, sh) && TableCounted(phys0, m0, own0, m1, own1, c)
    ensures Spare(m1) + One(phys0[c] == []) >= Spare(m0)
  {
    if IsAllocable(m0[c]) {
      AllocableIsUnused(m0, phys0, own0, sh, c);
    }
    SpareAfter(m0, m1, c);
  }

  /** The inner loop: fill the mapped table from page pgindex on. */
  method FillTable(mem: PagedMemory, pd: nat, s: nat, pt: nat, pgindex: nat, pgcount: nat, flags: Word,
                   ghost empty: bool, ghost m0: seq<Byte>, ghost lo: nat)
    returns (res: int, n: nat)
    requires mem.Valid() && WellFormed(mem.phys, pd, mem.tmp) && pd in mem.shares.dirs
    requires pgindex + pgcount <= MAX_FRAMES && pgcount > 0 && lo <= pgindex
    requires s == pgindex / TABLE_LEN && s != TMP_SLOT && Child(mem.phys, pd, s) != 0
    requires TMP_PAGE <= pt < TMP_PAGE + TABLE_LEN && TempFrame(mem.phys, mem.tmp, pt) == Child(mem.phys, pd, s)
    requires empty ==> AllEmpty(mem.phys, pd, pgindex, pgindex + pgcount)
    requires empty ==> Fresh(m0, mem.Map(), mem.phys, mem.owners, pd, lo, pgindex, flags)
    modifies mem`phys, mem`owners, mem.pmem.memmap
    ensures mem.Valid()
    ensures res in {0, -ENOMEM} && n <= Min(pgcount, TABLE_LEN - pgindex % TABLE_LEN)
    ensures res == 0 <==> n == Min(pgcount, TABLE_LEN - pgindex % TABLE_LEN)
    ensures Spare(mem.Map()) + n >= Spare(old(mem.Map()))
    ensures res != 0 ==> Spare(old(mem.Map())) < pgcount
    ensures Filling(old(mem.phys), old(mem.Map()), mem.phys, mem.Map(), pd, mem.tmp, pgindex, pgindex + n, NoGain)
    ensures empty ==> Fresh(m0, mem.Map(), mem.phys, mem.owners, pd, lo, pgindex + n, flags)
    ensures Filled(old(mem.Map()), old(mem.owners), mem.phys, mem.Map(), mem.owners, pd, pgindex, pgindex + n, empty)
  {
    hide Accounted, Fresh, Progress, SameOutside, Spare, Filled;
    ghost var phys1, m1, own1 := mem.phys, mem.pmem.memmap[..], mem.owners;
    AccountedSizes(m1, phys1, mem.owners, mem.shares);
    NoProgress(phys1, m1, pd, mem.tmp, pgindex, NoGain);
    FilledNone(m1, own1, phys1, pd, pgindex, empty);
    var j, left := pgindex % TABLE_LEN, pgcount;
    n, res := 0, 0;
    while left > 0 && j < TABLE_LEN
      invariant n <= Min(pgcount, TABLE_LEN - pgindex % TABLE_LEN)
      invariant left == pgcount - n && j == pgindex % TABLE_LEN + n
      invariant mem.Valid() && res == 0 && Spare(mem.Map()) + n >= Spare(m1)
      invariant Filling(phys1, m1, mem.phys, mem.Map(), pd, mem.tmp, pgindex, pgindex + n, NoGain)
      invariant empty ==> Fresh(m0, mem.Map(), mem.phys, mem.owners, pd, lo, pgindex + n, flags)
      invariant Filled(m1, own1, mem.phys, mem.Map(), mem.owners, pd, pgindex, pgindex + n, empty)
    {
      ghost var phys2, m2, own2 := mem.phys, mem.pmem.memmap[..], mem.owners;
      FillingFacts(phys1, m1, phys2, m2, pd, mem.tmp, pgindex, pgindex + n, NoGain);
      NoFitIsNoSpare(m2);
      AccountedSizes(m2, phys2, own2, mem.shares);
      ghost var f;
      res, f := AllocOnePage(mem, pd, s, pt, j, flags);
      if res < 0 {
        return;
      }
      PageSpare(m2, mem.pmem.memmap[..], f, FrameOf(phys2[Child(phys2, pd, s)][j]));
      FillStep(m0, lo, empty, phys1, m1, own1, phys2, m2, own2, mem.pmem.memmap[..], pd, mem.tmp, s, j,
               pgindex, pgcount, n, f, flags);
      left, j, n := left - 1, j + 1, n + 1;
    }
  }

  /** Progress inside one mapped table: no structure appears or disappears. */
  ghost predicate Filling(phys1: Memory, m1: seq<Byte>, phys: Memory, m: seq<Byte>,
                          pd: nat, tmp: nat, lo: nat, hi: nat, gain: Gain)
  {
    && Progress(phys1, m1, phys, m, pd, tmp, lo, hi, gain)
    && phys[pd] == phys1[pd]
    && (forall k :: 0 <= k < |phys| ==> (phys[k] == [] <==> phys1[k] == []))
  }

  lemma FillingFacts(phys1: Memory, m1: seq<Byte>, phys: Memory, m: seq<Byte>,
                     pd: nat, tmp: nat, lo: nat, hi: nat, gain: Gain)
    requires Filling(phys1, m1, phys, m, pd, tmp, lo, hi, gain)
    ensures WellFormed(phys, pd, tmp) && WellFormed(phys1, pd, tmp) && |phys| == |phys1| == |m| == |m1|
    ensures phys[pd] == phys1[pd] && phys[tmp] == phys1[tmp]
    ensures Tree(phys, pd) && IsTable(phys, pd) && IsTable(phys, tmp)
  {
  }

  lemma FillStep(m0: seq<Byte>, lo: nat, empty: bool, phys1: Memory, m1: seq<Byte>,
                 own1: seq<nat>, phys: Memory, m: seq<Byte>, own: seq<nat>, m': seq<Byte>,
                 pd: nat, tmp: nat, s: nat, j: nat, pgindex: nat, pgcount: nat, n: nat, f: nat, flags: Word)
    requires Filling(phys1, m1, phys, m, pd, tmp, pgindex, pgindex + n, NoGain) && |m| <= MAX_FRAMES
    requires s < TABLE_LEN && s != TMP_SLOT && j < TABLE_LEN && Child(phys, pd, s) != 0
    requires pgindex + n == s * TABLE_LEN + j && n < pgcount && pgindex + pgcount <= MAX_FRAMES && lo <= pgindex
    requires empty ==> AllEmpty(phys1, pd, pgindex, pgindex + pgcount)
    requires empty ==> Fresh(m0, m, phys, own, pd, lo, pgindex + n, flags)
    requires Filled(m1, own1, phys, m, own, pd, pgindex, pgindex + n, empty) && |own| == |m|
    requires 0 < f < |m| && IsAllocable(m[f]) && phys[f] == [] && FrameOf(phys[Child(phys, pd, s)][j]) != f
    requires RefMoved(RefRange(m, f, f + 1), m', f, FrameOf(phys[Child(phys, pd, s)][j])) && m'[0] == m[0]
    ensures var phys' := Stored(phys, Child(phys, pd, s), j, PteCreate(f, flags));
            && Filling(phys1, m1, phys', m', pd, tmp, pgindex, pgindex + n + 1, NoGain)
            && (empty ==> Fresh(m0, m', phys', own[f := 1], pd, lo, pgindex + n + 1, flags))
            && Filled(m1, own1, phys', m', own[f := 1], pd, pgindex, pgindex + n + 1, empty)
  {
    hide Progress, Fresh, Filled, SameOutside, WellFormed, AllEmpty, RefMoved, PteCreate, FrameOf, GetRef, GetType;
    FillingFacts(phys1, m1, phys, m, pd, tmp, pgindex, pgindex + n, NoGain);
    var pg := pgindex + n;
    var phys' := Stored(phys, Child(phys, pd, s), j, PteCreate(f, flags));
    PageStored(phys, m, m', pd, tmp, s, j, f, flags);
    ProgressJoins(phys1, m1, phys, m, phys', m', pd, tmp, pgindex, pg, pg + 1, NoGain);
    if empty {
      StillEmpty(phys1, m1, phys, m, pd, tmp, pgindex, pg, pgindex + pgcount, NoGain);
      FreshExtends(m0, m, phys, own, m', phys', pd, tmp, lo, pg, f, flags, NoGain);
      assert pg / TABLE_LEN == s && pg % TABLE_LEN == j;
      assert FrameOf(phys[Child(phys, pd, s)][j]) == 0;
    }
    ProgressIsLocal(phys, m, phys', m', pd, tmp, pg, pg + 1, NoGain);
    FilledStep(m1, own1, phys, m, own, phys', m', pd, pgindex, pg, f, empty);
  }

  lemma StillEmpty(phys1: Memory, m1: seq<Byte>, phys: Memory, m: seq<Byte>, pd: nat, tmp: nat,
                   lo: nat, pg: nat, hi: nat, gain: Gain)
    requires Progress(phys1, m1, phys, m, pd, tmp, lo, pg, gain) && lo <= pg < hi <= MAX_FRAMES
    requires AllEmpty(phys1, pd, lo, hi)
    ensures Look(phys, pd, pg) == 0
  {
    assert Look(phys1, pd, pg) == 0;
  }

  lemma NoProgress(phys: Memory, m: seq<Byte>, pd: nat, tmp: nat, pg: nat, gain: Gain)
    requires WellFormed(phys, pd, tmp) && |m| == |phys|
    ensures Filling(phys, m, phys, m, pd, tmp, pg, pg, gain)
  {
  }

  // ---- map, fill, unmap -------------------------------------------------------------------

  /** The page range keeps clear of the area of temporary mappings. */
  predicate AvoidsTemp(lo: nat, hi: nat) {
    hi <= TMP_PAGE || TMP_PAGE + TABLE_LEN <= lo
  }

  /** What a failure at page mid leaves behind, pages [lo, mid) having been done:
      all other pages, and other address spaces, are as before. If the failure came
      after the table of page mid had been mapped, that mapping stays, in the first
      entry of the temporary table that was free; otherwise leak is -1. */
  ghost predicate Aborted(phys0: Memory, phys: Memory, pd: nat, tmp: nat, lo: nat, mid: nat, leak: int)
    requires WellFormed(phys0, pd, tmp) && WellFormed(phys, pd, tmp)
  {
    && -1 <= leak && mid < MAX_FRAMES
    && OthersKept(phys0, phys, pd, tmp)
    && (forall pg: nat :: pg < MAX_FRAMES && !(lo <= pg < mid) && !(leak >= 0 && pg == TMP_PAGE + leak) ==>
          Entry(phys, pd, pg) == Entry(phys0, pd, pg))
    && (if leak == -1 then phys[tmp] == phys0[tmp]
        else
          var c := Child(phys, pd, mid / TABLE_LEN);
          c != 0 && FirstFree(phys0[tmp], leak) && phys[tmp] == phys0[tmp][leak := PteCreate(c, TEMP_FLAGS)])
  }

  lemma NotTheWholeSpace(pgindex: nat, pgcount: nat)
    requires AvoidsTemp(pgindex, pgindex + pgcount) && pgindex + pgcount <= MAX_FRAMES
    ensures pgcount < MAX_FRAMES
  {
  }

  /** Mapping a table, filling pages of its slot and unmapping it again leaves
      the filled pages as the only visible change. */
  lemma PassProgress(phys0: Memory, m0: seq<Byte>, own0: seq<nat>, phys1: Memory, m1: seq<Byte>, own1: seq<nat>,
                     phys2: Memory, m2: seq<Byte>, m3: seq<Byte>,
                     pd: nat, tmp: nat, s: nat, j: nat, pg: nat, n: nat, gain: Gain)
    requires TableReached(phys0, phys1, pd, tmp, s, j)
    requires TableCounted(phys0, m0, own0, m1, own1, Child(phys1, pd, s))
    requires Filling(phys1, m1, phys2, m2, pd, tmp, pg, pg + n, gain) && |phys2| <= MAX_FRAMES
    requires s == pg / TABLE_LEN && s != TMP_SLOT && 0 < n <= TABLE_LEN - pg % TABLE_LEN
    requires RefMoved(m2, m3, 0, Child(phys1, pd, s))
    ensures Progress(phys0, m0, Stored(phys2, tmp, j, 0), m3, pd, tmp, pg, pg + n, gain)
  {
    var c := Child(phys1, pd, s);
    var phys3 := Stored(phys2, tmp, j, 0);
    StoreTemp(phys2, pd, tmp, j, 0);
    assert phys3[tmp] == phys0[tmp];
    TempRestored(phys0, phys1, phys2, pd, tmp, s, j, pg, n);
    TablesThroughPass(phys0, m0, own0, phys1, m1, own1, phys2, m2, phys3, m3, pd, tmp, s, j, pg, pg + n, gain);
  }

  lemma TablesThroughPass(phys0: Memory, m0: seq<Byte>, own0: seq<nat>, phys1: Memory, m1: seq<Byte>, own1: seq<nat>,
                          phys2: Memory, m2: seq<Byte>, phys3: Memory, m3: seq<Byte>,
                          pd: nat, tmp: nat, s: nat, j: nat, lo: nat, hi: nat, gain: Gain)
    requires TableReached(phys0, phys1, pd, tmp, s, j)
    requires TableCounted(phys0, m0, own0, m1, own1, Child(phys1, pd, s))
    requires TablesKept(phys1, m1, phys2, m2, lo, hi, gain)
    requires RefMoved(m2, m3, 0, Child(phys1, pd, s))
    requires |phys3| == |phys2| && forall k :: 0 <= k < |phys2| && phys2[k] != [] ==> phys3[k] != []
    ensures TablesKept(phys0, m0, phys3, m3, lo, hi, gain)
  {
    var c := Child(phys1, pd, s);
    forall k | 1 <= k < |phys0| && phys0[k] != []
      ensures phys3[k] != [] && GetRef(m3[k]) <= GetRef(m0[k]) + One(Gains(gain, k, lo, hi))
    {
      assert phys1[k] != [];
      assert phys2[k] != [];
      assert GetRef(m3[k]) == GetRef(m2[k]) - One(k == c);
      assert GetRef(m1[k]) == GetRef(m0[k]) + One(k == c);
    }
  }

  lemma TempRestored(phys0: Memory, phys1: Memory, phys2: Memory, pd: nat, tmp: nat, s: nat, j: nat, pg: nat, n: nat)
    requires TableReached(phys0, phys1, pd, tmp, s, j)
    requires WellFormed(phys2, pd, tmp) && SameOutside(phys1, phys2, pd, pg, pg + n)
    requires phys2[pd] == phys1[pd] && |phys2| == |phys1|
    requires s == pg / TABLE_LEN && s != TMP_SLOT && 0 < n <= TABLE_LEN - pg % TABLE_LEN
    requires WellFormed(Stored(phys2, tmp, j, 0), pd, tmp)
    ensures SameOutside(phys0, Stored(phys2, tmp, j, 0), pd, pg, pg + n)
  {
    var phys3 := Stored(phys2, tmp, j, 0);
    StoreTemp(phys2, pd, tmp, j, 0);
    forall p: nat | p < MAX_FRAMES && !(pg <= p < pg + n)
      ensures Entry(phys3, pd, p) == Entry(phys0, pd, p)
    {
      assert Entry(phys2, pd, p) == Entry(phys1, pd, p);
      if p == TMP_PAGE + j {
        assert p / TABLE_LEN == TMP_SLOT && p % TABLE_LEN == j;
        assert Child(phys2, pd, TMP_SLOT) == Child(phys0, pd, TMP_SLOT);
      } else {
        assert Entry(phys3, pd, p) == Entry(phys2, pd, p);
      }
    }
  }

  /** Fresh and empty pages are not affected by mapping a table. */
  lemma FreshWhileMapped(m0: seq<Byte>, m: seq<Byte>, phys: Memory, own: seq<nat>,
                         m1: seq<Byte>, phys1: Memory, own1: seq<nat>,
                         pd: nat, tmp: nat, s: nat, j: nat, lo: nat, pg: nat, hi: nat, flags: Word)
    requires Fresh(m0, m, phys, own, pd, lo, pg, flags) && lo <= pg <= hi <= MAX_FRAMES
    requires AllEmpty(phys, pd, pg, hi) && AvoidsTemp(lo, hi)
    requires TableReached(phys, phys1, pd, tmp, s, j)
    requires TableCounted(phys, m, own, m1, own1, Child(phys1, pd, s))
    ensures Fresh(m0, m1, phys1, own1, pd, lo, pg, flags) && AllEmpty(phys1, pd, pg, hi)
  {
    FreshKept(m0, m, phys, own, m1, phys1, own1, pd, lo, pg, flags, Child(phys1, pd, s));
    forall p | pg <= p < hi ensures Look(phys1, pd, p) == 0 {
      assert Look(phys, pd, p) == 0;
    }
  }

  /** ... nor by unmapping it. */
  lemma FreshAfterUnmap(m0: seq<Byte>, m: seq<Byte>, phys: Memory, own: seq<nat>, m1: seq<Byte>,
                        pd: nat, tmp: nat, j: nat, lo: nat, hi: nat, flags: Word, c: nat)
    requires Fresh(m0, m, phys, own, pd, lo, hi, flags) && WellFormed(phys, pd, tmp)
    requires AvoidsTemp(lo, hi) && j < TABLE_LEN
    requires 0 < c < |phys| && phys[c] != [] && RefMoved(m, m1, 0, c) && GetRef(m1[c]) > 0
    ensures Fresh(m0, m1, Stored(phys, tmp, j, 0), own, pd, lo, hi, flags)
  {
    StoreTemp(phys, pd, tmp, j, 0);
    FreshKept(m0, m, phys, own, m1, Stored(phys, tmp, j, 0), own, pd, lo, hi, flags, c);
  }

  /** The frame of the table that a failure at page mid leaves mapped, or 0. */
  ghost function LeftMapped(phys: Memory, pd: nat, mid: nat, leak: int): (c: nat)
    requires IsTable(phys, pd)
  {
    if leak < 0 || mid >= MAX_FRAMES then 0 else Child(phys, pd, mid / TABLE_LEN)
  }

  lemma AbortedSlot(phys0: Memory, phys: Memory, pd: nat, tmp: nat, lo: nat, n: nat, leak: int)
    requires WellFormed(phys0, pd, tmp) && WellFormed(phys, pd, tmp) && lo + n < MAX_FRAMES
    requires n < TABLE_LEN - lo % TABLE_LEN && leak >= 0
    ensures LeftMapped(phys, pd, lo + n, leak) == Child(phys, pd, lo / TABLE_LEN)
  {
    SameSlot(lo, n);
  }

  lemma AbortedAtOnce(phys: Memory, pd: nat, tmp: nat, pg: nat)
    requires WellFormed(phys, pd, tmp) && pg < MAX_FRAMES
    ensures Aborted(phys, phys, pd, tmp, pg, pg, -1)
  {
  }

  lemma OthersKeptJoins(phys0: Memory, phys1: Memory, phys2: Memory, pd: nat, tmp: nat)
    requires IsTable(phys0, pd) && IsTable(phys1, pd) && IsTable(phys2, pd)
    requires OthersKept(phys0, phys1, pd, tmp) && OthersKept(phys1, phys2, pd, tmp)
    ensures OthersKept(phys0, phys2, pd, tmp)
  {
    forall k | 0 <= k < |phys0| && phys0[k] != [] && Foreign(phys0, pd, tmp, k)
      ensures phys2[k] == phys0[k] && Foreign(phys2, pd, tmp, k)
    {
      assert phys1[k] == phys0[k] && Foreign(phys1, pd, tmp, k);
    }
  }

  lemma ProgressFacts(phys0: Memory, m0: seq<Byte>, phys: Memory, m: seq<Byte>,
                      pd: nat, tmp: nat, lo: nat, hi: nat, gain: Gain)
    requires Progress(phys0, m0, phys, m, pd, tmp, lo, hi, gain)
    ensures WellFormed(phys0, pd, tmp) && WellFormed(phys, pd, tmp) && |phys| == |m| == |phys0| == |m0|
    ensures phys[tmp] == phys0[tmp] && Tree(phys0, pd) && Tree(phys, pd) && IsTable(phys, tmp)
    ensures IsTable(phys, pd) && IsTable(phys0, pd)
  {
  }

  lemma ReachedFacts(phys0: Memory, phys1: Memory, pd: nat, tmp: nat, s: nat, j: nat)
    requires TableReached(phys0, phys1, pd, tmp, s, j) && |phys1| <= MAX_FRAMES
    ensures WellFormed(phys1, pd, tmp) && |phys0| == |phys1|
    ensures Tree(phys1, pd) && IsTable(phys1, pd) && IsTable(phys1, tmp)
    ensures IsTable(phys1, Child(phys1, pd, s))
    ensures 0 < Child(phys1, pd, s) < |phys1| && j < TABLE_LEN
    ensures FrameOf(phys1[tmp][j]) == Child(phys1, pd, s) && HasFree(phys0[tmp])
  {
    EntryRoundTrip(Child(phys1, pd, s), TEMP_FLAGS);
  }

  lemma PassFailed(phys0: Memory, phys1: Memory, m1: seq<Byte>, phys2: Memory, m2: seq<Byte>,
                   pd: nat, tmp: nat, s: nat, j: nat, pg: nat, n: nat, gain: Gain)
    requires TableReached(phys0, phys1, pd, tmp, s, j)
    requires Filling(phys1, m1, phys2, m2, pd, tmp, pg, pg + n, gain)
    requires s == (pg + n) / TABLE_LEN && pg + n < MAX_FRAMES
    ensures WellFormed(phys0, pd, tmp) && WellFormed(phys2, pd, tmp)
    ensures Aborted(phys0, phys2, pd, tmp, pg, pg + n, j)
  {
    hide OthersKept;
    OthersKeptJoins(phys0, phys1, phys2, pd, tmp);
    forall p: nat | p < MAX_FRAMES && !(pg <= p < pg + n) && p != TMP_PAGE + j
      ensures Entry(phys2, pd, p) == Entry(phys0, pd, p)
    {
      assert Entry(phys2, pd, p) == Entry(phys1, pd, p);
    }
  }

  lemma SameSlot(pg: nat, n: nat)
    requires n < TABLE_LEN - pg % TABLE_LEN
    ensures (pg + n) / TABLE_LEN == pg / TABLE_LEN
  {
  }

  lemma PassSpare(phys0: Memory, m0: seq<Byte>, own0: seq<nat>, sh: Shares,
                  phys1: Memory, m1: seq<Byte>, own1: seq<nat>, pd: nat, tmp: nat, s: nat, j: nat)
    requires Accounted(m0, phys0, own0, sh)
    requires TableReached(phys0, phys1, pd, tmp, s, j)
    requires TableCounted(phys0, m0, own0, m1, own1, Child(phys1, pd, s))
    ensures Spare(m1) + One(Child(phys0, pd, s) == 0) >= Spare(m0)
  {
    hide Spare, Accounted, TableCounted;
    var c := Child(phys1, pd, s);
    TableSpare(phys0, m0, own0, sh, m1, own1, c);
    if Child(phys0, pd, s) != 0 {
      assert c == Child(phys0, pd, s) && IsTable(phys0, c);
    }
  }

  lemma PassClosed(phys0: Memory, m0: seq<Byte>, own0: seq<nat>, phys: Memory, m: seq<Byte>, own: seq<nat>,
                   m': seq<Byte>, pd: nat, tmp: nat, j: nat, lo: nat, mid: nat, hi: nat, c: nat, empty: bool)
    requires Books(phys0, m0, own0, phys, m, own, pd, lo, mid, hi, c, empty) && c > 0 && mid <= hi <= MAX_FRAMES
    requires WellFormed(phys, pd, tmp) && j < TABLE_LEN && AvoidsTemp(lo, hi)
    requires RefMoved(m, m', 0, c) && |m| > 0 && m'[0] == m[0]
    ensures Books(phys0, m0, own0, Stored(phys, tmp, j, 0), m', own, pd, lo, mid, hi, 0, empty)
  {
    hide Books;
    StoreTemp(phys, pd, tmp, j, 0);
    BooksUnmapped(phys0, m0, own0, phys, m, own, Stored(phys, tmp, j, 0), m', pd, lo, mid, hi, c, empty);
  }

  /** The rest of a pass, once the table is mapped at page pt: fill, then unmap. */
  method FillAndUnmap(mem: PagedMemory, pd: nat, s: nat, pt: nat, pgindex: nat, pgcount: nat, flags: Word,
                      ghost empty: bool, ghost m0: seq<Byte>, ghost lo: nat,
                      ghost phys0: Memory, ghost mm0: seq<Byte>, ghost own0: seq<nat>)
    returns (res: int, n: nat)
    requires mem.Valid() && TMP_PAGE <= pt && |mem.phys| <= MAX_FRAMES && pd in mem.shares.dirs
    requires lo <= pgindex && pgcount > 0 && pgindex + pgcount <= MAX_FRAMES && AvoidsTemp(lo, pgindex + pgcount)
    requires s == pgindex / TABLE_LEN
    requires TableReached(phys0, mem.phys, pd, mem.tmp, s, pt - TMP_PAGE)
    requires TableCounted(phys0, mm0, own0, mem.Map(), mem.owners, Child(mem.phys, pd, s))
    requires empty ==> AllEmpty(mem.phys, pd, pgindex, pgindex + pgcount)
    requires empty ==> Fresh(m0, mem.Map(), mem.phys, mem.owners, pd, lo, pgindex, flags)
    modifies mem`phys, mem`owners, mem.pmem.memmap
    ensures mem.Valid() && WellFormed(mem.phys, pd, mem.tmp) && WellFormed(phys0, pd, mem.tmp)
    ensures res in {0, -ENOMEM}
    ensures res != 0 ==>
      && n < Min(pgcount, TABLE_LEN - pgindex % TABLE_LEN) && Spare(old(mem.Map())) < pgcount
      && Aborted(phys0, mem.phys, pd, mem.tmp, pgindex, pgindex + n, pt - TMP_PAGE)
    ensures res == 0 ==>
      && n == Min(pgcount, TABLE_LEN - pgindex % TABLE_LEN)
      && Progress(phys0, mm0, mem.phys, mem.Map(), pd, mem.tmp, pgindex, pgindex + n, NoGain)
      && Spare(mem.Map()) + n >= Spare(old(mem.Map()))
    ensures empty ==> Fresh(m0, mem.Map(), mem.phys, mem.owners, pd, lo, pgindex + n, flags)
    ensures Books(phys0, mm0, own0, mem.phys, mem.Map(), mem.owners, pd, pgindex, pgindex + n, pgindex + pgcount,
                  if res == 0 then 0 else Child(mem.phys, pd, s), empty)
  {
    hide Books, Filled;
    hide Accounted, Fresh, TableReached, TableCounted, Filling, Progress, SameOutside, OthersKept, Aborted;
    hide Spare, RefMoved, AllEmpty, WellFormed, FrameOf, GetRef, GetType;
    ghost var phys1, m1, own1, j := mem.phys, mem.pmem.memmap[..], mem.owners, pt - TMP_PAGE;
    ReachedFacts(phys0, phys1, pd, mem.tmp, s, j);
    ghost var c := Child(phys1, pd, s);
    res, n := FillTable(mem, pd, s, pt, pgindex, pgcount, flags, empty, m0, lo);
    ghost var phys2, m2, own2 := mem.phys, mem.pmem.memmap[..], mem.owners;
    FillingFacts(phys1, m1, phys2, m2, pd, mem.tmp, pgindex, pgindex + n, NoGain);
    BooksMapped(phys0, mm0, own0, phys1, m1, own1, phys2, m2, own2, pd, mem.tmp, s, j, pgindex, pgindex + n,
                pgindex + pgcount, empty);
    if res < 0 {
      SameSlot(pgindex, n);
      PassFailed(phys0, phys1, m1, phys2, m2, pd, mem.tmp, s, j, pgindex, n, NoGain);
      return;
    }
    var _ := UninstallTempPage(mem, pt);
    PassClosed(phys0, mm0, own0, phys2, m2, own2, mem.pmem.memmap[..], pd, mem.tmp, j, pgindex, pgindex + n,
               pgindex + pgcount, c, empty);
    UnmapSpare(m2, mem.pmem.memmap[..], c);
    PassProgress(phys0, mm0, own0, phys1, m1, own1, phys2, m2, mem.pmem.memmap[..], pd, mem.tmp, s, j,
                 pgindex, n, NoGain);
    ProgressFacts(phys0, mm0, mem.phys, mem.pmem.memmap[..], pd, mem.tmp, pgindex, pgindex + n, NoGain);
    if empty {
      assert mem.phys[pd] == phys2[pd] && IsTable(phys2, Child(phys2, pd, s));
      AccountedNames(mem.pmem.memmap[..], mem.phys, mem.owners, mem.shares, pd, s);
      FreshAfterUnmap(m0, m2, phys2, own2, mem.pmem.memmap[..], pd, mem.tmp, j, lo, pgindex + n, flags, c);
    }
  }

  /** One pass of the outer loop of `vmem_32_alloc_pages`. */
  method AllocPass(mem: PagedMemory, pd: nat, s: nat, pgindex: nat, pgcount: nat, flags: Word,
                   ghost empty: bool, ghost m0: seq<Byte>, ghost lo: nat)
    returns (res: int, n: nat, ghost leak: int)
    requires mem.Valid() && WellFormed(mem.phys, pd, mem.tmp) && pd in mem.shares.dirs
    requires lo <= pgindex && pgcount > 0 && pgindex + pgcount <= MAX_FRAMES && AvoidsTemp(lo, pgindex + pgcount)
    requires s == pgindex / TABLE_LEN && Mappable(mem.phys, mem.Map(), pd, s)
    requires empty ==> AllEmpty(mem.phys, pd, pgindex, pgindex + pgcount)
    requires empty ==> Fresh(m0, mem.Map(), mem.phys, mem.owners, pd, lo, pgindex, flags)
    modifies mem`phys, mem`owners, mem.pmem.memmap
    ensures mem.Valid() && WellFormed(mem.phys, pd, mem.tmp)
    ensures res in {0, -ENOMEM, -EFAULT}
    ensures res != 0 ==>
      n < pgcount && Aborted(old(mem.phys), mem.phys, pd, mem.tmp, pgindex, pgindex + n, leak)
    ensures res != 0 ==>
      !HasFree(old(mem.phys)[mem.tmp]) || Spare(old(mem.Map())) < pgcount + One(old(Child(mem.phys, pd, s)) == 0)
    ensures res == 0 ==>
      && n == Min(pgcount, TABLE_LEN - pgindex % TABLE_LEN) && HasFree(old(mem.phys)[mem.tmp])
      && Spare(mem.Map()) + n + One(old(Child(mem.phys, pd, s)) == 0) >= Spare(old(mem.Map()))
      && Progress(old(mem.phys), old(mem.Map()), mem.phys, mem.Map(), pd, mem.tmp, pgindex, pgindex + n, NoGain)
    ensures empty ==> Fresh(m0, mem.Map(), mem.phys, mem.owners, pd, lo, pgindex + n, flags)
    ensures (res == 0 ==> leak == -1) && n <= pgcount && -1 <= leak < TABLE_LEN
    ensures res != 0 && leak == -1 ==> !HasFree(old(mem.phys)[mem.tmp]) || old(Child(mem.phys, pd, s)) == 0
    ensures Books(old(mem.phys), old(mem.Map()), old(mem.owners), mem.phys, mem.Map(), mem.owners,
                  pd, pgindex, pgindex + n, pgindex + pgcount, LeftMapped(mem.phys, pd, pgindex + n, leak), empty)
    ensures !HasFree(old(mem.phys)[mem.tmp]) ==>
      mem.phys == old(mem.phys) && mem.Map() == old(mem.Map()) && mem.owners == old(mem.owners)
  {
    hide Books;
    hide Accounted, Fresh, TableReached, TableCounted, Progress, SameOutside, OthersKept, Aborted;
    hide Spare, HasFree, RefMoved, AllEmpty, WellFormed, FrameOf, GetRef, GetType;
    WellFormedTree(mem.phys, pd, mem.tmp);
    ghost var phys0, mm0, own0 := mem.phys, mem.pmem.memmap[..], mem.owners;
    AccountedSizes(mm0, phys0, own0, mem.shares);
    NoFitIsNoSpare(mm0);
    var pt := MapPageTable(mem, pd, s, true);
    if pt == 0 {
      AbortedAtOnce(phys0, pd, mem.tmp, pgindex);
      BooksStart(phys0, mm0, own0, pd, pgindex, pgindex + pgcount, empty);
      return -EFAULT, 0, -1;
    }
    ghost var phys1, m1, own1, j := mem.phys, mem.pmem.memmap[..], mem.owners, pt - TMP_PAGE;
    AccountedSizes(m1, phys1, own1, mem.shares);
    ReachedFacts(phys0, phys1, pd, mem.tmp, s, j);
    PassSpare(phys0, mm0, own0, mem.shares, phys1, m1, own1, pd, mem.tmp, s, j);
    if empty {
      FreshWhileMapped(m0, mm0, phys0, own0, m1, phys1, own1, pd, mem.tmp, s, j, lo, pgindex, pgindex + pgcount, flags);
    }
    res, n := FillAndUnmap(mem, pd, s, pt, pgindex, pgcount, flags, empty, m0, lo, phys0, mm0, own0);
    leak := if res == 0 then -1 else j;
    WellFormedTree(mem.phys, pd, mem.tmp);
    if res != 0 {
      AbortedSlot(phys0, mem.phys, pd, mem.tmp, pgindex, n, leak);
    }
  }

  // ---- the whole range ----------------------------------------------------------------------

  /** Every page table of the range is absent or can be mapped temporarily, even
      if the operation itself maps that table's frame once more. */
  ghost predicate RangeMappable(phys: Memory, m: seq<Byte>, pd: nat, lo: nat, hi: nat, gain: Gain)
    requires Tree(phys, pd) && |m| == |phys| && hi <= MAX_FRAMES
  {
    forall t :: lo / TABLE_LEN <= t < TABLE_LEN && t * TABLE_LEN < hi && Child(phys, pd, t) != 0 ==>
      GetRef(m[Child(phys, pd, t)]) + One(Gains(gain, Child(phys, pd, t), lo, hi)) < MAX_REF
  }

  lemma StillMappable(phys0: Memory, m0: seq<Byte>, phys: Memory, m: seq<Byte>,
                      pd: nat, tmp: nat, lo: nat, mid: nat, hi: nat, t: nat, gain: Gain)
    requires Progress(phys0, m0, phys, m, pd, tmp, lo, mid, gain) && lo <= mid < hi <= MAX_FRAMES
    requires RangeMappable(phys0, m0, pd, lo, hi, gain)
    requires t == mid / TABLE_LEN && mid == t * TABLE_LEN
    ensures Mappable(phys, m, pd, t) && Child(phys, pd, t) == Child(phys0, pd, t)
  {
    assert phys[pd][t] == phys0[pd][t];
    assert Child(phys0, pd, t) == Child(phys, pd, t);
  }

  /** Pages of the range that lie in its first i tables. */
  function Covered(pgindex: nat, pgcount: nat, i: nat): (n: nat) {
    if i == 0 then 0 else Min(pgcount, (pgindex / TABLE_LEN + i) * TABLE_LEN - pgindex)
  }

  /** The arithmetic of the outer loops: pass i starts in slot pgindex / 1024 + i and
      takes the range to the end of that table. */
  lemma CoveredStep(pgindex: nat, pgcount: nat, ptcount: nat, i: nat)
    requires pgindex + pgcount <= MAX_FRAMES && pgcount > 0 && i < ptcount
    requires ptcount == 1 + (pgindex + pgcount - 1) / TABLE_LEN - pgindex / TABLE_LEN
    ensures var pg, s := pgindex + Covered(pgindex, pgcount, i), pgindex / TABLE_LEN + i;
            && Covered(pgindex, pgcount, i) < pgcount && s == pg / TABLE_LEN && s < TABLE_LEN
            && (i > 0 ==> pg == s * TABLE_LEN)
            && s * TABLE_LEN < pgindex + pgcount
            && Covered(pgindex, pgcount, i + 1)
               == Covered(pgindex, pgcount, i) + Min(pgindex + pgcount - pg, TABLE_LEN - pg % TABLE_LEN)
  {
  }

  lemma CoveredAll(pgindex: nat, pgcount: nat, ptcount: nat)
    requires ptcount == if pgcount == 0 then 0 else 1 + (pgindex + pgcount - 1) / TABLE_LEN - pgindex / TABLE_LEN
    ensures Covered(pgindex, pgcount, 0) == 0 && Covered(pgindex, pgcount, ptcount) == pgcount
  {
  }

  /** The number of page tables, from slot s on, that pages below hi lack. */
  ghost function Missing(phys: Memory, pd: nat, s: nat, hi: nat): (n: nat)
    requires IsTable(phys, pd)
    decreases TABLE_LEN - s
  {
    if s >= TABLE_LEN || hi <= s * TABLE_LEN then 0
    else One(Child(phys, pd, s) == 0) + Missing(phys, pd, s + 1, hi)
  }

  lemma MissingFrom(phys: Memory, pd: nat, s: nat, hi: nat)
    requires IsTable(phys, pd) && s < TABLE_LEN && s * TABLE_LEN < hi
    ensures Missing(phys, pd, s, hi) == One(Child(phys, pd, s) == 0) + Missing(phys, pd, s + 1, hi)
  {
  }

  lemma {:induction false} NoneMissing(phys: Memory, pd: nat, s: nat, hi: nat, t: nat)
    requires IsTable(phys, pd) && Missing(phys, pd, s, hi) == 0
    requires s <= t < TABLE_LEN && t * TABLE_LEN < hi
    ensures Child(phys, pd, t) != 0
    decreases t - s
  {
    if s < t {
      NoneMissing(phys, pd, s + 1, hi, t);
    }
  }

  /** `vmem_32_alloc_pages`. On success the flat map changes at most on the range;
      if the range was empty, each page now has a frame of its own that was
      allocable before the call. After a failure the pages done so far are just as
      fresh, and all that was left behind is what Aborted says. No frame but those of
      the pages, of new tables and of the table left mapped changes in count, type or
      owners. It cannot fail while a temporary page is free and enough frames are left
      for the pages and the page tables they lack. */
  method AllocPages(mem: PagedMemory, pd: nat, pgindex: nat, pgcount: nat, flags: Word)
    returns (res: int, ghost done: nat, ghost leak: int)
    requires mem.Valid() && WellFormed(mem.phys, pd, mem.tmp) && pd in mem.shares.dirs
    requires pgindex + pgcount <= MAX_FRAMES && AvoidsTemp(pgindex, pgindex + pgcount)
    requires RangeMappable(mem.phys, mem.Map(), pd, pgindex, pgindex + pgcount, NoGain)
    modifies mem`phys, mem`owners, mem.pmem.memmap
    ensures mem.Valid() && WellFormed(mem.phys, pd, mem.tmp)
    ensures res in {0, -ENOMEM, -EFAULT} && done <= pgcount
    ensures res == 0 <==> done == pgcount
    ensures res != 0 ==> Aborted(old(mem.phys), mem.phys, pd, mem.tmp, pgindex, pgindex + done, leak)
    ensures res == 0 && pgcount > 0 ==> HasFree(old(mem.phys)[mem.tmp])
    ensures HasFree(old(mem.phys)[mem.tmp]) &&
            Spare(old(mem.Map())) >= pgcount + old(Missing(mem.phys, pd, pgindex / TABLE_LEN, pgindex + pgcount)) ==>
            res == 0
    ensures res == 0 ==>
      Progress(old(mem.phys), old(mem.Map()), mem.phys, mem.Map(), pd, mem.tmp, pgindex, pgindex + pgcount, NoGain)
    ensures old(AllEmpty(mem.phys, pd, pgindex, pgindex + pgcount)) ==>
      Fresh(old(mem.Map()), mem.Map(), mem.phys, mem.owners, pd, pgindex, pgindex + done, flags)
    ensures Books(old(mem.phys), old(mem.Map()), old(mem.owners), mem.phys, mem.Map(), mem.owners,
                  pd, pgindex, pgindex + done, pgindex + pgcount, LeftMapped(mem.phys, pd, pgindex + done, leak),
                  old(AllEmpty(mem.phys, pd, pgindex, pgindex + pgcount)))
    ensures (res == 0 ==> leak == -1) && -1 <= leak < TABLE_LEN
    ensures res != 0 && leak == -1 ==>
      !HasFree(old(mem.phys)[mem.tmp]) || old(Missing(mem.phys, pd, pgindex / TABLE_LEN, pgindex + pgcount)) > 0
    ensures !HasFree(old(mem.phys)[mem.tmp]) ==>
      mem.phys == old(mem.phys) && mem.Map() == old(mem.Map()) && mem.owners == old(mem.owners)
  {
    hide Accounted, PagesDone, Books, Fresh, Aborted, Progress, Mappable, RangeMappable, AllEmpty, WellFormed, Tree;
    hide TableCount, TableIndex, PageAddress, PageMemory, Spare, HasFree, Missing, AvoidsTemp, Covered;
    hide FrameOf, GetRef, GetType;
    WellFormedTree(mem.phys, pd, mem.tmp);
    ghost var phys0, m0, own0, hi := mem.phys, mem.pmem.memmap[..], mem.owners, pgindex + pgcount;
    AccountedSizes(m0, phys0, own0, mem.shares);
    ghost var empty := AllEmpty(mem.phys, pd, pgindex, pgindex + pgcount);
    NotTheWholeSpace(pgindex, pgcount);
    TableWalk(pgindex, pgcount);
    PagesStart(phys0, m0, own0, pd, mem.tmp, pgindex, hi, flags, empty);
    var ptindex := TableIndex(PageAddress(pgindex));
    var ptcount := TableCount(PageAddress(pgindex), PageMemory(pgcount));
    CoveredAll(pgindex, pgcount, ptcount);
    var i, n := 0, 0;
    while i < ptcount
      invariant 0 <= i <= ptcount && n == Covered(pgindex, pgcount, i)
      invariant mem.Valid()
      invariant PagesDone(phys0, m0, own0, mem.phys, mem.Map(), mem.owners, pd, mem.tmp,
                          pgindex, pgindex + n, hi, flags, empty)
      invariant i == 0 ==> mem.phys == phys0 && mem.Map() == m0 && mem.owners == own0
      invariant i > 0 ==> HasFree(phys0[mem.tmp])
      invariant i < ptcount ==> Missing(phys0, pd, ptindex + i, hi) <= Missing(phys0, pd, ptindex, hi)
      invariant i < ptcount ==>
        Spare(mem.Map()) + n + Missing(phys0, pd, ptindex, hi) >= Spare(m0) + Missing(phys0, pd, ptindex + i, hi)
    {
      ghost var phys1, m1, own1 := mem.phys, mem.pmem.memmap[..], mem.owners;
      var pg, s := pgindex + n, ptindex + i;
      CoveredStep(pgindex, pgcount, ptcount, i);
      PagesNext(phys0, m0, own0, phys1, m1, own1, pd, mem.tmp, pgindex, pg, hi, s, flags, empty);
      MissingFrom(phys0, pd, s, hi);
      var k;
      res, k, leak := AllocPass(mem, pd, s, pg, pgcount - n, flags, empty, m0, pgindex);
      done := n + k;
      if res < 0 {
        PagesFailed(phys0, m0, own0, phys1, m1, own1, mem.phys, mem.pmem.memmap[..], mem.owners,
                    pd, mem.tmp, pgindex, pg, k, hi, leak, flags, empty);
        return;
      }
      PagesPassed(phys0, m0, own0, phys1, m1, own1, mem.phys, mem.pmem.memmap[..], mem.owners,
                  pd, mem.tmp, pgindex, pg, k, hi, flags, empty);
      i, n := i + 1, n + k;
    }
    res, done, leak := 0, pgcount, -1;
    PagesEnd(phys0, m0, own0, mem.phys, mem.pmem.memmap[..], mem.owners, pd, mem.tmp, pgindex, hi, flags, empty);
  }

  /** The state of the outer loop: pages [lo, mid) of [lo, hi) are done. */
  ghost predicate PagesDone(phys0: Memory, m0: seq<Byte>, own0: seq<nat>, phys: Memory, m: seq<Byte>, own: seq<nat>,
                            pd: nat, tmp: nat, lo: nat, mid: nat, hi: nat, flags: Word, empty: bool)
  {
    && Progress(phys0, m0, phys, m, pd, tmp, lo, mid, NoGain)
    && lo <= mid <= hi <= MAX_FRAMES && AvoidsTemp(lo, hi) && RangeMappable(phys0, m0, pd, lo, hi, NoGain)
    && Books(phys0, m0, own0, phys, m, own, pd, lo, mid, hi, 0, empty)
    && (empty ==> AllEmpty(phys0, pd, lo, hi) && Fresh(m0, m, phys, own, pd, lo, mid, flags))
  }

  lemma PagesStart(phys: Memory, m: seq<Byte>, own: seq<nat>, pd: nat, tmp: nat,
                   lo: nat, hi: nat, flags: Word, empty: bool)
    requires WellFormed(phys, pd, tmp) && |m| == |phys| == |own| && lo <= hi <= MAX_FRAMES && AvoidsTemp(lo, hi)
    requires RangeMappable(phys, m, pd, lo, hi, NoGain) && (empty ==> AllEmpty(phys, pd, lo, hi))
    ensures PagesDone(phys, m, own, phys, m, own, pd, tmp, lo, lo, hi, flags, empty)
  {
    hide Books, Fresh, Progress;
    StartOfRange(phys, m, own, pd, tmp, lo, hi - lo, flags, NoGain);
    BooksStart(phys, m, own, pd, lo, hi, empty);
  }

  /** What the next pass may rely on. */
  lemma PagesNext(phys0: Memory, m0: seq<Byte>, own0: seq<nat>, phys: Memory, m: seq<Byte>, own: seq<nat>,
                  pd: nat, tmp: nat, lo: nat, pg: nat, hi: nat, s: nat, flags: Word, empty: bool)
    requires PagesDone(phys0, m0, own0, phys, m, own, pd, tmp, lo, pg, hi, flags, empty)
    requires pg < hi && s == pg / TABLE_LEN && ((phys == phys0 && m == m0 && pg == lo) || pg == s * TABLE_LEN)
    ensures WellFormed(phys, pd, tmp) && Tree(phys, pd) && IsTable(phys, pd) && |m| == |phys| == |phys0|
    ensures IsTable(phys0, pd) && Child(phys, pd, s) == Child(phys0, pd, s) && phys[tmp] == phys0[tmp]
    ensures Mappable(phys, m, pd, s) && AvoidsTemp(lo, hi) && hi <= MAX_FRAMES
    ensures empty ==> AllEmpty(phys, pd, pg, hi) && Fresh(m0, m, phys, own, pd, lo, pg, flags)
  {
    hide Books, Fresh, SameOutside, OthersKept, TablesKept, AllEmpty;
    ProgressFacts(phys0, m0, phys, m, pd, tmp, lo, pg, NoGain);
    if pg == s * TABLE_LEN {
      StillMappable(phys0, m0, phys, m, pd, tmp, lo, pg, hi, s, NoGain);
    }
    RestEmpty(phys0, m0, phys, m, pd, tmp, lo, pg, hi, NoGain);
  }

  lemma PagesPassed(phys0: Memory, m0: seq<Byte>, own0: seq<nat>, phys1: Memory, m1: seq<Byte>, own1: seq<nat>,
                    phys2: Memory, m2: seq<Byte>, own2: seq<nat>,
                    pd: nat, tmp: nat, lo: nat, pg: nat, k: nat, hi: nat, flags: Word, empty: bool)
    requires PagesDone(phys0, m0, own0, phys1, m1, own1, pd, tmp, lo, pg, hi, flags, empty) && pg + k <= hi
    requires Progress(phys1, m1, phys2, m2, pd, tmp, pg, pg + k, NoGain)
    requires Books(phys1, m1, own1, phys2, m2, own2, pd, pg, pg + k, hi, 0, empty)
    requires empty ==> Fresh(m0, m2, phys2, own2, pd, lo, pg + k, flags)
    ensures PagesDone(phys0, m0, own0, phys2, m2, own2, pd, tmp, lo, pg + k, hi, flags, empty)
  {
    hide Books, Fresh, Progress, RangeMappable, AllEmpty;
    ProgressFacts(phys0, m0, phys1, m1, pd, tmp, lo, pg, NoGain);
    ProgressFacts(phys1, m1, phys2, m2, pd, tmp, pg, pg + k, NoGain);
    ProgressJoins(phys0, m0, phys1, m1, phys2, m2, pd, tmp, lo, pg, pg + k, NoGain);
    PassBooked(0, phys0, m0, own0, phys1, m1, own1, phys2, m2, own2, pd, tmp, lo, pg, k, hi, -1, empty);
  }

  lemma PagesFailed(phys0: Memory, m0: seq<Byte>, own0: seq<nat>, phys1: Memory, m1: seq<Byte>, own1: seq<nat>,
                    phys2: Memory, m2: seq<Byte>, own2: seq<nat>,
                    pd: nat, tmp: nat, lo: nat, pg: nat, k: nat, hi: nat, leak: int, flags: Word, empty: bool)
    requires PagesDone(phys0, m0, own0, phys1, m1, own1, pd, tmp, lo, pg, hi, flags, empty) && pg + k <= hi
    requires WellFormed(phys1, pd, tmp) && WellFormed(phys2, pd, tmp) && -1 <= leak < TABLE_LEN
    requires Aborted(phys1, phys2, pd, tmp, pg, pg + k, leak)
    requires Books(phys1, m1, own1, phys2, m2, own2, pd, pg, pg + k, hi, LeftMapped(phys2, pd, pg + k, leak), empty)
    ensures WellFormed(phys0, pd, tmp) && Aborted(phys0, phys2, pd, tmp, lo, pg + k, leak)
    ensures Books(phys0, m0, own0, phys2, m2, own2, pd, lo, pg + k, hi, LeftMapped(phys2, pd, pg + k, leak), empty)
  {
    hide Books, Fresh, Progress, RangeMappable, AllEmpty, Aborted, LeftMapped;
    ProgressFacts(phys0, m0, phys1, m1, pd, tmp, lo, pg, NoGain);
    RangeFailed(phys0, m0, phys1, m1, phys2, pd, tmp, lo, pg, pg + k, leak, NoGain);
    PassBooked(-1, phys0, m0, own0, phys1, m1, own1, phys2, m2, own2, pd, tmp, lo, pg, k, hi, leak, empty);
  }

  lemma PagesEnd(phys0: Memory, m0: seq<Byte>, own0: seq<nat>, phys: Memory, m: seq<Byte>, own: seq<nat>,
                 pd: nat, tmp: nat, lo: nat, hi: nat, flags: Word, empty: bool)
    requires PagesDone(phys0, m0, own0, phys, m, own, pd, tmp, lo, hi, hi, flags, empty)
    ensures WellFormed(phys, pd, tmp) && IsTable(phys, pd) && Progress(phys0, m0, phys, m, pd, tmp, lo, hi, NoGain)
    ensures empty ==> Fresh(m0, m, phys, own, pd, lo, hi, flags)
    ensures Books(phys0, m0, own0, phys, m, own, pd, lo, hi, hi, LeftMapped(phys, pd, hi, -1), empty)
  {
  }

  /** The books of the range after one more pass, whether it failed or not. */
  lemma PassBooked(res: int, phys0: Memory, m0: seq<Byte>, own0: seq<nat>, phys1: Memory, m1: seq<Byte>, own1: seq<nat>,
                   phys2: Memory, m2: seq<Byte>, own2: seq<nat>,
                   pd: nat, tmp: nat, lo: nat, pg: nat, k: nat, hi: nat, leak: int, empty: bool)
    requires WellFormed(phys1, pd, tmp) && WellFormed(phys2, pd, tmp)
    requires lo <= pg && pg + k <= hi <= MAX_FRAMES && AvoidsTemp(lo, hi) && -1 <= leak < TABLE_LEN
    requires if res == 0 then Progress(phys1, m1, phys2, m2, pd, tmp, pg, pg + k, NoGain)
             else Aborted(phys1, phys2, pd, tmp, pg, pg + k, leak)
    requires Books(phys0, m0, own0, phys1, m1, own1, pd, lo, pg, hi, 0, empty)
    requires Books(phys1, m1, own1, phys2, m2, own2, pd, pg, pg + k, hi, LeftMapped(phys2, pd, pg + k, leak), empty)
    ensures Books(phys0, m0, own0, phys2, m2, own2, pd, lo, pg + k, hi, LeftMapped(phys2, pd, pg + k, leak), empty)
  {
    hide Books, OthersKept, TablesKept, LeftMapped;
    BooksJoin(phys0, m0, own0, phys1, m1, own1, phys2, m2, own2, pd, lo, pg, pg + k, hi,
              LeftMapped(phys2, pd, pg + k, leak), empty);
  }

  lemma StartOfRange(phys: Memory, m: seq<Byte>, own: seq<nat>, pd: nat, tmp: nat,
                     pg: nat, count: nat, flags: Word, gain: Gain)
    requires WellFormed(phys, pd, tmp) && |m| == |phys| == |own| && pg + count <= MAX_FRAMES
    requires RangeMappable(phys, m, pd, pg, pg + count, gain)
    ensures Progress(phys, m, phys, m, pd, tmp, pg, pg, gain)
    ensures Fresh(m, m, phys, own, pd, pg, pg, flags)
    ensures count > 0 ==> Mappable(phys, m, pd, pg / TABLE_LEN)
  {
    NoProgress(phys, m, pd, tmp, pg, gain);
  }

  lemma RestEmpty(phys0: Memory, m0: seq<Byte>, phys: Memory, m: seq<Byte>,
                  pd: nat, tmp: nat, lo: nat, mid: nat, hi: nat, gain: Gain)
    requires Progress(phys0, m0, phys, m, pd, tmp, lo, mid, gain) && lo <= mid <= hi <= MAX_FRAMES
    ensures AllEmpty(phys0, pd, lo, hi) ==> AllEmpty(phys, pd, mid, hi)
  {
    if AllEmpty(phys0, pd, lo, hi) {
      forall pg | mid <= pg < hi ensures Look(phys, pd, pg) == 0 {
        assert Look(phys0, pd, pg) == 0;
      }
    }
  }

  lemma RangeFailed(phys0: Memory, m0: seq<Byte>, phys1: Memory, m1: seq<Byte>, phys2: Memory,
                    pd: nat, tmp: nat, lo: nat, mid: nat, at: nat, leak: int, gain: Gain)
    requires Progress(phys0, m0, phys1, m1, pd, tmp, lo, mid, gain) && lo <= mid <= at
    requires WellFormed(phys2, pd, tmp) && Aborted(phys1, phys2, pd, tmp, mid, at, leak)
    ensures Aborted(phys0, phys2, pd, tmp, lo, at, leak)
  {
    hide OthersKept;
    OthersKeptJoins(phys0, phys1, phys2, pd, tmp);
    forall p: nat | p < MAX_FRAMES && !(lo <= p < at) && !(leak >= 0 && p == TMP_PAGE + leak)
      ensures Entry(phys2, pd, p) == Entry(phys0, pd, p)
    {
      assert Entry(phys2, pd, p) == Entry(phys1, pd, p);
    }
  }

  lemma ProgressIsLocal(phys0: Memory, m0: seq<Byte>, phys: Memory, m: seq<Byte>,
                        pd: nat, tmp: nat, lo: nat, hi: nat, gain: Gain)
    requires Progress(phys0, m0, phys, m, pd, tmp, lo, hi, gain)
    ensures Tree(phys0, pd) && Tree(phys, pd) && SameOutside(phys0, phys, pd, lo, hi)
    ensures OthersKept(phys0, phys, pd, tmp)
  {
  }

  /** Fresh pages have used up as many of the frames that were left. */
  lemma {:induction false} FreshNeedsSpare(m0: seq<Byte>, phys0: Memory, own0: seq<nat>, sh: Shares,
                                           m: seq<Byte>, phys: Memory, own: seq<nat>,
                                           pd: nat, lo: nat, hi: nat, flags: Word)
    requires Accounted(m0, phys0, own0, sh) && Accounted(m, phys, own, sh)
    requires Fresh(m0, m, phys, own, pd, lo, hi, flags) && lo <= hi
    ensures Spare(m0) >= hi - lo
  {
    var used := UsedFrames(m0, phys0, own0, sh, m, phys, own, pd, lo, hi, flags);
    SubsetSize(used, Allocables(m0));
  }

  lemma FreshLast(m0: seq<Byte>, m: seq<Byte>, phys: Memory, own: seq<nat>, pd: nat, lo: nat, hi: nat, flags: Word)
    requires Fresh(m0, m, phys, own, pd, lo, hi, flags)
    ensures Tree(phys, pd) && hi <= MAX_FRAMES
    ensures lo < hi ==>
      Fresh(m0, m, phys, own, pd, lo, hi - 1, flags) && Look(phys, pd, hi - 1) in Allocables(m0)
  {
    if lo < hi {
      assert FreshPage(m0, m, phys, own, pd, hi - 1, flags);
    }
  }

  lemma {:induction false} UsedFrames(m0: seq<Byte>, phys0: Memory, own0: seq<nat>, sh: Shares,
                                      m: seq<Byte>, phys: Memory, own: seq<nat>,
                                      pd: nat, lo: nat, hi: nat, flags: Word) returns (used: set<nat>)
    requires Accounted(m0, phys0, own0, sh) && Accounted(m, phys, own, sh)
    requires Fresh(m0, m, phys, own, pd, lo, hi, flags) && lo <= hi
    ensures |used| == hi - lo && used <= Allocables(m0)
    ensures forall f :: f in used ==> exists pg :: lo <= pg < hi && f == Look(phys, pd, pg)
    decreases hi
  {
    hide Accounted, Fresh, Look;
    FreshLast(m0, m, phys, own, pd, lo, hi, flags);
    if lo == hi {
      return {};
    }
    var rest := UsedFrames(m0, phys0, own0, sh, m, phys, own, pd, lo, hi - 1, flags);
    var f := Look(phys, pd, hi - 1);
    forall g | g in rest ensures g != f {
      var pg :| lo <= pg < hi - 1 && g == Look(phys, pd, pg);
      FreshPagesAreDistinct(m0, phys0, own0, sh, m, phys, own, pd, lo, hi, flags, hi - 1, pg);
    }
    used := rest + {f};
  }

  // ---- what freshness means ---------------------------------------------------------------

  /** A fresh page's frame is named by no other entry of any structure of any
      address space; in particular fresh pages have pairwise distinct frames. */
  lemma FreshIsIsolated(m0: seq<Byte>, phys0: Memory, own0: seq<nat>, sh: Shares,
                        m: seq<Byte>, phys: Memory, own: seq<nat>, pd: nat, pg: nat, flags: Word, k: nat, i: nat)
    requires Accounted(m0, phys0, own0, sh) && Accounted(m, phys, own, sh)
    requires Tree(phys, pd) && pg < MAX_FRAMES && |m0| == |m|
    requires FreshPage(m0, m, phys, own, pd, pg, flags)
    requires k < |phys| && i < |phys[k]| && FrameOf(phys[k][i]) == Look(phys, pd, pg)
    ensures k == Child(phys, pd, pg / TABLE_LEN) && i == pg % TABLE_LEN
  {
    var c := Child(phys, pd, pg / TABLE_LEN);
    AllocableIsUnused(m0, phys0, own0, sh, Look(phys, pd, pg));
    assert Refs(phys, Look(phys, pd, pg)) == 1;
    SoleEntry(phys, Look(phys, pd, pg), c, pg % TABLE_LEN, k, i);
  }

  lemma FreshPagesAreDistinct(m0: seq<Byte>, phys0: Memory, own0: seq<nat>, sh: Shares,
                              m: seq<Byte>, phys: Memory, own: seq<nat>,
                              pd: nat, lo: nat, hi: nat, flags: Word, p: nat, q: nat)
    requires Accounted(m0, phys0, own0, sh) && Accounted(m, phys, own, sh)
    requires Fresh(m0, m, phys, own, pd, lo, hi, flags)
    requires lo <= p < hi && q < MAX_FRAMES && p != q
    ensures Look(phys, pd, p) != Look(phys, pd, q)
  {
    if Look(phys, pd, p) == Look(phys, pd, q) {
      assert FreshPage(m0, m, phys, own, pd, p, flags);
      var c := Child(phys, pd, q / TABLE_LEN);
      assert c != 0;
      FreshIsIsolated(m0, phys0, own0, sh, m, phys, own, pd, p, flags, c, q % TABLE_LEN);
    }
  }
}
