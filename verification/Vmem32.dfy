/**
 vmem_32.c: page-range operations on one address space, given by the frame `pd`
 of its page directory. Page tables are reached only through temporary mappings.

 Page 0 stands for the NULL pointer, as `page_address(0)` does.
 */
module Vmem32 {
  import opened Binary
  import opened Words
  import opened FrameMap
  import opened Accounting
  import opened FlatMap
  import opened Reports
  import opened Paging

  const TEMP_FLAGS: Word := PTE_FLAG_PRESENT + PTE_FLAG_WRITEABLE

  /** What is mapped temporarily is present and writeable, not for user mode. */
  lemma TempIsWriteable(f: Word)
    ensures Bit(PteCreate(f, TEMP_FLAGS), 0) == 1 && Bit(PteCreate(f, TEMP_FLAGS), 1) == 1
    ensures Bit(PteCreate(f, TEMP_FLAGS), 2) == 0
  {
    PteBits(f, TEMP_FLAGS, 0);
    PteBits(f, TEMP_FLAGS, 1);
    PteBits(f, TEMP_FLAGS, 2);
    assert Bit(3, 1) == Bit(1, 0) && Bit(3, 2) == Bit(1, 1) == Bit(0, 0);
  }

  // ---- temporary mappings -----------------------------------------------------------

  ghost predicate HasFree(t: seq<Word>) {
    exists i :: 0 <= i < |t| && FrameOf(t[i]) == 0
  }

  ghost predicate FirstFree(t: seq<Word>, j: int) {
    && 0 <= j < |t| && FrameOf(t[j]) == 0
    && (forall i :: 0 <= i < j ==> FrameOf(t[i]) != 0)
  }

  /** The search for an empty temporary page; TABLE_LEN when there is none. */
  method FindFreeTemp(t: seq<Word>) returns (pte: nat)
    requires |t| == TABLE_LEN
    ensures if pte == TABLE_LEN then !HasFree(t) else FirstFree(t, pte)
  {
    pte := 0;
    while pte < TABLE_LEN && FrameOf(t[pte]) != 0
      invariant 0 <= pte <= TABLE_LEN
      invariant forall i :: 0 <= i < pte ==> FrameOf(t[i]) != 0
    {
      pte := pte + 1;
    }
  }

  /** `install_temp_page_frame`. It ignores a failing reference, so the books
      balance afterwards exactly when the frame could be referenced. */
  method InstallTempPageFrame(mem: PagedMemory, pfindex: Word) returns (pgindex: int)
    requires mem.Valid() && IsTable(mem.phys, mem.tmp)
    requires 1 <= pfindex < |mem.phys|
    modifies mem`phys, mem.pmem.memmap
    ensures pgindex == -EBUSY <==> !HasFree(old(mem.phys)[mem.tmp])
    ensures pgindex == -EBUSY ==> mem.phys == old(mem.phys) && mem.Map() == old(mem.Map())
    ensures pgindex != -EBUSY ==>
      && FirstFree(old(mem.phys)[mem.tmp], pgindex - TMP_PAGE)
      && mem.phys == Stored(old(mem.phys), mem.tmp, pgindex - TMP_PAGE, PteCreate(pfindex, TEMP_FLAGS))
      && (mem.Valid() <==> RefableFrame(old(mem.Map()), pfindex))
      && |mem.Map()| == |old(mem.Map())| && mem.Map()[0] == old(mem.Map())[0]
      && (mem.Valid() ==> RefMoved(old(mem.Map()), mem.Map(), pfindex, 0))
  {
    hide Accounted;
    ghost var m, phys := mem.pmem.memmap[..], mem.phys;
    AccountedSizes(m, phys, mem.owners, mem.shares);
    var pte := FindFreeTemp(mem.phys[mem.tmp]);
    if pte == TABLE_LEN {
      return -EBUSY;
    }
    var res := mem.pmem.RefFrames(pfindex, 1);
    var e := PteCreate(pfindex, TEMP_FLAGS);
    EntryRoundTrip(pfindex, TEMP_FLAGS);
    mem.phys := Stored(mem.phys, mem.tmp, pte, e);
    if res == 0 {
      assert CanUnref(m[pfindex]) && CanRef(m[pfindex]);
      RefThenUnref(m, pfindex, 0);
      MoveKeepsAccount(m, mem.pmem.memmap[..], phys, mem.owners, mem.shares, mem.tmp, pte, e);
    } else {
      assert mem.pmem.memmap[..] == m;
      UncountedStoreBreaksAccount(m, phys, mem.owners, mem.shares, mem.tmp, pte, e);
    }
    return TMP_PAGE + pte;
  }

  /** `uninstall_temp_page` */
  method UninstallTempPage(mem: PagedMemory, pgindex: nat) returns (res: int)
    requires mem.Valid() && IsTable(mem.phys, mem.tmp)
    modifies mem`phys, mem.pmem.memmap
    ensures mem.Valid()
    ensures res == if TMP_PAGE <= pgindex < TMP_PAGE + TABLE_LEN then 0 else -EINVAL
    ensures res != 0 ==> mem.phys == old(mem.phys) && mem.Map() == old(mem.Map())
    ensures res == 0 ==>
      && mem.phys == Stored(old(mem.phys), mem.tmp, pgindex - TMP_PAGE, 0)
      && RefMoved(old(mem.Map()), mem.Map(), 0, FrameOf(old(mem.phys)[mem.tmp][pgindex - TMP_PAGE]))
      && mem.Map()[0] == old(mem.Map())[0]
  {
    if !(TMP_PAGE <= pgindex < TMP_PAGE + TABLE_LEN) {
      return -EINVAL;
    }
    mem.UnmapPageFrame(mem.tmp, pgindex - TMP_PAGE);
    return 0;
  }

  /** Taking and dropping one reference on the same frame restores the map. */
  lemma MovedBack(m: seq<Byte>, m1: seq<Byte>, m2: seq<Byte>, c: nat)
    requires RefMoved(m, m1, c, 0) && RefMoved(m1, m2, 0, c)
    requires |m| > 0 && m2[0] == m1[0] == m[0]
    ensures m2 == m
  {
    forall f | 0 <= f < |m| ensures m2[f] == m[f] {
      if f > 0 {
        assert GetRef(m2[f]) == GetRef(m1[f]) - One(f == c);
      }
    }
  }

  // ---- page tables --------------------------------------------------------------------

  /** Memory after the page table of slot s has been mapped at temporary page
      TMP_PAGE + j, having been created first if the slot was empty. */
  ghost predicate TableReached(phys0: Memory, phys1: Memory, pd: nat, tmp: nat, s: nat, j: nat) {
    && WellFormed(phys0, pd, tmp) && WellFormed(phys1, pd, tmp)
    && |phys0| == |phys1| && s < TABLE_LEN && j < TABLE_LEN
    && var c := Child(phys1, pd, s);
    && 0 < c < |phys1|
    && FirstFree(phys0[tmp], j)
    && phys1[tmp] == phys0[tmp][j := PteCreate(c, TEMP_FLAGS)]
    && (forall t :: 0 <= t < TABLE_LEN && t != s ==> phys1[pd][t] == phys0[pd][t])
    && (if Child(phys0, pd, s) != 0 then phys1[pd] == phys0[pd]
        else phys0[c] == [] && phys1[pd][s] == PdeCreate(c, TEMP_FLAGS))
    && SameOutside(phys0, phys1, pd, TMP_PAGE + j, TMP_PAGE + j + 1)
    && (Child(phys0, pd, TMP_SLOT) != tmp ==> SameOutside(phys0, phys1, pd, 0, 0))
    && (forall f :: 0 <= f < |phys0| && f != c ==> (phys1[f] == [] <==> phys0[f] == []))
    && OthersKept(phys0, phys1, pd, tmp)
  }

  /** The frame map and owners on the same occasion; c is the table's frame. */
  ghost predicate TableCounted(phys0: Memory, m0: seq<Byte>, own0: seq<nat>,
                               m1: seq<Byte>, own1: seq<nat>, c: nat)
  {
    && |phys0| == |m0| == |m1| == |own0| == |own1| && 0 < c < |m0| && own1[0] == own0[0] && m1[0] == m0[0]
    && GetType(m1[c]) == GetType(m0[c])
    && (forall f :: 1 <= f < |m0| && f != c ==>
          && GetRef(m1[f]) == GetRef(m0[f]) && GetType(m1[f]) == GetType(m0[f]) && own1[f] == own0[f])
    && (if phys0[c] != []
        then GetRef(m1[c]) == GetRef(m0[c]) + 1 && own1[c] == own0[c]
        else IsAllocable(m0[c]) && GetRef(m1[c]) == 3 && own1[c] == 1)
  }

  lemma NewTableReached(phys0: Memory, pd: nat, tmp: nat, s: nat, j: nat, f: nat)
    requires WellFormed(phys0, pd, tmp)
    requires s < TABLE_LEN && Child(phys0, pd, s) == 0
    requires FirstFree(phys0[tmp], j)
    requires 0 < f < |phys0| <= MAX_FRAMES && phys0[f] == []
    requires forall t :: 0 <= t < TABLE_LEN ==> Child(phys0, pd, t) != f
    ensures var phys1 := Stored(phys0, tmp, j, PteCreate(f, TEMP_FLAGS))[f := EmptyTable()];
            && IsTable(phys1, pd)
            && TableReached(phys0, Stored(phys1, pd, s, PdeCreate(f, TEMP_FLAGS)), pd, tmp, s, j)
            && IsTable(Stored(phys1, pd, s, PdeCreate(f, TEMP_FLAGS)), pd)
            && Child(Stored(phys1, pd, s, PdeCreate(f, TEMP_FLAGS)), pd, s) == f
  {
    EntryRoundTrip(f, TEMP_FLAGS);
    StoreTemp(phys0, pd, tmp, j, PteCreate(f, TEMP_FLAGS));
    var a := Stored(phys0, tmp, j, PteCreate(f, TEMP_FLAGS));
    InitTable(a, pd, tmp, f);
    var b := a[f := EmptyTable()];
    assert forall t :: 0 <= t < TABLE_LEN ==> Child(b, pd, t) == Child(phys0, pd, t);
    InstallTable(b, pd, tmp, s, PdeCreate(f, TEMP_FLAGS));
    var d := Stored(b, pd, s, PdeCreate(f, TEMP_FLAGS));
    forall k | 0 <= k < |phys0| && phys0[k] != [] && Foreign(phys0, pd, tmp, k)
      ensures d[k] == phys0[k] && Foreign(d, pd, tmp, k)
    {
      assert forall t :: 0 <= t < TABLE_LEN && t != s ==> Child(d, pd, t) == Child(phys0, pd, t);
    }
  }

  lemma OldTableReached(phys0: Memory, pd: nat, tmp: nat, s: nat, j: nat)
    requires WellFormed(phys0, pd, tmp) && |phys0| <= MAX_FRAMES
    requires s < TABLE_LEN && Child(phys0, pd, s) != 0
    requires FirstFree(phys0[tmp], j)
    ensures TableReached(phys0, Stored(phys0, tmp, j, PteCreate(Child(phys0, pd, s), TEMP_FLAGS)), pd, tmp, s, j)
  {
    var c := Child(phys0, pd, s);
    EntryRoundTrip(c, TEMP_FLAGS);
    StoreTemp(phys0, pd, tmp, j, PteCreate(c, TEMP_FLAGS));
  }

  /** A page table can be mapped temporarily while its count is not saturated;
      an absent table will be created with a count of its own. */
  ghost predicate Mappable(phys: Memory, m: seq<Byte>, pd: nat, s: nat)
    requires Tree(phys, pd) && s < TABLE_LEN && |m| == |phys|
  {
    Child(phys, pd, s) != 0 ==> GetRef(m[Child(phys, pd, s)]) < MAX_REF
  }

  /** `pmem_alloc_frames(1)`; the caller becomes the frame's first owner. */
  method AllocOneFrame(mem: PagedMemory) returns (f: nat)
    requires mem.Valid()
    modifies mem`owners, mem.pmem.memmap
    ensures mem.Valid()
    ensures f == 0 <==> NoFit(old(mem.Map()), 1)
    ensures f == 0 ==> mem.Map() == old(mem.Map()) && mem.owners == old(mem.owners)
    ensures f != 0 ==>
      && f < |mem.phys| && IsAllocable(old(mem.Map())[f])
      && mem.Map() == RefRange(old(mem.Map()), f, f + 1)
      && mem.owners == old(mem.owners)[f := 1] && old(mem.owners)[f] == 0
      && mem.phys[f] == []
      && (forall k, i :: 0 <= k < |mem.phys| && 0 <= i < |mem.phys[k]| ==> FrameOf(mem.phys[k][i]) != f)
  {
    ghost var m0 := mem.pmem.memmap[..];
    f := mem.pmem.AllocFrames(1);
    if f != 0 {
      assert IsAllocable(m0[f]);
      AllocableIsUnused(m0, mem.phys, mem.owners, mem.shares, f);
      AllocKeepsAccount(m0, mem.phys, mem.owners, mem.shares, f);
      mem.owners := mem.owners[f := 1];
    } else {
      assert NoFit(m0, 1);
    }
  }

  /** Giving an unused frame back with `pmem_unref_frames` undoes the allocation. */
  method FreeOneFrame(mem: PagedMemory, f: nat, ghost m0: seq<Byte>, ghost own0: seq<nat>)
    requires Accounted(m0, mem.phys, own0, mem.shares)
    requires 0 < f < |m0| && IsAllocable(m0[f]) && own0[f] == 0
    requires mem.Map() == RefRange(m0, f, f + 1) && mem.owners == own0[f := 1]
    modifies mem`owners, mem.pmem.memmap
    ensures mem.Map() == m0 && mem.owners == own0
  {
    mem.pmem.UnrefFrames(f, 1);
    RefUnrefRestores(m0, f, 1);
    mem.owners := mem.owners[f := 0];
    assert mem.owners == own0;
  }

  /** A new table is counted three times: by its owner, by the directory and by
      its temporary mapping. */
  lemma NewTableCounted(phys0: Memory, m0: seq<Byte>, own0: seq<nat>,
                        m1: seq<Byte>, m2: seq<Byte>, m3: seq<Byte>, f: nat)
    requires |phys0| == |m0| == |own0| && 0 < f < |m0| && phys0[f] == [] && IsAllocable(m0[f])
    requires m1 == RefRange(m0, f, f + 1) && RefMoved(m1, m2, f, 0) && RefMoved(m2, m3, f, 0)
    requires m3[0] == m2[0] == m1[0]
    ensures TableCounted(phys0, m0, own0, m3, own0[f := 1], f)
  {
  }

  /** `alloc_and_init_page_table`: all or nothing. */
  method AllocAndInitPageTable(mem: PagedMemory, pd: nat, s: nat) returns (pgindex: nat)
    requires mem.Valid() && WellFormed(mem.phys, pd, mem.tmp) && pd in mem.shares.dirs
    requires s < TABLE_LEN && s != TMP_SLOT && Child(mem.phys, pd, s) == 0
    modifies mem`phys, mem`owners, mem.pmem.memmap
    ensures mem.Valid()
    ensures pgindex == 0 ==>
      mem.phys == old(mem.phys) && mem.Map() == old(mem.Map()) && mem.owners == old(mem.owners)
    ensures pgindex == 0 <==> NoFit(old(mem.Map()), 1) || !HasFree(old(mem.phys)[mem.tmp])
    ensures pgindex != 0 ==>
      && pgindex >= TMP_PAGE
      && TableReached(old(mem.phys), mem.phys, pd, mem.tmp, s, pgindex - TMP_PAGE)
      && TableCounted(old(mem.phys), old(mem.Map()), old(mem.owners), mem.Map(), mem.owners,
                      Child(mem.phys, pd, s))
  {
    hide Accounted, TableReached, TableCounted, SameOutside, OthersKept;
    ghost var phys0, m0, own0 := mem.phys, mem.pmem.memmap[..], mem.owners;
    AccountedSizes(m0, phys0, own0, mem.shares);
    var f := AllocOneFrame(mem);
    if f == 0 {
      return 0;
    }
    ghost var m1 := mem.pmem.memmap[..];
    var temp := InstallTempPageFrame(mem, f);
    if temp < 0 {
      FreeOneFrame(mem, f, m0, own0);
      return 0;
    }
    ghost var m2 := mem.pmem.memmap[..];
    InitKeepsAccount(m2, mem.phys, mem.owners, mem.shares, f, false);
    mem.phys := mem.phys[f := EmptyTable()];
    var res := mem.InstallPageTable(pd, f, s, TEMP_FLAGS);
    NewTableReached(phys0, pd, mem.tmp, s, temp - TMP_PAGE, f);
    NewTableCounted(phys0, m0, own0, m1, m2, mem.pmem.memmap[..], f);
    return temp;
  }

  lemma OldTableCounted(phys0: Memory, m0: seq<Byte>, own0: seq<nat>, m1: seq<Byte>, c: nat)
    requires |phys0| == |m0| == |own0| && 0 < c < |m0| && phys0[c] != [] && RefMoved(m0, m1, c, 0)
    requires m1[0] == m0[0]
    ensures TableCounted(phys0, m0, own0, m1, own0, c)
  {
  }

  /** `map_page_table`: the temporary page of the table of slot s, or 0. Absent
      tables are only reached with `initIfNone`. */
  method MapPageTable(mem: PagedMemory, pd: nat, s: nat, initIfNone: bool) returns (pgindex: nat)
    requires mem.Valid() && WellFormed(mem.phys, pd, mem.tmp) && pd in mem.shares.dirs
    requires s < TABLE_LEN && Mappable(mem.phys, mem.Map(), pd, s)
    requires Child(mem.phys, pd, s) == 0 ==> initIfNone && s != TMP_SLOT
    modifies mem`phys, mem`owners, mem.pmem.memmap
    ensures mem.Valid()
    ensures pgindex == 0 ==>
      mem.phys == old(mem.phys) && mem.Map() == old(mem.Map()) && mem.owners == old(mem.owners)
    ensures pgindex != 0 ==>
      && pgindex >= TMP_PAGE
      && TableReached(old(mem.phys), mem.phys, pd, mem.tmp, s, pgindex - TMP_PAGE)
      && TableCounted(old(mem.phys), old(mem.Map()), old(mem.owners), mem.Map(), mem.owners,
                      Child(mem.phys, pd, s))
    ensures old(Child(mem.phys, pd, s)) == 0 ==>
      (pgindex == 0 <==> NoFit(old(mem.Map()), 1) || !HasFree(old(mem.phys)[mem.tmp]))
    ensures old(Child(mem.phys, pd, s)) != 0 ==>
      && (pgindex == 0 <==> !HasFree(old(mem.phys)[mem.tmp]))
      && mem.owners == old(mem.owners)
      && (pgindex != 0 ==>
            && mem.phys == Stored(old(mem.phys), mem.tmp, pgindex - TMP_PAGE,
                                  PteCreate(old(Child(mem.phys, pd, s)), TEMP_FLAGS))
            && RefMoved(old(mem.Map()), mem.Map(), old(Child(mem.phys, pd, s)), 0)
            && mem.Map()[0] == old(mem.Map())[0])
  {
    hide Accounted, TableReached, TableCounted, SameOutside, OthersKept;
    var c := FrameOf(mem.phys[pd][s]);
    if c == 0 && initIfNone {
      pgindex := AllocAndInitPageTable(mem, pd, s);
      return;
    }
    ghost var phys0, m0 := mem.phys, mem.pmem.memmap[..];
    AccountedSizes(m0, phys0, mem.owners, mem.shares);
    AccountedNames(m0, phys0, mem.owners, mem.shares, pd, s);
    var temp := InstallTempPageFrame(mem, c);
    if temp < 0 {
      return 0;
    }
    OldTableReached(phys0, pd, mem.tmp, s, temp - TMP_PAGE);
    OldTableCounted(phys0, m0, mem.owners, mem.pmem.memmap[..], c);
    return temp;
  }

  /** The frame behind a temporary page: what a `struct page_table*` points to. */
  function TempFrame(phys: Memory, tmp: nat, pgindex: nat): (f: nat)
    requires IsTable(phys, tmp) && TMP_PAGE <= pgindex < TMP_PAGE + TABLE_LEN
  {
    FrameOf(phys[tmp][pgindex - TMP_PAGE])
  }

  /** Unmapping an installed table that was mapped but not written restores
      memory and frame map exactly. */
  method UnmapUnchanged(mem: PagedMemory, pgindex: nat, ghost phys0: Memory, ghost m0: seq<Byte>, ghost c: nat)
    requires mem.Valid() && IsTable(phys0, mem.tmp) && TMP_PAGE <= pgindex < TMP_PAGE + TABLE_LEN
    requires 0 < c < |phys0| <= MAX_FRAMES && phys0[mem.tmp][pgindex - TMP_PAGE] == 0
    requires mem.phys == Stored(phys0, mem.tmp, pgindex - TMP_PAGE, PteCreate(c, TEMP_FLAGS))
    requires RefMoved(m0, mem.Map(), c, 0) && |m0| == |phys0| && mem.Map()[0] == m0[0]
    modifies mem`phys, mem.pmem.memmap
    ensures mem.Valid() && mem.phys == phys0 && mem.Map() == m0
  {
    hide Accounted;
    EntryRoundTrip(c, TEMP_FLAGS);
    ghost var m1 := mem.pmem.memmap[..];
    var _ := UninstallTempPage(mem, pgindex);
    MovedBack(m0, m1, mem.pmem.memmap[..], c);
    assert mem.phys[mem.tmp] == phys0[mem.tmp];
    assert mem.phys == phys0;
  }

  // ---- vmem_32_check_empty_pages --------------------------------------------------------

  /** Every table the walk visits exists, can be mapped and is not the temporary
      page table itself, which changes while it is being looked at. */
  ghost predicate Reachable(phys: Memory, m: seq<Byte>, pd: nat, s: nat, n: nat)
    requires Tree(phys, pd) && |m| == |phys|
  {
    && Installed(phys, pd, s, n)
    && (forall t :: s <= t < s + n ==> Mappable(phys, m, pd, t) && t != TMP_SLOT)
  }

  lemma ReachableAt(phys: Memory, m: seq<Byte>, pd: nat, s: nat, n: nat, t: nat)
    requires Tree(phys, pd) && |m| == |phys|
    requires Reachable(phys, m, pd, s, n) && s <= t < s + n
    ensures Reachable(phys, m, pd, t, 1)
  {
    assert Mappable(phys, m, pd, t);
  }

  function Min(a: nat, b: nat): (r: nat) {
    if a < b then a else b
  }

  /** What the walk reports when no temporary page is free: every table is taken
      to be empty, and the position never advances. */
  function BlindScan(ptcount: nat, pg: nat, count: nat): (n: nat) {
    if ptcount == 0 then 0 else Min(count, TABLE_LEN - pg % TABLE_LEN) + BlindScan(ptcount - 1, pg, count)
  }

  lemma {:induction false} BlindScanIs(ptcount: nat, pg: nat, count: nat)
    ensures BlindScan(ptcount, pg, count) == ptcount * Min(count, TABLE_LEN - pg % TABLE_LEN)
  {
    if ptcount > 0 {
      BlindScanIs(ptcount - 1, pg, count);
      var r := Min(count, TABLE_LEN - pg % TABLE_LEN);
      assert r + (ptcount - 1) * r == ptcount * r;
    }
  }

  /** The blind walk calls a range empty if it stays in one table, or if its length
      happens to be the rest of its first table times the number of tables. */
  predicate BlindFull(pg: nat, count: nat) {
    var rest := TABLE_LEN - pg % TABLE_LEN;
    count <= rest || count == TableCount(PageAddress(pg), PageMemory(count)) * rest
  }

  /** This is exactly when it reports the full count, whatever the pages hold. */
  lemma BlindReport(pg: nat, count: nat)
    requires pg + count <= MAX_FRAMES && count < MAX_FRAMES
    ensures TableCount(PageAddress(pg), PageMemory(count)) * Min(count, TABLE_LEN - pg % TABLE_LEN) == count
       <==> BlindFull(pg, count)
  {
    TableWalk(pg, count);
    var k, rest := TableCount(PageAddress(pg), PageMemory(count)), TABLE_LEN - pg % TABLE_LEN;
    if 0 < count <= rest {
      assert k == 1;
    }
  }

  /** The inner loop over the entries of a mapped table. */
  method CountEmptyEntries(t: seq<Word>, from: nat, pgcount: nat) returns (n: nat)
    requires |t| == TABLE_LEN && from <= TABLE_LEN
    ensures n == EmptyRun(t, from, pgcount)
  {
    var i, left := from, pgcount;
    n := 0;
    while left > 0 && i < TABLE_LEN && FrameOf(t[i]) == 0
      invariant i == from + n && left == pgcount - n && 0 <= left && i <= TABLE_LEN
      invariant EmptyRun(t, from, pgcount) == n + EmptyRun(t, i, left)
    {
      left, i, n := left - 1, i + 1, n + 1;
    }
  }

  /** One table of the walk; the second result is false when it could not be mapped. */
  method CountEmptyInTable(mem: PagedMemory, pd: nat, s: nat, pgindex: nat, pgcount: nat)
    returns (n: nat, mapped: bool)
    requires mem.Valid() && WellFormed(mem.phys, pd, mem.tmp) && pd in mem.shares.dirs
    requires Reachable(mem.phys, mem.Map(), pd, s, 1)
    modifies mem`phys, mem`owners, mem.pmem.memmap
    ensures mem.Valid()
    ensures mem.phys == old(mem.phys) && mem.Map() == old(mem.Map()) && mem.owners == old(mem.owners)
    ensures mapped <==> HasFree(mem.phys[mem.tmp])
    ensures mapped ==> n == EmptyRun(mem.phys[Child(mem.phys, pd, s)], pgindex % TABLE_LEN, pgcount)
  {
    hide Accounted;
    ghost var phys0, m0 := mem.phys, mem.pmem.memmap[..];
    AccountedSizes(m0, phys0, mem.owners, mem.shares);
    ghost var c := Child(mem.phys, pd, s);
    var pt := MapPageTable(mem, pd, s, false);
    if pt == 0 {
      return 0, false;
    }
    EntryRoundTrip(c, TEMP_FLAGS);
    var t := mem.phys[TempFrame(mem.phys, mem.tmp, pt)];
    assert t == phys0[c];
    n := CountEmptyEntries(t, pgindex % TABLE_LEN, pgcount);
    UnmapUnchanged(mem, pt, phys0, m0, c);
    mapped := true;
  }

  /** The outer loop over the page tables of the range. */
  method WalkTables(mem: PagedMemory, pd: nat, ptindex: nat, ptcount: nat, pgindex: nat, pgcount: nat)
    returns (nempty: nat)
    requires mem.Valid() && WellFormed(mem.phys, pd, mem.tmp) && pd in mem.shares.dirs
    requires Reachable(mem.phys, mem.Map(), pd, ptindex, ptcount)
    modifies mem`phys, mem`owners, mem.pmem.memmap
    ensures mem.Valid()
    ensures mem.phys == old(mem.phys) && mem.Map() == old(mem.Map()) && mem.owners == old(mem.owners)
    ensures nempty == if HasFree(mem.phys[mem.tmp])
                      then Scan(mem.phys, pd, ptindex, ptcount, pgindex, pgcount)
                      else BlindScan(ptcount, pgindex, pgcount)
  {
    hide Accounted, WellFormed, HasFree, FrameOf, GetRef, EmptyRun, Mappable;
    ghost var phys0, m0, own0 := mem.phys, mem.pmem.memmap[..], mem.owners;
    AccountedSizes(m0, phys0, own0, mem.shares);
    WellFormedTree(phys0, pd, mem.tmp);
    ghost var free := HasFree(mem.phys[mem.tmp]);
    var done, pg, left := 0, pgindex, pgcount;
    nempty := 0;
    while done < ptcount
      invariant 0 <= done <= ptcount && 0 <= left <= pgcount && 0 <= pg
      invariant mem.Valid() && mem.phys == phys0 && mem.Map() == m0 && mem.owners == own0
      invariant free ==>
        Scan(phys0, pd, ptindex, ptcount, pgindex, pgcount)
          == nempty + Scan(phys0, pd, ptindex + done, ptcount - done, pg, left)
      invariant !free ==> pg == pgindex && left == pgcount
      invariant !free ==>
        BlindScan(ptcount, pgindex, pgcount) == nempty + BlindScan(ptcount - done, pgindex, pgcount)
    {
      ReachableAt(phys0, m0, pd, ptindex, ptcount, ptindex + done);
      var n, mapped := CountEmptyInTable(mem, pd, ptindex + done, pg, left);
      if !mapped {
        nempty := nempty + Min(left, TABLE_LEN - pg % TABLE_LEN);
      } else {
        left, pg, nempty := left - n, pg + n, nempty + n;
      }
      done := done + 1;
    }
  }

  /** `vmem_32_check_empty_pages`. The walk leaves no trace; with a free temporary
      page it reports the full count exactly when every page is empty. Without one
      the report depends on the range alone. */
  method CheckEmptyPages(mem: PagedMemory, pd: nat, pgindex: nat, pgcount: nat) returns (nempty: nat)
    requires mem.Valid() && WellFormed(mem.phys, pd, mem.tmp) && pd in mem.shares.dirs
    requires pgindex + pgcount <= MAX_FRAMES
    requires Reachable(mem.phys, mem.Map(), pd, pgindex / TABLE_LEN,
                       TableCount(PageAddress(pgindex), PageMemory(pgcount)))
    modifies mem`phys, mem`owners, mem.pmem.memmap
    ensures mem.Valid()
    ensures mem.phys == old(mem.phys) && mem.Map() == old(mem.Map()) && mem.owners == old(mem.owners)
    ensures pgcount == MAX_FRAMES ==> nempty == 0
    ensures HasFree(mem.phys[mem.tmp]) && pgcount < MAX_FRAMES ==>
      && (nempty == pgcount <==> AllEmpty(mem.phys, pd, pgindex, pgindex + pgcount)) && nempty <= pgcount
      && nempty == Scan(mem.phys, pd, pgindex / TABLE_LEN, TableCount(PageAddress(pgindex), PageMemory(pgcount)),
                        pgindex, pgcount)
    ensures HasFree(mem.phys[mem.tmp]) && pgcount < MAX_FRAMES && pgindex < MAX_FRAMES ==>
      ReportIs(mem.phys, pd, pgindex, pgcount, nempty)
    ensures !HasFree(mem.phys[mem.tmp]) ==>
      nempty == TableCount(PageAddress(pgindex), PageMemory(pgcount)) * Min(pgcount, TABLE_LEN - pgindex % TABLE_LEN)
    ensures !HasFree(mem.phys[mem.tmp]) && pgcount < MAX_FRAMES ==> (nempty == pgcount <==> BlindFull(pgindex, pgcount))
  {
    hide Accounted, ReportIs;
    TableWalk(pgindex, pgcount);
    ScanIsExact(mem.phys, pd, pgindex, pgcount);
    if pgcount < MAX_FRAMES && pgindex < MAX_FRAMES {
      ScanIsReport(mem.phys, pd, pgindex, pgcount);
    }
    var ptindex := TableIndex(PageAddress(pgindex));
    var ptcount := TableCount(PageAddress(pgindex), PageMemory(pgcount));
    BlindScanIs(ptcount, pgindex, pgcount);
    if pgcount < MAX_FRAMES {
      BlindReport(pgindex, pgcount);
    }
    nempty := WalkTables(mem, pd, ptindex, ptcount, pgindex, pgcount);
  }

  /** `vmem_32_lookup_frame` says what the flat map says, and leaves no trace. */
  method LookupFrame(mem: PagedMemory, pd: nat, pgindex: nat) returns (res: int)
    requires mem.Valid() && WellFormed(mem.phys, pd, mem.tmp) && pd in mem.shares.dirs
    requires pgindex < MAX_FRAMES && Reachable(mem.phys, mem.Map(), pd, pgindex / TABLE_LEN, 1)
    modifies mem`phys, mem`owners, mem.pmem.memmap
    ensures mem.Valid()
    ensures mem.phys == old(mem.phys) && mem.Map() == old(mem.Map()) && mem.owners == old(mem.owners)
    ensures res == if HasFree(mem.phys[mem.tmp]) && Present(Entry(mem.phys, pd, pgindex))
                   then Look(mem.phys, pd, pgindex) else -EFAULT
  {
    hide Accounted;
    ghost var phys0, m0 := mem.phys, mem.pmem.memmap[..];
    AccountedSizes(m0, phys0, mem.owners, mem.shares);
    var ptindex := TableIndex(PageAddress(pgindex));
    assert ptindex == pgindex / TABLE_LEN;
    ghost var c := Child(mem.phys, pd, ptindex);
    var pt := MapPageTable(mem, pd, ptindex, false);
    if pt == 0 {
      return -EFAULT;
    }
    EntryRoundTrip(c, TEMP_FLAGS);
    var e := mem.phys[TempFrame(mem.phys, mem.tmp, pt)][pgindex % TABLE_LEN];
    UnmapUnchanged(mem, pt, phys0, m0, c);
    return if Present(e) then FrameOf(e) else -EFAULT;
  }
}
