/**
 vmem.c: searching a window of an address space for free pages and allocating
 them. The address-space semaphore is held throughout; see LockOrder.
 */
module Vmem {
  import opened Words
  import opened FrameMap
  import opened Accounting
  import opened FlatMap
  import opened Paging
  import opened Vmem32
  import opened Ledger
  import opened PageRanges
  import opened Reports
  import opened WindowSearch

  /** The page tables of the window are installed, as `vmem_init_nopg` does for
      the kernel areas, and none is saturated with references. */
  ghost predicate WindowReady(phys: Memory, m: seq<Byte>, pd: nat, lo: nat, hi: nat)
    requires Tree(phys, pd) && |m| == |phys|
  {
    && hi <= MAX_FRAMES && AvoidsTemp(lo, hi)
    && (forall t :: lo / TABLE_LEN <= t < TABLE_LEN && t * TABLE_LEN < hi ==>
          Child(phys, pd, t) != 0 && GetRef(m[Child(phys, pd, t)]) < MAX_REF)
  }

  lemma SubrangeReady(phys: Memory, m: seq<Byte>, pd: nat, lo: nat, hi: nat, pg: nat, n: nat)
    requires Tree(phys, pd) && |m| == |phys| <= MAX_FRAMES
    requires WindowReady(phys, m, pd, lo, hi) && lo <= pg && pg + n <= hi && n < MAX_FRAMES
    ensures AvoidsTemp(pg, pg + n)
    ensures RangeMappable(phys, m, pd, pg, pg + n, NoGain)
    ensures Reachable(phys, m, pd, pg / TABLE_LEN, TableCount(PageAddress(pg), PageMemory(n)))
  {
    TableWalk(pg, n);
    var s, k := pg / TABLE_LEN, TableCount(PageAddress(pg), PageMemory(n));
    forall t | s <= t < s + k ensures Child(phys, pd, t) != 0 && Mappable(phys, m, pd, t) && t != TMP_SLOT {
      assert t * TABLE_LEN < pg + n;
    }
  }

  lemma ReadyIsInstalled(phys: Memory, m: seq<Byte>, pd: nat, lo: nat, hi: nat, cur: nat)
    requires Tree(phys, pd) && |m| == |phys| && WindowReady(phys, m, pd, lo, hi) && lo <= cur
    ensures WindowInstalled(phys, pd, cur, hi)
  {
  }

  lemma {:induction false} ReadyIsComplete(phys: Memory, m: seq<Byte>, pd: nat, lo: nat, hi: nat, s: nat, end: nat)
    requires Tree(phys, pd) && |m| == |phys| && WindowReady(phys, m, pd, lo, hi)
    requires lo / TABLE_LEN <= s && end <= hi
    ensures Missing(phys, pd, s, end) == 0
    decreases TABLE_LEN - s
  {
    if s < TABLE_LEN && s * TABLE_LEN < end {
      ReadyIsComplete(phys, m, pd, lo, hi, s + 1, end);
    }
  }

  /** `find_empty_pages`. A returned range lies strictly inside the window and is
      wholly unmapped. A window no larger than the request always fails, whatever
      it holds: the comparison of sizes is strict. WindowSearch says when the
      search is first fit, and SearchLimits over which windows. Without a free
      temporary page the first range tried is taken if the check calls it empty,
      whatever it holds. */
  method FindEmptyPages(mem: PagedMemory, pd: nat, npages: nat, beg: nat, end: nat) returns (res: int)
    requires mem.Valid() && WellFormed(mem.phys, pd, mem.tmp) && pd in mem.shares.dirs
    requires WindowReady(mem.phys, mem.Map(), pd, beg, end)
    modifies mem`phys, mem`owners, mem.pmem.memmap
    ensures mem.Valid()
    ensures mem.phys == old(mem.phys) && mem.Map() == old(mem.Map()) && mem.owners == old(mem.owners)
    ensures res == -ENOMEM || (beg <= res && res + npages < end)
    ensures res >= 0 && HasFree(mem.phys[mem.tmp]) ==> AllEmpty(mem.phys, pd, res, res + npages)
    ensures end <= beg + npages ==> res == -ENOMEM
    ensures WindowInstalled(mem.phys, pd, beg, end)
    ensures HasFree(mem.phys[mem.tmp]) ==> res == SearchFrom(mem.phys, pd, npages, beg, end)
    ensures end <= MAX_FRAMES && (HasFree(mem.phys[mem.tmp]) ==>
              exists starts :: Trace(mem.phys, pd, npages, beg, end, starts, res))
    ensures !HasFree(mem.phys[mem.tmp]) && beg + npages < end && BlindFull(beg, npages) ==> res == beg
  {
    hide Accounted, WellFormed, WindowReady, Reachable, RangeMappable, WindowInstalled, HasFree;
    hide SearchFrom, Query, Scan, TableCount, PageAddress, PageMemory, Tree, AllEmpty, BlindFull, Trace, ReportIs;
    ghost var phys0, m0, own0 := mem.phys, mem.pmem.memmap[..], mem.owners;
    AccountedSizes(m0, phys0, own0, mem.shares);
    WellFormedTree(phys0, pd, mem.tmp);
    WindowSize(phys0, m0, pd, beg, end);
    ReadyIsInstalled(phys0, m0, pd, beg, end, beg);
    var cur := beg;
    while cur < end && npages < end - cur
      invariant beg <= cur
      invariant mem.Valid() && mem.phys == phys0 && mem.Map() == m0 && mem.owners == own0
      invariant WindowInstalled(phys0, pd, cur, end)
      invariant HasFree(phys0[mem.tmp]) ==>
        SearchFrom(phys0, pd, npages, beg, end) == SearchFrom(phys0, pd, npages, cur, end)
      invariant !HasFree(phys0[mem.tmp]) && beg + npages < end && BlindFull(beg, npages) ==> cur == beg
      decreases end - cur
    {
      SubrangeReady(phys0, m0, pd, beg, end, cur, npages);
      QueryIsScan(phys0, pd, npages, cur, end);
      SearchEnds(phys0, pd, npages, cur, end);
      var nempty := CheckEmptyPages(mem, pd, cur, npages);
      if nempty == npages {
        res := cur;
        ghost var starts := SearchHasTrace(phys0, pd, npages, beg, end);
        return;
      }
      ReadyIsInstalled(phys0, m0, pd, beg, end, cur + nempty + 1);
      if HasFree(phys0[mem.tmp]) {
        SearchStep(phys0, pd, npages, cur, end);
      }
      cur := cur + nempty + 1;
    }
    SearchEnds(phys0, pd, npages, cur, end);
    res := -ENOMEM;
    ghost var starts := SearchHasTrace(phys0, pd, npages, beg, end);
  }

  lemma WindowSize(phys: Memory, m: seq<Byte>, pd: nat, lo: nat, hi: nat)
    requires Tree(phys, pd) && |m| == |phys| && WindowReady(phys, m, pd, lo, hi)
    ensures hi <= MAX_FRAMES
  {
  }

  /** `vmem_alloc_pages_within`: fresh, isolated allocation. On success the range
      lies inside the window, was wholly unmapped, every page of it has a frame of
      its own that was allocable before the call, and every other page of the
      address space translates as before; no other frame changes in count, type or
      owners. While a temporary page is free it fails
      only if the search does or too few frames are left; what it then leaves behind
      is what Aborted says of the range found. The books balance in every case. */
  method AllocPagesWithin(mem: PagedMemory, pd: nat, min: nat, max: nat, npages: nat, flags: Word)
    returns (res: int, ghost at: int, ghost done: nat, ghost leak: int)
    requires mem.Valid() && WellFormed(mem.phys, pd, mem.tmp) && pd in mem.shares.dirs
    requires WindowReady(mem.phys, mem.Map(), pd, min, max)
    modifies mem`phys, mem`owners, mem.pmem.memmap
    ensures mem.Valid() && WellFormed(mem.phys, pd, mem.tmp)
    ensures res < 0 ==> res in {-ENOMEM, -EFAULT}
    ensures res < 0 ==>
      if at < 0 then mem.phys == old(mem.phys) && mem.Map() == old(mem.Map()) && mem.owners == old(mem.owners)
      else
        && min <= at && done < npages && at + npages < max
        && Aborted(old(mem.phys), mem.phys, pd, mem.tmp, at, at + done, leak)
        && (old(HasFree(mem.phys[mem.tmp])) ==>
              && Fresh(old(mem.Map()), mem.Map(), mem.phys, mem.owners, pd, at, at + done, flags)
              && Spent(old(mem.Map()), old(mem.owners), mem.Map(), mem.owners,
                       PageFrames(mem.phys, pd, at, at + done), LeftMapped(mem.phys, pd, at + done, leak)))
    ensures !old(HasFree(mem.phys[mem.tmp])) ==>
      mem.phys == old(mem.phys) && mem.Map() == old(mem.Map()) && mem.owners == old(mem.owners)
    ensures WindowInstalled(old(mem.phys), pd, min, max)
    ensures old(HasFree(mem.phys[mem.tmp])) ==>
      var found := SearchFrom(old(mem.phys), pd, npages, min, max);
      if found < 0 || Spare(old(mem.Map())) >= npages then res == found else res < 0
    ensures !old(HasFree(mem.phys[mem.tmp])) && npages > 0 ==> res < 0
    ensures res >= 0 ==>
      && min <= res && res + npages < max
      && old(AllEmpty(mem.phys, pd, res, res + npages))
      && Fresh(old(mem.Map()), mem.Map(), mem.phys, mem.owners, pd, res, res + npages, flags)
      && Spent(old(mem.Map()), old(mem.owners), mem.Map(), mem.owners, PageFrames(mem.phys, pd, res, res + npages), 0)
      && SameOutside(old(mem.phys), mem.phys, pd, res, res + npages)
      && OthersKept(old(mem.phys), mem.phys, pd, mem.tmp)
  {
    hide Accounted, WindowReady, RangeMappable, Fresh, SameOutside, OthersKept, Aborted, Progress, Books, Spent;
    hide WindowInstalled, HasFree, SearchFrom, Spare, Missing, AllEmpty, WellFormed;
    WellFormedTree(mem.phys, pd, mem.tmp);
    ghost var phys0, m0, own0 := mem.phys, mem.pmem.memmap[..], mem.owners;
    AccountedSizes(m0, phys0, own0, mem.shares);
    WindowSize(phys0, m0, pd, min, max);
    res := FindEmptyPages(mem, pd, npages, min, max);
    if res < 0 {
      at, done, leak := -1, 0, -1;
      return;
    }
    var pgindex := res;
    SubrangeReady(phys0, m0, pd, min, max, pgindex, npages);
    ReadyIsComplete(phys0, m0, pd, min, max, pgindex / TABLE_LEN, pgindex + npages);
    at := pgindex;
    NoPagesAreEmpty(phys0, pd, pgindex);
    res, done, leak := AllocPages(mem, pd, pgindex, npages, flags);
    WellFormedTree(mem.phys, pd, mem.tmp);
    WindowBooks(phys0, m0, own0, mem.phys, mem.pmem.memmap[..], mem.owners, pd, min, max, pgindex, pgindex + done,
                pgindex + npages, LeftMapped(mem.phys, pd, pgindex + done, leak),
                AllEmpty(phys0, pd, pgindex, pgindex + npages));
    if res < 0 {
      return;
    }
    ProgressIsLocal(phys0, m0, mem.phys, mem.pmem.memmap[..], pd, mem.tmp, pgindex, pgindex + npages, NoGain);
    if AllEmpty(phys0, pd, pgindex, pgindex + npages) {
      FreshNeedsSpare(m0, phys0, own0, mem.shares, mem.pmem.memmap[..], mem.phys, mem.owners,
                      pd, pgindex, pgindex + npages, flags);
    }
    res := pgindex;
  }

  /** In a window with all its tables no table is created. */
  lemma WindowBooks(phys0: Memory, m0: seq<Byte>, own0: seq<nat>, phys: Memory, m: seq<Byte>, own: seq<nat>,
                    pd: nat, min: nat, max: nat, lo: nat, mid: nat, hi: nat, c: nat, empty: bool)
    requires Books(phys0, m0, own0, phys, m, own, pd, lo, mid, hi, c, empty)
    requires |m0| == |phys0| && WindowReady(phys0, m0, pd, min, max) && min <= lo && hi <= max
    ensures Tree(phys, pd) && mid <= MAX_FRAMES
    ensures empty ==> Spent(m0, own0, m, own, PageFrames(phys, pd, lo, mid), c)
  {
    hide Spent, PageFrames;
    NoNewTables(phys0, phys, pd, lo, hi);
    assert PageFrames(phys, pd, lo, mid) + {} == PageFrames(phys, pd, lo, mid);
  }

  lemma NoPagesAreEmpty(phys: Memory, pd: nat, pg: nat)
    requires Tree(phys, pd) && pg <= MAX_FRAMES
    ensures AllEmpty(phys, pd, pg, pg)
  {
  }
}
