/**
 Repeated failures of `vmem_32_alloc_pages`: since a failing call does not clean up,
 each one uses up a temporary page and a reference of the page table it was filling.
 */
module Failures {
  import opened Words
  import opened FrameMap
  import opened Accounting
  import opened FlatMap
  import opened Paging
  import opened Vmem32
  import opened Ledger
  import opened PageRanges
  import opened Vmem
  import opened SearchLimits

  /** The number of free temporary pages. */
  ghost function FreeTemps(phys: Memory, tmp: nat): (n: nat)
    requires IsTable(phys, tmp)
  {
    CountIn(phys[tmp], 0)
  }

  lemma {:induction false} CountedMeansFree(t: seq<Word>)
    ensures HasFree(t) <==> CountIn(t, 0) > 0
  {
    if t != [] {
      var n := |t| - 1;
      CountedMeansFree(t[..n]);
      if HasFree(t[..n]) {
        var i :| 0 <= i < n && FrameOf(t[..n][i]) == 0;
        assert FrameOf(t[i]) == 0;
      }
      if FrameOf(t[n]) != 0 && HasFree(t) {
        var i :| 0 <= i < |t| && FrameOf(t[i]) == 0;
        assert FrameOf(t[..n][i]) == 0;
      }
    }
  }

  /** No frame is left, and page pg is an empty page of an installed table whose count is
      not saturated. */
  ghost predicate Exhausted(phys: Memory, m: seq<Byte>, pd: nat, pg: nat)
    requires Tree(phys, pd) && |m| == |phys|
  {
    && Spare(m) == 0 && pg < MAX_FRAMES && AvoidsTemp(pg, pg + 1)
    && Look(phys, pd, pg) == 0 && Child(phys, pd, pg / TABLE_LEN) != 0
    && GetRef(m[Child(phys, pd, pg / TABLE_LEN)]) < MAX_REF
  }

  lemma ExhaustedRange(phys: Memory, m: seq<Byte>, pd: nat, pg: nat)
    requires Tree(phys, pd) && |m| == |phys| && Exhausted(phys, m, pd, pg)
    ensures AllEmpty(phys, pd, pg, pg + 1) && RangeMappable(phys, m, pd, pg, pg + 1, NoGain)
    ensures Missing(phys, pd, pg / TABLE_LEN, pg + 1) == 0
  {
    var s := pg / TABLE_LEN;
    assert Missing(phys, pd, s + 1, pg + 1) == 0;
  }

  /** The frame map and memory after a failed call that did nothing but leave its table,
      in frame c, mapped. */
  ghost predicate Leaked(phys0: Memory, m0: seq<Byte>, own0: seq<nat>, phys: Memory, m: seq<Byte>, own: seq<nat>,
                         pd: nat, tmp: nat, pg: nat, n: nat)
  {
    && Tree(phys0, pd) && Tree(phys, pd) && IsTable(phys0, tmp) && IsTable(phys, tmp) && pg < MAX_FRAMES
    && |m0| == |own0| == |m| == |own| == |phys0| == |phys|
    && phys[pd] == phys0[pd] && own == own0 && Entry(phys, pd, pg) == Entry(phys0, pd, pg)
    && FreeTemps(phys, tmp) + n == FreeTemps(phys0, tmp)
    && var c := Child(phys0, pd, pg / TABLE_LEN);
    && CountIn(phys[tmp], c) == CountIn(phys0[tmp], c) + n
    && (forall f :: 0 <= f < |m0| ==>
          && GetRef(m[f]) == GetRef(m0[f]) + (if f == c && c > 0 then n else 0)
          && GetType(m[f]) == GetType(m0[f]))
  }

  /** A failed call on one page of an installed table spends nothing. */
  lemma NothingSpent(phys0: Memory, m0: seq<Byte>, own0: seq<nat>, phys: Memory, m: seq<Byte>, own: seq<nat>,
                     pd: nat, pg: nat, c: nat)
    requires Books(phys0, m0, own0, phys, m, own, pd, pg, pg, pg + 1, c, true)
    requires pg < MAX_FRAMES && Child(phys0, pd, pg / TABLE_LEN) != 0
    ensures phys[pd] == phys0[pd] && Spent(m0, own0, m, own, {}, c)
  {
    NoNewTables(phys0, phys, pd, pg, pg + 1);
    assert PageFrames(phys, pd, pg, pg) == {};
  }

  /** What it leaves mapped is the table of the page. */
  lemma TempPageTaken(t: seq<Word>, leak: nat, c: nat)
    requires leak < |t| && FrameOf(t[leak]) == 0 && 0 < c < MAX_FRAMES
    ensures CountIn(t[leak := PteCreate(c, TEMP_FLAGS)], 0) + 1 == CountIn(t, 0)
    ensures CountIn(t[leak := PteCreate(c, TEMP_FLAGS)], c) == CountIn(t, c) + 1
  {
    EntryRoundTrip(c, TEMP_FLAGS);
    CountUpdate(t, leak, PteCreate(c, TEMP_FLAGS), 0);
    CountUpdate(t, leak, PteCreate(c, TEMP_FLAGS), c);
  }

  lemma LeakedOnce(phys0: Memory, m0: seq<Byte>, own0: seq<nat>, phys: Memory, m: seq<Byte>, own: seq<nat>,
                   pd: nat, tmp: nat, pg: nat, leak: int)
    requires WellFormed(phys0, pd, tmp) && WellFormed(phys, pd, tmp)
    requires pg < MAX_FRAMES && |m0| == |phys0| == |phys| <= MAX_FRAMES && leak >= 0
    requires Aborted(phys0, phys, pd, tmp, pg, pg, leak) && AvoidsTemp(pg, pg + 1) && phys[pd] == phys0[pd]
    requires Spent(m0, own0, m, own, {}, Child(phys0, pd, pg / TABLE_LEN))
    ensures Leaked(phys0, m0, own0, phys, m, own, pd, tmp, pg, 1)
  {
    hide OthersKept;
    TempPageTaken(phys0[tmp], leak, Child(phys0, pd, pg / TABLE_LEN));
  }

  lemma AbortedSize(phys0: Memory, phys: Memory, pd: nat, tmp: nat, pg: nat, leak: int)
    requires WellFormed(phys0, pd, tmp) && WellFormed(phys, pd, tmp) && Aborted(phys0, phys, pd, tmp, pg, pg, leak)
    ensures |phys| == |phys0|
  {
  }

  lemma LeakedAgain(phys0: Memory, m0: seq<Byte>, own0: seq<nat>, phys1: Memory, m1: seq<Byte>, own1: seq<nat>,
                    phys2: Memory, m2: seq<Byte>, own2: seq<nat>, pd: nat, tmp: nat, pg: nat, n: nat)
    requires Leaked(phys0, m0, own0, phys1, m1, own1, pd, tmp, pg, n)
    requires Leaked(phys1, m1, own1, phys2, m2, own2, pd, tmp, pg, 1)
    ensures Leaked(phys0, m0, own0, phys2, m2, own2, pd, tmp, pg, n + 1)
  {
    SameChild(phys0, phys1, pd, pg);
  }

  lemma SameChild(phys0: Memory, phys: Memory, pd: nat, pg: nat)
    requires IsTable(phys0, pd) && IsTable(phys, pd) && phys[pd] == phys0[pd] && pg < MAX_FRAMES
    ensures Child(phys, pd, pg / TABLE_LEN) == Child(phys0, pd, pg / TABLE_LEN)
  {
  }

  lemma StillExhausted(phys0: Memory, m0: seq<Byte>, own0: seq<nat>, phys: Memory, m: seq<Byte>, own: seq<nat>,
                       pd: nat, tmp: nat, pg: nat, n: nat)
    requires Leaked(phys0, m0, own0, phys, m, own, pd, tmp, pg, n) && Exhausted(phys0, m0, pd, pg)
    requires GetRef(m0[Child(phys0, pd, pg / TABLE_LEN)]) + n < MAX_REF
    ensures Exhausted(phys, m, pd, pg)
  {
    assert Allocables(m) <= Allocables(m0);
    SubsetSize(Allocables(m), Allocables(m0));
  }

  /** One failing call. */
  method FailOnce(mem: PagedMemory, pd: nat, pg: nat, flags: Word)
    requires mem.Valid() && WellFormed(mem.phys, pd, mem.tmp) && pd in mem.shares.dirs
    requires Exhausted(mem.phys, mem.Map(), pd, pg) && FreeTemps(mem.phys, mem.tmp) > 0
    modifies mem`phys, mem`owners, mem.pmem.memmap
    ensures mem.Valid() && WellFormed(mem.phys, pd, mem.tmp)
    ensures Leaked(old(mem.phys), old(mem.Map()), old(mem.owners), mem.phys, mem.Map(), mem.owners, pd, mem.tmp, pg, 1)
  {
    hide Accounted, WellFormed, Leaked, Aborted, Books, Fresh, Spare, HasFree, Progress;
    hide RangeMappable, AllEmpty, Missing, Spent;
    ghost var phys0, m0, own0 := mem.phys, mem.pmem.memmap[..], mem.owners;
    WellFormedTree(phys0, pd, mem.tmp);
    AccountedSizes(m0, phys0, own0, mem.shares);
    ExhaustedRange(phys0, m0, pd, pg);
    CountedMeansFree(phys0[mem.tmp]);
    var res;
    ghost var done, leak;
    res, done, leak := AllocPages(mem, pd, pg, 1, flags);
    AccountedSizes(mem.pmem.memmap[..], mem.phys, mem.owners, mem.shares);
    WellFormedTree(mem.phys, pd, mem.tmp);
    FreshNeedsSpare(m0, phys0, own0, mem.shares, mem.pmem.memmap[..], mem.phys, mem.owners, pd, pg, pg + done, flags);
    AbortedSize(phys0, mem.phys, pd, mem.tmp, pg, leak);
    NothingSpent(phys0, m0, own0, mem.phys, mem.pmem.memmap[..], mem.owners, pd, pg,
                 LeftMapped(mem.phys, pd, pg, leak));
    SameChild(phys0, mem.phys, pd, pg);
    LeakedOnce(phys0, m0, own0, mem.phys, mem.pmem.memmap[..], mem.owners, pd, mem.tmp, pg, leak);
  }

  /** n calls of `vmem_32_alloc_pages` on a page, with no frame left: every one fails, n
      temporary pages are gone, all mapping the page's table, whose count has grown by n. */
  method FailRepeatedly(mem: PagedMemory, pd: nat, pg: nat, n: nat, flags: Word)
    requires mem.Valid() && WellFormed(mem.phys, pd, mem.tmp) && pd in mem.shares.dirs
    requires Exhausted(mem.phys, mem.Map(), pd, pg) && n <= FreeTemps(mem.phys, mem.tmp)
    requires GetRef(mem.Map()[Child(mem.phys, pd, pg / TABLE_LEN)]) + n <= MAX_REF
    modifies mem`phys, mem`owners, mem.pmem.memmap
    ensures mem.Valid() && WellFormed(mem.phys, pd, mem.tmp)
    ensures Leaked(old(mem.phys), old(mem.Map()), old(mem.owners), mem.phys, mem.Map(), mem.owners, pd, mem.tmp, pg, n)
  {
    hide Accounted, WellFormed, Leaked, Exhausted, GetRef;
    ghost var phys0, m0, own0 := mem.phys, mem.pmem.memmap[..], mem.owners;
    WellFormedTree(phys0, pd, mem.tmp);
    AccountedSizes(m0, phys0, own0, mem.shares);
    NothingLeaked(phys0, m0, own0, pd, mem.tmp, pg);
    var i := 0;
    while i < n
      invariant 0 <= i <= n
      invariant mem.Valid() && WellFormed(mem.phys, pd, mem.tmp)
      invariant Leaked(phys0, m0, own0, mem.phys, mem.Map(), mem.owners, pd, mem.tmp, pg, i)
    {
      ghost var phys1, m1, own1 := mem.phys, mem.pmem.memmap[..], mem.owners;
      StillExhausted(phys0, m0, own0, phys1, m1, own1, pd, mem.tmp, pg, i);
      LeakedFacts(phys0, m0, own0, phys1, m1, own1, pd, mem.tmp, pg, i);
      FailOnce(mem, pd, pg, flags);
      LeakedAgain(phys0, m0, own0, phys1, m1, own1, mem.phys, mem.pmem.memmap[..], mem.owners, pd, mem.tmp, pg, i);
      i := i + 1;
    }
  }

  lemma NothingLeaked(phys: Memory, m: seq<Byte>, own: seq<nat>, pd: nat, tmp: nat, pg: nat)
    requires Tree(phys, pd) && IsTable(phys, tmp) && |m| == |own| == |phys| && Exhausted(phys, m, pd, pg)
    ensures Leaked(phys, m, own, phys, m, own, pd, tmp, pg, 0) && pg < MAX_FRAMES
    ensures 0 < Child(phys, pd, pg / TABLE_LEN) < |m|
  {
  }

  lemma LeakedFacts(phys0: Memory, m0: seq<Byte>, own0: seq<nat>, phys: Memory, m: seq<Byte>, own: seq<nat>,
                    pd: nat, tmp: nat, pg: nat, n: nat)
    requires Leaked(phys0, m0, own0, phys, m, own, pd, tmp, pg, n)
    ensures Tree(phys, pd) && IsTable(phys, pd) && IsTable(phys, tmp) && |m| == |phys| == |phys0| == |m0|
    ensures IsTable(phys0, pd) && IsTable(phys0, tmp) && FreeTemps(phys, tmp) + n == FreeTemps(phys0, tmp)
    ensures pg < MAX_FRAMES && Child(phys, pd, pg / TABLE_LEN) == Child(phys0, pd, pg / TABLE_LEN)
    ensures var c := Child(phys0, pd, pg / TABLE_LEN);
            0 < c < |m| ==> GetRef(m[c]) == GetRef(m0[c]) + n
  {
  }

  /** When the failures have saturated the count of the table, the next temporary mapping of
      it, for whatever purpose, is not counted, and the books no longer balance. */
  method SaturateAndBreak(mem: PagedMemory, pd: nat, pg: nat, flags: Word) returns (pgindex: int)
    requires mem.Valid() && WellFormed(mem.phys, pd, mem.tmp) && pd in mem.shares.dirs
    requires Exhausted(mem.phys, mem.Map(), pd, pg) && FreeTemps(mem.phys, mem.tmp) > MAX_REF
    modifies mem`phys, mem`owners, mem.pmem.memmap
    ensures pgindex >= 0 && !mem.Valid()
  {
    hide Accounted, WellFormed, Leaked, Exhausted, HasFree;
    ghost var phys0, m0, own0 := mem.phys, mem.pmem.memmap[..], mem.owners;
    WellFormedTree(phys0, pd, mem.tmp);
    AccountedSizes(m0, phys0, own0, mem.shares);
    NothingLeaked(phys0, m0, own0, pd, mem.tmp, pg);
    var c := FrameOf(mem.phys[pd][pg / TABLE_LEN]);
    var n := MAX_REF - GetRef(mem.pmem.memmap[c]);
    FailRepeatedly(mem, pd, pg, n, flags);
    LeakedFacts(phys0, m0, own0, mem.phys, mem.pmem.memmap[..], mem.owners, pd, mem.tmp, pg, n);
    CountedMeansFree(mem.phys[mem.tmp]);
    pgindex := InstallTempPageFrame(mem, c);
  }

  /** A state to start from: an address space without pages in a memory that is all used. */
  lemma AllUsed(pg: nat) returns (st: State)
    requires pg < MAX_FRAMES && AvoidsTemp(pg, pg + 1)
    ensures Ready(st, pg, pg + 1) && Exhausted(st.phys, st.m, st.pd, pg)
    ensures IsTable(st.phys, st.tmp) && FreeTemps(st.phys, st.tmp) == TABLE_LEN
  {
    var occ: nat -> bool := _ => false;
    st := With(occ);
    SpaceIsReady(occ, pg, pg + 1);
    SpaceIsWellFormed(occ);
    SpaceLook(occ, pg);
    forall f: nat | 1 <= f < |st.m| ensures !IsAllocable(st.m[f]) {
      assert st.m[f] == Count(st.phys, f);
    }
    assert Allocables(st.m) == {};
    assert st.phys[2 + 255] == TableOf(occ, 255);
    AllZero(st.phys[TMP]);
  }

  lemma {:induction false} AllZero(t: seq<Word>)
    requires forall i :: 0 <= i < |t| ==> t[i] == 0
    ensures CountIn(t, 0) == |t|
  {
    if t != [] {
      AllZero(t[..|t| - 1]);
    }
  }
}
