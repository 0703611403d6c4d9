/**
 The simple reading of a two-level address space: a flat map from page numbers
 to entries. Every store the paging code performs is related to its effect on
 that flat map.
 */
module FlatMap {
  import opened Words
  import opened Accounting

  /** VMEM_AREA_TMPMAP: the area of temporary mappings, one directory slot wide. */
  const TMP_PAGE := 261120
  const TMP_SLOT := 255

  /** The frame of the page table in directory slot s, or 0. */
  function Child(phys: Memory, pd: nat, s: nat): (c: nat)
    requires IsTable(phys, pd) && s < TABLE_LEN
  {
    FrameOf(phys[pd][s])
  }

  /** A directory whose entries name distinct page tables. */
  ghost predicate Tree(phys: Memory, pd: nat) {
    && IsTable(phys, pd)
    && (forall s :: 0 <= s < TABLE_LEN && Child(phys, pd, s) != 0 ==>
          Child(phys, pd, s) != pd && IsTable(phys, Child(phys, pd, s)))
    && (forall s, s' ::
          0 <= s < s' < TABLE_LEN && Child(phys, pd, s) != 0 ==> Child(phys, pd, s) != Child(phys, pd, s'))
  }

  /** The directory together with the temporary page table, which may itself be
      installed, but only in its own slot, and whose free entries are zero. */
  ghost predicate WellFormed(phys: Memory, pd: nat, tmp: nat) {
    && Tree(phys, pd)
    && IsTable(phys, tmp) && tmp != pd && tmp != 0
    && (forall s :: 0 <= s < TABLE_LEN && Child(phys, pd, s) == tmp ==> s == TMP_SLOT)
    && (forall i :: 0 <= i < TABLE_LEN && FrameOf(phys[tmp][i]) == 0 ==> phys[tmp][i] == 0)
  }

  lemma WellFormedTree(phys: Memory, pd: nat, tmp: nat)
    requires WellFormed(phys, pd, tmp)
    ensures Tree(phys, pd) && IsTable(phys, pd) && IsTable(phys, tmp)
  {
  }

  /** The flat map: the entry that translates page pg, 0 where no table is installed. */
  ghost function Entry(phys: Memory, pd: nat, pg: nat): (e: Word)
    requires Tree(phys, pd) && pg < MAX_FRAMES
  {
    var c := Child(phys, pd, pg / TABLE_LEN);
    if c == 0 then 0 else phys[c][pg % TABLE_LEN]
  }

  /** The frame page pg translates to, 0 when it is unmapped. */
  ghost function Look(phys: Memory, pd: nat, pg: nat): (f: nat)
    requires Tree(phys, pd) && pg < MAX_FRAMES
  {
    FrameOf(Entry(phys, pd, pg))
  }

  ghost predicate AllEmpty(phys: Memory, pd: nat, lo: nat, hi: nat)
    requires Tree(phys, pd) && hi <= MAX_FRAMES
  {
    forall pg :: lo <= pg < hi ==> Look(phys, pd, pg) == 0
  }

  /** Outside [lo, hi) the two memories translate every page alike. */
  ghost predicate SameOutside(phys: Memory, phys': Memory, pd: nat, lo: nat, hi: nat)
    requires Tree(phys, pd) && Tree(phys', pd)
  {
    forall pg: nat :: pg < MAX_FRAMES && !(lo <= pg < hi) ==>
      Entry(phys', pd, pg) == Entry(phys, pd, pg)
  }

  /** Frame k is neither this directory, nor the temporary page table, nor a page
      table installed in this directory. */
  ghost predicate Foreign(phys: Memory, pd: nat, tmp: nat, k: nat)
    requires IsTable(phys, pd)
  {
    k != pd && k != tmp && forall t :: 0 <= t < TABLE_LEN ==> Child(phys, pd, t) != k
  }

  /** Structures of other address spaces are left alone and stay foreign. */
  ghost predicate OthersKept(phys: Memory, phys': Memory, pd: nat, tmp: nat)
    requires IsTable(phys, pd) && IsTable(phys', pd)
  {
    && |phys| == |phys'|
    && (forall k :: 0 <= k < |phys| && phys[k] != [] && Foreign(phys, pd, tmp, k) ==>
          phys'[k] == phys[k] && Foreign(phys', pd, tmp, k))
  }

  /** Hence an address space that shares no page table with this one stays an
      address space, with every page translating as before. */
  lemma OtherSpacesUntouched(phys: Memory, phys': Memory, pd: nat, tmp: nat, pd2: nat)
    requires IsTable(phys, pd) && IsTable(phys', pd) && OthersKept(phys, phys', pd, tmp)
    requires Tree(phys, pd2) && Foreign(phys, pd, tmp, pd2)
    requires forall t :: 0 <= t < TABLE_LEN && Child(phys, pd2, t) != 0 ==> Foreign(phys, pd, tmp, Child(phys, pd2, t))
    ensures Tree(phys', pd2) && SameOutside(phys, phys', pd2, 0, 0)
  {
    assert phys'[pd2] == phys[pd2];
    assert forall t :: 0 <= t < TABLE_LEN ==> Child(phys', pd2, t) == Child(phys, pd2, t);
    forall t | 0 <= t < TABLE_LEN && Child(phys, pd2, t) != 0
      ensures phys'[Child(phys, pd2, t)] == phys[Child(phys, pd2, t)]
    {
      assert IsTable(phys, Child(phys, pd2, t));
    }
  }

  // ---- the four stores --------------------------------------------------------------

  /** Storing into the page table of slot s changes the translation of one page. */
  lemma StorePage(phys: Memory, pd: nat, tmp: nat, s: nat, i: nat, e: Word)
    requires WellFormed(phys, pd, tmp)
    requires s < TABLE_LEN && s != TMP_SLOT && i < TABLE_LEN
    requires Child(phys, pd, s) != 0
    ensures var phys' := Stored(phys, Child(phys, pd, s), i, e);
            && WellFormed(phys', pd, tmp)
            && phys'[pd] == phys[pd] && phys'[tmp] == phys[tmp]
            && Entry(phys', pd, s * TABLE_LEN + i) == e
            && SameOutside(phys, phys', pd, s * TABLE_LEN + i, s * TABLE_LEN + i + 1)
            && OthersKept(phys, phys', pd, tmp)
  {
    var c := Child(phys, pd, s);
    var phys' := Stored(phys, c, i, e);
    assert c != tmp;
    assert forall t :: 0 <= t < TABLE_LEN ==> Child(phys', pd, t) == Child(phys, pd, t);
    forall pg: nat | pg < MAX_FRAMES && pg != s * TABLE_LEN + i
      ensures Entry(phys', pd, pg) == Entry(phys, pd, pg)
    {
      var t := pg / TABLE_LEN;
      assert t == s ==> pg % TABLE_LEN != i;
    }
  }

  /** Storing into the temporary page table changes at most one temporary page. */
  lemma StoreTemp(phys: Memory, pd: nat, tmp: nat, j: nat, e: Word)
    requires WellFormed(phys, pd, tmp)
    requires j < TABLE_LEN && (FrameOf(e) == 0 ==> e == 0)
    ensures var phys' := Stored(phys, tmp, j, e);
            && WellFormed(phys', pd, tmp)
            && phys'[pd] == phys[pd]
            && SameOutside(phys, phys', pd, TMP_PAGE + j, TMP_PAGE + j + 1)
            && OthersKept(phys, phys', pd, tmp)
            && Entry(phys', pd, TMP_PAGE + j) ==
               if Child(phys, pd, TMP_SLOT) == tmp then e else Entry(phys, pd, TMP_PAGE + j)
  {
    var phys' := Stored(phys, tmp, j, e);
    assert forall t :: 0 <= t < TABLE_LEN ==> Child(phys', pd, t) == Child(phys, pd, t);
    forall pg: nat | pg < MAX_FRAMES && pg != TMP_PAGE + j
      ensures Entry(phys', pd, pg) == Entry(phys, pd, pg)
    {
      var t := pg / TABLE_LEN;
      assert t == TMP_SLOT ==> pg % TABLE_LEN != j;
    }
    assert (TMP_PAGE + j) / TABLE_LEN == TMP_SLOT && (TMP_PAGE + j) % TABLE_LEN == j;
  }

  /** Zero-filling a frame that holds no structure is invisible. */
  lemma InitTable(phys: Memory, pd: nat, tmp: nat, f: nat)
    requires WellFormed(phys, pd, tmp)
    requires f < |phys| && phys[f] == []
    ensures var phys' := phys[f := EmptyTable()];
            && WellFormed(phys', pd, tmp)
            && phys'[pd] == phys[pd] && phys'[tmp] == phys[tmp]
            && SameOutside(phys, phys', pd, 0, 0)
  {
    var phys' := phys[f := EmptyTable()];
    assert forall t :: 0 <= t < TABLE_LEN ==> Child(phys', pd, t) == Child(phys, pd, t);
  }

  /** Installing an empty page table in an empty slot is invisible as well. */
  lemma InstallTable(phys: Memory, pd: nat, tmp: nat, s: nat, e: Word)
    requires WellFormed(phys, pd, tmp)
    requires s < TABLE_LEN && Child(phys, pd, s) == 0
    requires var f := FrameOf(e);
             && f != 0 && f != pd && f != tmp && f < |phys| && phys[f] == EmptyTable()
             && forall t :: 0 <= t < TABLE_LEN ==> Child(phys, pd, t) != f
    ensures var phys' := Stored(phys, pd, s, e);
            && WellFormed(phys', pd, tmp)
            && phys'[tmp] == phys[tmp]
            && Child(phys', pd, s) == FrameOf(e)
            && SameOutside(phys, phys', pd, 0, 0)
  {
    var phys' := Stored(phys, pd, s, e);
    assert forall t :: 0 <= t < TABLE_LEN && t != s ==> Child(phys', pd, t) == Child(phys, pd, t);
    forall pg: nat | pg < MAX_FRAMES ensures Entry(phys', pd, pg) == Entry(phys, pd, pg) {
      var t := pg / TABLE_LEN;
      if t == s {
        assert Entry(phys', pd, pg) == EmptyTable()[pg % TABLE_LEN];
      }
    }
  }

  // ---- the emptiness scan of vmem_32_check_empty_pages ---------------------------------

  /** Length of the run of empty entries from index i, at most `count` long. */
  ghost function EmptyRun(t: seq<Word>, i: nat, count: nat): (n: nat)
    requires |t| == TABLE_LEN
    ensures n <= count && (n > 0 ==> i + n <= TABLE_LEN)
    decreases count
  {
    if count > 0 && i < TABLE_LEN && FrameOf(t[i]) == 0 then 1 + EmptyRun(t, i + 1, count - 1) else 0
  }

  ghost predicate Installed(phys: Memory, pd: nat, s: nat, n: nat)
    requires Tree(phys, pd)
  {
    s + n <= TABLE_LEN && forall t :: s <= t < s + n ==> Child(phys, pd, t) != 0
  }

  /** The number the walk reports: after an occupied page it goes on to the next
      table without advancing to that table's first page. */
  ghost function Scan(phys: Memory, pd: nat, s: nat, ptcount: nat, pg: nat, count: nat): (n: nat)
    requires Tree(phys, pd) && Installed(phys, pd, s, ptcount)
    ensures n <= count
    decreases ptcount
  {
    if ptcount == 0 then 0 else
    var n := EmptyRun(phys[Child(phys, pd, s)], pg % TABLE_LEN, count);
    n + Scan(phys, pd, s + 1, ptcount - 1, pg + n, count - n)
  }

  lemma {:induction false} EmptyRunIsMaximal(t: seq<Word>, i: nat, count: nat)
    requires |t| == TABLE_LEN
    ensures var n := EmptyRun(t, i, count);
            && (forall k :: i <= k < i + n ==> FrameOf(t[k]) == 0)
            && (n < count && i + n < TABLE_LEN ==> FrameOf(t[i + n]) != 0)
    decreases count
  {
    if EmptyRun(t, i, count) > 0 {
      EmptyRunIsMaximal(t, i + 1, count - 1);
    }
  }

  /** One table of the walk: it advances over empty pages and stops at the end
      of the range, at the end of the table or at an occupied page. */
  lemma OneTable(phys: Memory, pd: nat, s: nat, pg: nat, count: nat)
    requires Tree(phys, pd) && s < TABLE_LEN && Child(phys, pd, s) != 0
    requires pg + count <= MAX_FRAMES && s == pg / TABLE_LEN
    ensures var n := EmptyRun(phys[Child(phys, pd, s)], pg % TABLE_LEN, count);
            && pg + n <= (s + 1) * TABLE_LEN
            && AllEmpty(phys, pd, pg, pg + n)
            && (n < count && pg + n < (s + 1) * TABLE_LEN ==> Look(phys, pd, pg + n) != 0)
  {
    var t := phys[Child(phys, pd, s)];
    var i := pg % TABLE_LEN;
    var n := EmptyRun(t, i, count);
    EmptyRunIsMaximal(t, i, count);
    forall p | pg <= p < pg + n ensures Look(phys, pd, p) == 0 {
      assert p / TABLE_LEN == s && p % TABLE_LEN == i + (p - pg);
    }
    if n < count && pg + n < (s + 1) * TABLE_LEN {
      assert (pg + n) / TABLE_LEN == s && (pg + n) % TABLE_LEN == i + n;
    }
  }

  /** Once behind, always short: a walk that enters table s while still looking
      for a page before that table cannot report the full count. */
  lemma {:induction false} ScanBehind(phys: Memory, pd: nat, s: nat, ptcount: nat, pg: nat, count: nat)
    requires Tree(phys, pd) && Installed(phys, pd, s, ptcount)
    requires count > 0 && pg < s * TABLE_LEN
    requires ptcount > 0 ==> pg + count > (s + ptcount - 1) * TABLE_LEN
    ensures Scan(phys, pd, s, ptcount, pg, count) < count
    decreases ptcount
  {
    if ptcount > 0 {
      var n := EmptyRun(phys[Child(phys, pd, s)], pg % TABLE_LEN, count);
      assert pg + n <= s * TABLE_LEN;
      ScanBehind(phys, pd, s + 1, ptcount - 1, pg + n, count - n);
    }
  }

  lemma {:induction false} ScanOnTrack(phys: Memory, pd: nat, s: nat, ptcount: nat, pg: nat, count: nat)
    requires Tree(phys, pd) && Installed(phys, pd, s, ptcount)
    requires count > 0 && pg + count <= MAX_FRAMES
    requires s == pg / TABLE_LEN && ptcount == 1 + (pg + count - 1) / TABLE_LEN - s
    ensures Scan(phys, pd, s, ptcount, pg, count) == count <==> AllEmpty(phys, pd, pg, pg + count)
    decreases ptcount
  {
    var n := EmptyRun(phys[Child(phys, pd, s)], pg % TABLE_LEN, count);
    OneTable(phys, pd, s, pg, count);
    if n == count {
      assert ptcount == 1;
    } else if pg + n == (s + 1) * TABLE_LEN {
      ScanOnTrack(phys, pd, s + 1, ptcount - 1, pg + n, count - n);
      assert AllEmpty(phys, pd, pg, pg + count) <==> AllEmpty(phys, pd, pg + n, pg + n + (count - n));
    } else {
      ScanBehind(phys, pd, s + 1, ptcount - 1, pg + n, count - n);
    }
  }

  /** `vmem_32_check_empty_pages` reports the full count exactly when every page
      of the range is empty, for any number of tables spanned; only for the whole
      address space it reports zero, whatever that holds. */
  lemma ScanIsExact(phys: Memory, pd: nat, pg: nat, count: nat)
    requires Tree(phys, pd)
    requires pg + count <= MAX_FRAMES
    requires Installed(phys, pd, pg / TABLE_LEN, TableCount(PageAddress(pg), PageMemory(count)))
    ensures var n := Scan(phys, pd, pg / TABLE_LEN, TableCount(PageAddress(pg), PageMemory(count)), pg, count);
            if count == MAX_FRAMES then n == 0 else n == count <==> AllEmpty(phys, pd, pg, pg + count)
  {
    TableWalk(pg, count);
    if 0 < count < MAX_FRAMES {
      ScanOnTrack(phys, pd, pg / TABLE_LEN, TableCount(PageAddress(pg), PageMemory(count)), pg, count);
    }
  }
}
