/**
 The search of `find_empty_pages` as a function of the address space, and when
 it is first fit.
 */
module WindowSearch {
  import opened Words
  import opened Accounting
  import opened FlatMap
  import opened Reports

  /** The page tables of pages lo to hi - 1 are installed. */
  ghost predicate WindowInstalled(phys: Memory, pd: nat, lo: nat, hi: nat)
    requires Tree(phys, pd)
  {
    hi <= MAX_FRAMES &&
    forall t :: lo / TABLE_LEN <= t < TABLE_LEN && t * TABLE_LEN < hi ==> Child(phys, pd, t) != 0
  }

  function Tables(pg: nat, n: nat): (ptcount: nat) {
    TableCount(PageAddress(pg), PageMemory(n))
  }

  lemma QueryInstalled(phys: Memory, pd: nat, lo: nat, hi: nat, n: nat)
    requires Tree(phys, pd) && WindowInstalled(phys, pd, lo, hi) && lo + n < hi
    ensures Installed(phys, pd, lo / TABLE_LEN, Tables(lo, n))
  {
    TableWalk(lo, n);
    forall t | lo / TABLE_LEN <= t < lo / TABLE_LEN + Tables(lo, n) ensures Child(phys, pd, t) != 0 {
      assert t * TABLE_LEN < hi;
    }
  }

  /** One query of the search: what `vmem_32_check_empty_pages` reports. */
  ghost function Query(phys: Memory, pd: nat, n: nat, cur: nat, end: nat): (nempty: nat)
    requires Tree(phys, pd) && WindowInstalled(phys, pd, cur, end) && cur + n < end
    ensures nempty <= n
    ensures nempty == n <==> AllEmpty(phys, pd, cur, cur + n)
  {
    QueryInstalled(phys, pd, cur, end, n);
    ScanIsExact(phys, pd, cur, n);
    Scan(phys, pd, cur / TABLE_LEN, Tables(cur, n), cur, n)
  }

  /** The result of the search loop from page cur on. */
  ghost function SearchFrom(phys: Memory, pd: nat, n: nat, cur: nat, end: nat): (res: int)
    requires Tree(phys, pd) && WindowInstalled(phys, pd, cur, end)
    decreases if cur < end then end - cur else 0
  {
    if cur + n < end then
      var nempty := Query(phys, pd, n, cur, end);
      if nempty == n then cur else SearchFrom(phys, pd, n, cur + nempty + 1, end)
    else -ENOMEM
  }

  /** The n pages from p on are empty and inside the window [lo, end). */
  ghost predicate Fits(phys: Memory, pd: nat, n: nat, lo: nat, end: nat, p: nat)
    requires Tree(phys, pd) && end <= MAX_FRAMES
  {
    lo <= p && p + n <= end && AllEmpty(phys, pd, p, p + n)
  }

  /** A start that the comparison of the loop admits: it is strict, so the last page
      of the window is never used. */
  ghost predicate Usable(phys: Memory, pd: nat, n: nat, lo: nat, end: nat, p: nat)
    requires Tree(phys, pd) && end <= MAX_FRAMES
  {
    lo <= p && p + n < end && AllEmpty(phys, pd, p, p + n)
  }

  lemma SearchStep(phys: Memory, pd: nat, n: nat, cur: nat, end: nat)
    requires Tree(phys, pd) && WindowInstalled(phys, pd, cur, end) && cur + n < end
    requires Query(phys, pd, n, cur, end) < n
    ensures WindowInstalled(phys, pd, cur + Query(phys, pd, n, cur, end) + 1, end)
    ensures SearchFrom(phys, pd, n, cur, end) ==
            SearchFrom(phys, pd, n, cur + Query(phys, pd, n, cur, end) + 1, end)
  {
  }

  lemma SearchEnds(phys: Memory, pd: nat, n: nat, cur: nat, end: nat)
    requires Tree(phys, pd) && WindowInstalled(phys, pd, cur, end)
    ensures cur + n >= end ==> SearchFrom(phys, pd, n, cur, end) == -ENOMEM
    ensures cur + n < end && Query(phys, pd, n, cur, end) == n ==> SearchFrom(phys, pd, n, cur, end) == cur
  {
  }

  lemma QueryIsScan(phys: Memory, pd: nat, n: nat, cur: nat, end: nat)
    requires Tree(phys, pd) && WindowInstalled(phys, pd, cur, end) && cur + n < end
    ensures Installed(phys, pd, cur / TABLE_LEN, TableCount(PageAddress(cur), PageMemory(n)))
    ensures Query(phys, pd, n, cur, end) ==
            Scan(phys, pd, cur / TABLE_LEN, TableCount(PageAddress(cur), PageMemory(n)), cur, n)
  {
    QueryInstalled(phys, pd, cur, end, n);
  }

  lemma {:induction false} SearchIsSound(phys: Memory, pd: nat, n: nat, cur: nat, end: nat)
    requires Tree(phys, pd) && WindowInstalled(phys, pd, cur, end)
    ensures var res := SearchFrom(phys, pd, n, cur, end);
            res == -ENOMEM || (res >= 0 && Usable(phys, pd, n, cur, end, res))
    decreases if cur < end then end - cur else 0
  {
    if cur + n < end {
      var nempty := Query(phys, pd, n, cur, end);
      if nempty != n {
        SearchIsSound(phys, pd, n, cur + nempty + 1, end);
      }
    }
  }

  // ---- the search in terms of pages -----------------------------------------------------------

  /** One step of the search: the range at `cur` is not all empty, and the search goes on
      past as many pages as the check reports, and one more. */
  ghost predicate MovesOn(phys: Memory, pd: nat, n: nat, cur: nat, end: nat, next: nat)
    requires Tree(phys, pd) && end <= MAX_FRAMES
  {
    && cur + n < end && !AllEmpty(phys, pd, cur, cur + n)
    && next > cur && ReportIs(phys, pd, cur, n, next - cur - 1)
  }

  /** The starts the search tries, in order, and what it answers. */
  ghost predicate Trace(phys: Memory, pd: nat, n: nat, lo: nat, end: nat, starts: seq<nat>, res: int)
    requires Tree(phys, pd) && end <= MAX_FRAMES
  {
    && |starts| > 0 && starts[0] == lo
    && (forall i :: 0 <= i < |starts| - 1 ==> MovesOn(phys, pd, n, starts[i], end, starts[i + 1]))
    && var last := starts[|starts| - 1];
    if last + n < end then AllEmpty(phys, pd, last, last + n) && res == last else res == -ENOMEM
  }

  /** The search tries the starts that follow from the reports on the pages, whether or not
      they cross table boundaries. */
  lemma {:induction false} SearchHasTrace(phys: Memory, pd: nat, n: nat, lo: nat, end: nat) returns (starts: seq<nat>)
    requires Tree(phys, pd) && WindowInstalled(phys, pd, lo, end)
    ensures end <= MAX_FRAMES && Trace(phys, pd, n, lo, end, starts, SearchFrom(phys, pd, n, lo, end))
    decreases if lo < end then end - lo else 0
  {
    hide Query, AllEmpty, ReportIs, SearchFrom, Tree, MovesOn;
    WindowEnd(phys, pd, lo, end);
    SearchEnds(phys, pd, n, lo, end);
    if lo + n < end && Query(phys, pd, n, lo, end) < n {
      var next := lo + Query(phys, pd, n, lo, end) + 1;
      SearchStep(phys, pd, n, lo, end);
      QueryMovesOn(phys, pd, n, lo, end);
      var rest := SearchHasTrace(phys, pd, n, next, end);
      starts := [lo] + rest;
      forall i | 0 <= i < |starts| - 1 ensures MovesOn(phys, pd, n, starts[i], end, starts[i + 1]) {
        assert i > 0 ==> starts[i] == rest[i - 1] && starts[i + 1] == rest[i];
      }
    } else {
      starts := [lo];
    }
  }

  lemma WindowEnd(phys: Memory, pd: nat, lo: nat, end: nat)
    requires Tree(phys, pd) && WindowInstalled(phys, pd, lo, end)
    ensures end <= MAX_FRAMES
  {
  }

  lemma QueryMovesOn(phys: Memory, pd: nat, n: nat, cur: nat, end: nat)
    requires Tree(phys, pd) && WindowInstalled(phys, pd, cur, end) && cur + n < end
    requires Query(phys, pd, n, cur, end) < n
    ensures MovesOn(phys, pd, n, cur, end, cur + Query(phys, pd, n, cur, end) + 1)
  {
    hide ReportIs, AllEmpty, Tree;
    QueryIsScan(phys, pd, n, cur, end);
    ScanIsReport(phys, pd, cur, n);
  }

  /** The pages determine the answer: two traces from one start end alike. */
  lemma {:induction false} TraceIsUnique(phys: Memory, pd: nat, n: nat, lo: nat, end: nat,
                                         starts: seq<nat>, res: int, starts': seq<nat>, res': int)
    requires Tree(phys, pd) && end <= MAX_FRAMES
    requires Trace(phys, pd, n, lo, end, starts, res) && Trace(phys, pd, n, lo, end, starts', res')
    ensures res == res'
    decreases |starts|
  {
    hide AllEmpty, ReportIs, Tree;
    assert |starts| > 1 ==> MovesOn(phys, pd, n, starts[0], end, starts[1]);
    assert |starts'| > 1 ==> MovesOn(phys, pd, n, starts'[0], end, starts'[1]);
    if |starts| > 1 && |starts'| > 1 {
      ReportIsUnique(phys, pd, lo, n, starts[1] - lo - 1, starts'[1] - lo - 1);
      TraceTail(phys, pd, n, lo, end, starts, res);
      TraceTail(phys, pd, n, lo, end, starts', res');
      TraceIsUnique(phys, pd, n, starts[1], end, starts[1..], res, starts'[1..], res');
    }
  }

  lemma TraceTail(phys: Memory, pd: nat, n: nat, lo: nat, end: nat, starts: seq<nat>, res: int)
    requires Tree(phys, pd) && end <= MAX_FRAMES && |starts| > 1 && Trace(phys, pd, n, lo, end, starts, res)
    ensures Trace(phys, pd, n, starts[1], end, starts[1..], res)
  {
    hide MovesOn, AllEmpty, Tree;
    var rest := starts[1..];
    forall i | 0 <= i < |rest| - 1 ensures MovesOn(phys, pd, n, rest[i], end, rest[i + 1]) {
      assert rest[i] == starts[i + 1] && rest[i + 1] == starts[i + 2];
    }
  }

  // ---- first fit ----------------------------------------------------------------------

  /** res is the least usable start of the window, or -ENOMEM without one. */
  ghost predicate IsFirstUsable(phys: Memory, pd: nat, n: nat, lo: nat, end: nat, res: int)
    requires Tree(phys, pd) && end <= MAX_FRAMES
  {
    && (res == -ENOMEM || (res >= 0 && Usable(phys, pd, n, lo, end, res)))
    && (forall p: nat :: Usable(phys, pd, n, lo, end, p) ==> 0 <= res <= p)
  }

  /** The same for all starts that fit the window. */
  ghost predicate IsFirstFitting(phys: Memory, pd: nat, n: nat, lo: nat, end: nat, res: int)
    requires Tree(phys, pd) && end <= MAX_FRAMES
  {
    && (res == -ENOMEM || (res >= 0 && Fits(phys, pd, n, lo, end, res)))
    && (forall p: nat :: Fits(phys, pd, n, lo, end, p) ==> 0 <= res <= p)
  }

  /** The strict comparison costs the very last start of the window ... */
  lemma LastStartIsMissed(phys: Memory, pd: nat, n: nat, lo: nat, end: nat)
    requires Tree(phys, pd) && WindowInstalled(phys, pd, lo, end)
    requires forall p: nat :: Fits(phys, pd, n, lo, end, p) ==> p + n == end
    ensures SearchFrom(phys, pd, n, lo, end) == -ENOMEM
  {
    hide SearchFrom, AllEmpty, Tree;
    forall p: nat ensures !Usable(phys, pd, n, lo, end, p) {
      assert Usable(phys, pd, n, lo, end, p) ==> Fits(phys, pd, n, lo, end, p) && p + n < end;
    }
    SearchIsSound(phys, pd, n, lo, end);
  }

  /** ... and, unless a query can span two tables, nothing else: the search is then
      first fit exactly in the address spaces where that start is not the only one. */
  lemma UncrossedMissesOnlyTheLast(phys: Memory, pd: nat, n: nat, lo: nat, end: nat)
    requires Tree(phys, pd) && WindowInstalled(phys, pd, lo, end) && !Crossing(n, lo, end)
    ensures IsFirstFitting(phys, pd, n, lo, end, SearchFrom(phys, pd, n, lo, end)) <==>
            ((exists p: nat :: Fits(phys, pd, n, lo, end, p)) ==> exists p: nat :: Usable(phys, pd, n, lo, end, p))
  {
    hide SearchFrom, AllEmpty, Tree, Crossing;
    UncrossedIsFirstFit(phys, pd, n, lo, lo, end);
    var res := SearchFrom(phys, pd, n, lo, end);
    forall p: nat ensures Usable(phys, pd, n, lo, end, p) <==> Fits(phys, pd, n, lo, end, p) && p + n < end {
    }
  }

  /** The first table boundary after page pg. */
  function Boundary(pg: nat): (b: nat) {
    (pg / TABLE_LEN + 1) * TABLE_LEN
  }

  /** Two or more pages are wanted, there is more than one start to try, and some
      query other than the very last one spans two tables. */
  predicate Crossing(n: nat, lo: nat, end: nat) {
    n >= 2 && lo + 1 + n < end && Boundary(lo) + 2 < end
  }

  /** A query within one table reports the distance to the first occupied page. */
  lemma QueryInOneTable(phys: Memory, pd: nat, n: nat, cur: nat, end: nat)
    requires Tree(phys, pd) && WindowInstalled(phys, pd, cur, end) && cur + n < end
    requires cur + n <= Boundary(cur)
    ensures var k := Query(phys, pd, n, cur, end);
            AllEmpty(phys, pd, cur, cur + k) && (k < n ==> Look(phys, pd, cur + k) != 0)
  {
    QueryInstalled(phys, pd, cur, end, n);
    TableWalk(cur, n);
    var s := cur / TABLE_LEN;
    if n > 0 {
      assert Tables(cur, n) == 1;
      OneTable(phys, pd, s, cur, n);
      var t := phys[Child(phys, pd, s)];
      var k := EmptyRun(t, cur % TABLE_LEN, n);
      assert Scan(phys, pd, s + 1, 0, cur + k, n - k) == 0;
    }
  }

  /** Without a crossing, the pages the search skips hold no usable start. */
  lemma SkipsNothing(phys: Memory, pd: nat, n: nat, lo: nat, cur: nat, end: nat, k: nat, p: nat)
    requires Tree(phys, pd) && WindowInstalled(phys, pd, cur, end)
    requires lo <= cur && cur + n < end && !Crossing(n, lo, end)
    requires k < n && cur <= p <= cur + k && k == Query(phys, pd, n, cur, end)
    ensures !Usable(phys, pd, n, lo, end, p)
  {
    hide Query, WindowInstalled, Tree, Look, Boundary;
    if cur + n <= Boundary(cur) {
      QueryInOneTable(phys, pd, n, cur, end);
      assert p <= cur + k < p + n;
    } else {
      BoundaryGrows(lo, cur);
      assert p == cur || p + n >= end;
    }
  }

  lemma BoundaryGrows(lo: nat, cur: nat)
    requires lo <= cur
    ensures Boundary(lo) <= Boundary(cur)
  {
  }

  lemma {:induction false} UncrossedIsFirstFit(phys: Memory, pd: nat, n: nat, lo: nat, cur: nat, end: nat)
    requires Tree(phys, pd) && WindowInstalled(phys, pd, cur, end) && lo <= cur && !Crossing(n, lo, end)
    ensures IsFirstUsable(phys, pd, n, cur, end, SearchFrom(phys, pd, n, cur, end))
    decreases if cur < end then end - cur else 0
  {
    hide SearchFrom, Query, AllEmpty, WindowInstalled, Tree, Crossing;
    SearchIsSound(phys, pd, n, cur, end);
    SearchEnds(phys, pd, n, cur, end);
    if cur + n < end {
      var k := Query(phys, pd, n, cur, end);
      if k != n {
        SearchStep(phys, pd, n, cur, end);
        UncrossedIsFirstFit(phys, pd, n, lo, cur + k + 1, end);
        forall p: nat | Usable(phys, pd, n, cur, end, p) ensures p > cur + k {
          if p <= cur + k {
            SkipsNothing(phys, pd, n, lo, cur, end, k, p);
          }
        }
        forall p: nat | Usable(phys, pd, n, cur, end, p)
          ensures 0 <= SearchFrom(phys, pd, n, cur, end) <= p
        {
          assert Usable(phys, pd, n, cur + k + 1, end, p);
        }
      }
    }
  }

  // ---- address spaces that defeat the search -----------------------------------------

  /** The start that gets skipped: the first one, after the window's own, whose
      predecessor is queried across the boundary. */
  function Skipped(n: nat, lo: nat): (p: nat)
    requires n >= 2
    ensures lo < p <= Boundary(lo) && p - 1 + n > Boundary(lo)
    ensures p == lo + 1 || p - 2 + n == Boundary(lo)
  {
    if lo + n > Boundary(lo) then lo + 1 else Boundary(lo) + 2 - n
  }

  lemma Layout(n: nat, lo: nat, end: nat)
    requires Crossing(n, lo, end) && end <= MAX_FRAMES
    ensures Skipped(n, lo) + n < end
    ensures Skipped(n, lo) - 1 + TABLE_LEN < MAX_FRAMES
  {
    assert Boundary(lo) < TABLE_LEN * TABLE_LEN;
  }

  /** The n pages from p on are empty, all pages of the window before them are
      occupied, and the page one table after p - 1 is empty. */
  ghost predicate Trapped(phys: Memory, pd: nat, n: nat, lo: nat, end: nat, p: nat) {
    && Tree(phys, pd) && WindowInstalled(phys, pd, lo, end)
    && lo < p && p + n < end && p - 1 + TABLE_LEN < MAX_FRAMES
    && (forall pg :: lo <= pg < p ==> Look(phys, pd, pg) != 0)
    && AllEmpty(phys, pd, p, p + n)
    && Look(phys, pd, p - 1 + TABLE_LEN) == 0
  }

  /** Up to p - 1 the search advances page by page. */
  lemma {:induction false} TrapReached(phys: Memory, pd: nat, n: nat, lo: nat, cur: nat, end: nat)
    requires Crossing(n, lo, end) && Trapped(phys, pd, n, lo, end, Skipped(n, lo))
    requires lo <= cur < Skipped(n, lo)
    ensures SearchFrom(phys, pd, n, cur, end) == SearchFrom(phys, pd, n, Skipped(n, lo) - 1, end)
    decreases Skipped(n, lo) - cur
  {
    hide SearchFrom, Query, WindowInstalled, Boundary, Tree, Skipped, Look;
    WindowFrom(phys, pd, lo, cur, end);
    WindowFrom(phys, pd, lo, Skipped(n, lo) - 1, end);
    if cur < Skipped(n, lo) - 1 {
      SameTable(lo, cur);
      QueryInOneTable(phys, pd, n, cur, end);
      assert Look(phys, pd, cur) != 0;
      assert Query(phys, pd, n, cur, end) == 0;
      SearchStep(phys, pd, n, cur, end);
      TrapReached(phys, pd, n, lo, cur + 1, end);
    }
  }

  lemma SameTable(lo: nat, cur: nat)
    requires lo <= cur < Boundary(lo)
    ensures cur / TABLE_LEN == lo / TABLE_LEN && Boundary(cur) == Boundary(lo)
  {
  }

  lemma NextTable(cur: nat)
    ensures (cur + TABLE_LEN) / TABLE_LEN == cur / TABLE_LEN + 1
    ensures (cur + TABLE_LEN) % TABLE_LEN == cur % TABLE_LEN
  {
  }

  /** There the query goes on into the next table and reports a page too many. */
  lemma TrapSprings(phys: Memory, pd: nat, n: nat, lo: nat, end: nat)
    requires Crossing(n, lo, end) && Trapped(phys, pd, n, lo, end, Skipped(n, lo))
    ensures 0 < Query(phys, pd, n, Skipped(n, lo) - 1, end) < n
  {
    hide WindowInstalled, IsTable;
    var cur := Skipped(n, lo) - 1;
    var s, i := cur / TABLE_LEN, cur % TABLE_LEN;
    SameTable(lo, cur);
    NextTable(cur);
    WindowFrom(phys, pd, lo, cur, end);
    QueryInstalled(phys, pd, cur, end, n);
    TableWalk(cur, n);
    assert Look(phys, pd, cur) != 0;
    assert Tables(cur, n) >= 2;
    SpringsInTables(phys, pd, s, Tables(cur, n), cur, n);
  }

  lemma WindowFrom(phys: Memory, pd: nat, lo: nat, cur: nat, end: nat)
    requires Tree(phys, pd) && WindowInstalled(phys, pd, lo, end) && lo <= cur
    ensures WindowInstalled(phys, pd, cur, end)
  {
  }

  lemma SpringsInTables(phys: Memory, pd: nat, s: nat, ptcount: nat, cur: nat, n: nat)
    requires Tree(phys, pd) && Installed(phys, pd, s, ptcount) && ptcount >= 2 && n > 0
    requires s == cur / TABLE_LEN && cur + TABLE_LEN < MAX_FRAMES
    requires Look(phys, pd, cur) != 0 && Look(phys, pd, cur + TABLE_LEN) == 0
    ensures Scan(phys, pd, s, ptcount, cur, n) > 0
  {
    NextTable(cur);
    var i := cur % TABLE_LEN;
    assert FrameOf(phys[Child(phys, pd, s)][i]) != 0;
    assert FrameOf(phys[Child(phys, pd, s + 1)][i]) == 0;
    assert EmptyRun(phys[Child(phys, pd, s)], i, n) == 0;
    assert EmptyRun(phys[Child(phys, pd, s + 1)], i, n) > 0;
  }

  /** Every address space of that shape makes the search miss its first usable
      start, and fail altogether if there is no room for another. */
  lemma TrappedMisses(phys: Memory, pd: nat, n: nat, lo: nat, end: nat)
    requires Crossing(n, lo, end) && Trapped(phys, pd, n, lo, end, Skipped(n, lo))
    ensures !IsFirstUsable(phys, pd, n, lo, end, SearchFrom(phys, pd, n, lo, end))
    ensures end == Skipped(n, lo) + n + 1 ==>
      SearchFrom(phys, pd, n, lo, end) == -ENOMEM && Usable(phys, pd, n, lo, end, Skipped(n, lo))
  {
    hide SearchFrom, Query, WindowInstalled, Boundary, Tree, AllEmpty, Skipped, Look;
    var p := Skipped(n, lo);
    TrapReached(phys, pd, n, lo, lo, end);
    TrapSprings(phys, pd, n, lo, end);
    WindowFrom(phys, pd, lo, p - 1, end);
    SearchStep(phys, pd, n, p - 1, end);
    SearchIsSound(phys, pd, n, p + Query(phys, pd, n, p - 1, end), end);
    assert Usable(phys, pd, n, lo, end, p);
  }
}
