/**
 When the search of `find_empty_pages` and the emptiness check keep what they
 promise, over all states the kernel's invariants allow: conditions on the
 arguments alone, each with states that show it cannot be relaxed.
 */
module SearchLimits {
  import opened Words
  import opened FrameMap
  import opened Accounting
  import opened FlatMap
  import opened Vmem32
  import opened PageRanges
  import opened WindowSearch
  import opened Vmem

  /** Frame map, physical memory and owners, with one address space in it. */
  datatype State = State(m: seq<Byte>, phys: Memory, own: seq<nat>, sh: Shares, pd: nat, tmp: nat)

  /** The books balance, the address space is well formed, and the page tables of
      the window are there and can be mapped. */
  ghost predicate Ready(st: State, lo: nat, end: nat) {
    && Accounted(st.m, st.phys, st.own, st.sh) && st.tmp !in st.sh.dirs
    && WellFormed(st.phys, st.pd, st.tmp) && st.pd in st.sh.dirs
    && WindowReady(st.phys, st.m, st.pd, lo, end)
  }

  /** The same with a temporary page left to look at the tables ... */
  ghost predicate Searchable(st: State, lo: nat, end: nat) {
    Ready(st, lo, end) && HasFree(st.phys[st.tmp]) && WindowInstalled(st.phys, st.pd, lo, end)
  }

  /** ... and without. */
  ghost predicate Blinded(st: State, lo: nat, end: nat) {
    Ready(st, lo, end) && !HasFree(st.phys[st.tmp]) && WindowInstalled(st.phys, st.pd, lo, end)
  }

  // ---- a state with any given pages occupied --------------------------------------------

  /** The directory is in frame 1, the page table of slot t in frame 2 + t, that of
      the temporary area being the temporary page table itself. Occupied pages map
      the frames from DATA on, 32 pages to a frame. */
  const DATA := 1026
  const SIZE := 33794
  const TMP := 257

  function Mapping(pg: nat): (e: Word)
    requires pg < MAX_FRAMES
    ensures FrameOf(e) == DATA + pg / 32
  {
    (DATA + pg / 32) * 4096 + 1
  }

  function PageEntry(occ: nat -> bool, pg: nat): (e: Word)
    requires pg < MAX_FRAMES
  {
    if occ(pg) then Mapping(pg) else 0
  }

  function TableOf(occ: nat -> bool, t: nat): (e: seq<Word>)
    requires t < TABLE_LEN
    ensures |e| == TABLE_LEN
    ensures forall i :: 0 <= i < TABLE_LEN ==> e[i] == PageEntry(occ, t * TABLE_LEN + i)
  {
    var e: seq<Word> := seq<Word>(TABLE_LEN, i requires 0 <= i < TABLE_LEN => PageEntry(occ, t * TABLE_LEN + i));
    e
  }

  function Directory(): (e: seq<Word>)
    ensures |e| == TABLE_LEN && forall t :: 0 <= t < TABLE_LEN ==> FrameOf(e[t]) == 2 + t
  {
    seq(TABLE_LEN, t requires 0 <= t < TABLE_LEN => (2 + t) * 4096 + 3)
  }

  function Space(occ: nat -> bool): (phys: Memory)
    ensures |phys| == SIZE && phys[1] == Directory()
    ensures forall t :: 0 <= t < TABLE_LEN ==> phys[2 + t] == TableOf(occ, t)
    ensures forall k :: 0 <= k < SIZE && !(1 <= k < DATA) ==> phys[k] == []
  {
    seq(SIZE, k requires 0 <= k < SIZE =>
      if k == 1 then Directory() else if 2 <= k < DATA then TableOf(occ, k - 2) else [])
  }

  // ---- counting its references ---------------------------------------------------------------

  /** A frame is named at most as often as there are places where it can be named. */
  lemma {:induction false} CountBound(t: seq<Word>, f: nat, a: nat, b: nat)
    requires a <= b && forall i :: 0 <= i < |t| && FrameOf(t[i]) == f ==> a <= i < b
    ensures CountIn(t, f) <= b - a
  {
    if t != [] {
      var n := |t| - 1;
      CountBound(t[..n], f, a, if FrameOf(t[n]) == f then n else b);
    }
  }

  lemma {:induction false} RefsBound(phys: Memory, f: nat, k: nat, a: nat, b: nat)
    requires a <= b
    requires forall j, i :: 0 <= j < |phys| && 0 <= i < |phys[j]| && FrameOf(phys[j][i]) == f ==> j == k && a <= i < b
    ensures Refs(phys, f) <= b - a
    ensures k >= |phys| ==> Refs(phys, f) == 0
  {
    if phys != [] {
      var n := |phys| - 1;
      RefsBound(phys[..n], f, k, a, b);
      if n == k {
        CountBound(phys[n], f, a, b);
      } else {
        CountBound(phys[n], f, 0, 0);
      }
    }
  }

  /** Where the space can name a frame: a table in its slot of the directory, a data
      frame in 32 consecutive entries of one table. */
  lemma NamedAt(occ: nat -> bool, j: nat, i: nat)
    requires j < SIZE && i < |Space(occ)[j]|
    ensures i < TABLE_LEN && 1 <= j < DATA
    ensures var f := FrameOf(Space(occ)[j][i]);
            && (j == 1 ==> f == 2 + i)
            && (j >= 2 ==> f == 0 || f == DATA + 32 * (j - 2) + i / 32)
  {
    if j >= 2 {
      assert Space(occ)[2 + (j - 2)] == TableOf(occ, j - 2);
      Thirty2(j - 2, i);
    }
  }

  lemma Thirty2(t: nat, i: nat)
    requires i < TABLE_LEN
    ensures (t * TABLE_LEN + i) / 32 == 32 * t + i / 32
  {
  }

  lemma SplitData(t: nat, i: nat, q: nat)
    requires i < TABLE_LEN && 32 * t + i / 32 == q
    ensures t == q / 32 && 32 * (q % 32) <= i < 32 * (q % 32) + 32
  {
  }

  lemma SpaceRefs(occ: nat -> bool, f: nat)
    requires 1 <= f < SIZE
    ensures Refs(Space(occ), f) <= 32
  {
    var phys := Space(occ);
    var q := if f >= DATA then f - DATA else 0;
    var k, a, b := if f < DATA then 1 else 2 + q / 32, if f < DATA then 0 else 32 * (q % 32), 0;
    b := if f < DATA then (if f < 2 then 0 else f - 1) else a + 32;
    a := if f < DATA then (if f < 2 then 0 else f - 2) else a;
    forall j, i | 0 <= j < |phys| && 0 <= i < |phys[j]| && FrameOf(phys[j][i]) == f ensures j == k && a <= i < b {
      NamedAt(occ, j, i);
      if j >= 2 {
        SplitData(j - 2, i, q);
      }
    }
    RefsBound(phys, f, k, a, b);
  }

  // ---- the books of the space -----------------------------------------------------------------

  /** Every frame is available memory with one owner. */
  ghost function Count(phys: Memory, f: nat): (b: Byte)
    ensures Refs(phys, f) <= 32 ==> GetRef(b) == 1 + Refs(phys, f)
    ensures 1 <= GetRef(b) <= 33
  {
    65 + if Refs(phys, f) <= 32 then Refs(phys, f) else 0
  }

  ghost function With(occ: nat -> bool): (st: State) {
    var phys := Space(occ);
    State(seq(SIZE, f requires 0 <= f < SIZE => Count(phys, f)), phys, seq(SIZE, _ => 1),
          Shares(seq(SIZE, _ => 0), {1}), 1, TMP)
  }

  lemma SpaceIsAccounted(occ: nat -> bool)
    ensures Accounted(With(occ).m, With(occ).phys, With(occ).own, With(occ).sh)
  {
    hide GetRef, FrameOf;
    var st := With(occ);
    var phys := Space(occ);
    forall k, i | 0 <= k < |phys| && 0 <= i < |phys[k]| ensures FrameOf(phys[k][i]) < |phys| {
      NamedAt(occ, k, i);
    }
    forall k | 0 <= k < |phys| ensures phys[k] == [] || (IsTable(phys, k) && k > 0) {
      if 2 <= k < DATA {
        assert phys[2 + (k - 2)] == TableOf(occ, k - 2);
      }
    }
    forall f | 1 <= f < |phys| ensures GetRef(st.m[f]) == st.own[f] + Refs(phys, f) {
      SpaceRefs(occ, f);
      assert st.m[f] == Count(phys, f);
    }
  }

  lemma SpaceIsWellFormed(occ: nat -> bool)
    ensures WellFormed(Space(occ), 1, TMP)
    ensures forall t :: 0 <= t < TABLE_LEN ==> Child(Space(occ), 1, t) == 2 + t
  {
    var phys := Space(occ);
    forall t | 0 <= t < TABLE_LEN ensures Child(phys, 1, t) == 2 + t && IsTable(phys, Child(phys, 1, t)) {
      assert phys[2 + t] == TableOf(occ, t);
    }
    assert phys[2 + 255] == TableOf(occ, 255);
  }

  lemma SpaceLook(occ: nat -> bool, pg: nat)
    requires pg < MAX_FRAMES
    ensures Tree(Space(occ), 1)
    ensures Look(Space(occ), 1, pg) == 0 <==> !occ(pg)
  {
    SpaceIsWellFormed(occ);
    var t, i := pg / TABLE_LEN, pg % TABLE_LEN;
    assert Space(occ)[2 + t] == TableOf(occ, t);
    assert t * TABLE_LEN + i == pg;
  }

  lemma SpaceIsReady(occ: nat -> bool, lo: nat, end: nat)
    requires end <= MAX_FRAMES && AvoidsTemp(lo, end)
    ensures Ready(With(occ), lo, end) && WindowInstalled(Space(occ), 1, lo, end)
    ensures HasFree(Space(occ)[TMP]) <==> !TempTaken(occ)
  {
    hide Accounted, WellFormed;
    SpaceIsAccounted(occ);
    SpaceIsWellFormed(occ);
    WellFormedTree(Space(occ), 1, TMP);
    var st, phys := With(occ), Space(occ);
    forall t | 0 <= t < TABLE_LEN ensures Child(phys, 1, t) != 0 && GetRef(st.m[Child(phys, 1, t)]) < MAX_REF {
      assert st.m[2 + t] == Count(phys, 2 + t);
    }
    TempEntries(occ);
  }

  ghost predicate TempTaken(occ: nat -> bool) {
    forall pg: nat :: TMP_PAGE <= pg < TMP_PAGE + TABLE_LEN ==> occ(pg)
  }

  lemma TempEntries(occ: nat -> bool)
    ensures HasFree(Space(occ)[TMP]) <==> !TempTaken(occ)
  {
    var t := Space(occ)[2 + 255];
    forall i: nat | i < TABLE_LEN ensures FrameOf(t[i]) == 0 <==> !occ(TMP_PAGE + i) {
      assert t[i] == PageEntry(occ, 255 * TABLE_LEN + i);
    }
    if !TempTaken(occ) {
      var pg: nat :| TMP_PAGE <= pg < TMP_PAGE + TABLE_LEN && !occ(pg);
      assert TMP_PAGE + (pg - TMP_PAGE) == pg;
      assert FrameOf(t[pg - TMP_PAGE]) == 0;
    }
  }

  // ---- the search ----------------------------------------------------------------------------

  /** A searchable state in which exactly the pages [lo, hi) of the window are occupied. */
  lemma Occupying(lo: nat, hi: nat, end: nat) returns (st: State)
    requires hi <= end <= MAX_FRAMES && AvoidsTemp(lo, end)
    ensures Searchable(st, lo, end)
    ensures forall pg: nat :: pg < MAX_FRAMES ==> (Look(st.phys, st.pd, pg) != 0 <==> lo <= pg < hi)
  {
    hide Ready, HasFree, WindowInstalled, Space;
    var occ: nat -> bool := pg => lo <= pg < hi;
    st := With(occ);
    SpaceIsReady(occ, lo, end);
    assert !occ(TMP_PAGE);
    SpaceIsWellFormed(occ);
    forall pg: nat | pg < MAX_FRAMES ensures Look(st.phys, st.pd, pg) != 0 <==> lo <= pg < hi {
      SpaceLook(occ, pg);
    }
  }

  lemma SearchableFacts(st: State, lo: nat, end: nat)
    requires Searchable(st, lo, end)
    ensures Tree(st.phys, st.pd) && WindowInstalled(st.phys, st.pd, lo, end) && end <= MAX_FRAMES
  {
  }

  lemma TrapExists(n: nat, lo: nat, end: nat) returns (st: State)
    requires Crossing(n, lo, end) && end <= MAX_FRAMES && AvoidsTemp(lo, end)
    ensures Searchable(st, lo, end) && Trapped(st.phys, st.pd, n, lo, end, Skipped(n, lo))
  {
    hide Searchable, WindowInstalled, Look;
    Layout(n, lo, end);
    st := Occupying(lo, Skipped(n, lo), end);
    SearchableFacts(st, lo, end);
  }

  /** Measured by the starts the loop admits, the search is first fit in every state
      if and only if no query but the last can span two tables. */
  lemma FirstUsableIffUncrossed(n: nat, lo: nat, end: nat)
    requires end <= MAX_FRAMES && AvoidsTemp(lo, end)
    ensures (forall st :: Searchable(st, lo, end) ==>
               IsFirstUsable(st.phys, st.pd, n, lo, end, SearchFrom(st.phys, st.pd, n, lo, end)))
       <==> !Crossing(n, lo, end)
  {
    hide IsFirstUsable, SearchFrom;
    if Crossing(n, lo, end) {
      var st := TrapExists(n, lo, end);
      TrappedMisses(st.phys, st.pd, n, lo, end);
    } else {
      forall st | Searchable(st, lo, end)
        ensures IsFirstUsable(st.phys, st.pd, n, lo, end, SearchFrom(st.phys, st.pd, n, lo, end))
      {
        UncrossedIsFirstFit(st.phys, st.pd, n, lo, lo, end);
      }
    }
  }

  /** The window and the request leave nothing to get wrong: no start fits, or no page
      is asked for in a window that has one. */
  predicate Trivial(n: nat, lo: nat, end: nat) {
    end < lo + n || (n == 0 && lo < end)
  }

  lemma TrivialIsFirstFit(phys: Memory, pd: nat, n: nat, lo: nat, end: nat)
    requires Tree(phys, pd) && WindowInstalled(phys, pd, lo, end) && Trivial(n, lo, end)
    ensures IsFirstFitting(phys, pd, n, lo, end, SearchFrom(phys, pd, n, lo, end))
  {
    SearchEnds(phys, pd, n, lo, end);
    if n == 0 && lo < end {
      assert Query(phys, pd, n, lo, end) == 0;
      assert Fits(phys, pd, n, lo, end, lo);
    }
  }

  /** In any other window there is a state whose only fitting start is the last one. */
  lemma OnlyLastFits(n: nat, lo: nat, end: nat) returns (st: State)
    requires end <= MAX_FRAMES && AvoidsTemp(lo, end) && !Trivial(n, lo, end)
    ensures Searchable(st, lo, end)
    ensures Tree(st.phys, st.pd) && Fits(st.phys, st.pd, n, lo, end, end - n)
    ensures forall p: nat :: Fits(st.phys, st.pd, n, lo, end, p) ==> p + n == end
  {
    hide Searchable, Look;
    st := Occupying(lo, end - n, end);
    SearchableFacts(st, lo, end);
    forall p: nat | Fits(st.phys, st.pd, n, lo, end, p) ensures p + n == end {
      if n > 0 {
        assert Look(st.phys, st.pd, p) == 0;
      }
    }
  }

  /** Measured by the starts that fit the window, the search is first fit in every
      state only where nothing can go wrong: any window with room for one or more
      pages has a state in which the only room is at its end and the search fails. */
  lemma FirstFitIffTrivial(n: nat, lo: nat, end: nat)
    requires end <= MAX_FRAMES && AvoidsTemp(lo, end)
    ensures (forall st :: Searchable(st, lo, end) ==>
               IsFirstFitting(st.phys, st.pd, n, lo, end, SearchFrom(st.phys, st.pd, n, lo, end)))
       <==> Trivial(n, lo, end)
  {
    hide SearchFrom, Fits;
    if Trivial(n, lo, end) {
      forall st | Searchable(st, lo, end)
        ensures IsFirstFitting(st.phys, st.pd, n, lo, end, SearchFrom(st.phys, st.pd, n, lo, end))
      {
        TrivialIsFirstFit(st.phys, st.pd, n, lo, end);
      }
    } else {
      var st := OnlyLastFits(n, lo, end);
      LastStartIsMissed(st.phys, st.pd, n, lo, end);
    }
  }

  // ---- the emptiness check without a temporary page -----------------------------------------

  /** A state without a free temporary page, its window empty but for page pg if asked. */
  lemma Blinding(lo: nat, end: nat, pg: nat, taken: bool) returns (st: State)
    requires end <= MAX_FRAMES && AvoidsTemp(lo, end) && lo <= pg < end
    ensures Blinded(st, lo, end) && Tree(st.phys, st.pd)
    ensures forall q: nat :: lo <= q < end ==> (Look(st.phys, st.pd, q) != 0 <==> taken && q == pg)
  {
    hide Ready, HasFree, WindowInstalled, Space;
    var occ: nat -> bool := q => TMP_PAGE <= q < TMP_PAGE + TABLE_LEN || (taken && q == pg);
    st := With(occ);
    SpaceIsReady(occ, lo, end);
    SpaceIsWellFormed(occ);
    forall q: nat | lo <= q < end ensures Look(st.phys, st.pd, q) != 0 <==> taken && q == pg {
      SpaceLook(occ, q);
    }
  }

  /** Occupied pages are reported empty: in any range that stays in one table (or is
      otherwise reported full), any page may be occupied. */
  lemma BlindHidesPages(pg: nat, count: nat, q: nat) returns (st: State)
    requires pg + count <= MAX_FRAMES && AvoidsTemp(pg, pg + count) && BlindFull(pg, count)
    requires pg <= q < pg + count
    ensures Blinded(st, pg, pg + count) && Tree(st.phys, st.pd) && Look(st.phys, st.pd, q) != 0
    ensures TableCount(PageAddress(pg), PageMemory(count)) * Min(count, TABLE_LEN - pg % TABLE_LEN) == count
  {
    hide Blinded, Look;
    st := Blinding(pg, pg + count, q, true);
    NotTheWholeSpace(pg, count);
    BlindReport(pg, count);
  }

  /** Without a free temporary page a report of the full count is BlindFull, whatever the
      pages hold. So the report is right in one state if BlindFull and emptiness agree
      there, and right in all of them if and only if there is no page to report on. */
  lemma BlindIsRightIff(pg: nat, count: nat)
    requires pg + count <= MAX_FRAMES && AvoidsTemp(pg, pg + count)
    ensures (forall st :: Blinded(st, pg, pg + count) ==>
               (BlindFull(pg, count) <==> AllEmpty(st.phys, st.pd, pg, pg + count)))
       <==> count == 0
  {
    hide BlindFull, Look, Accounted, HasFree, WindowInstalled, WindowReady;
    if count == 0 {
      BlindNothing(pg);
    } else {
      var full := Blinding(pg, pg + count, pg, true);
      var free := Blinding(pg, pg + count, pg, false);
      assert Look(full.phys, full.pd, pg) != 0;
      assert !AllEmpty(full.phys, full.pd, pg, pg + count);
      assert AllEmpty(free.phys, free.pd, pg, pg + count);
    }
  }

  lemma BlindNothing(pg: nat)
    ensures BlindFull(pg, 0)
  {
  }
}
