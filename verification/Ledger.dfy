/**
 What a range operation spends: which frames it takes from the allocator, what it
 does to their counts and owners, and that it leaves all other frames alone.
 */
module Ledger {
  import opened Words
  import opened FrameMap
  import opened Accounting
  import opened FlatMap
  import opened Paging
  import opened Vmem32

  /** One reference more for the frame c, if there is one. */
  function Extra(f: nat, c: nat): (n: nat) {
    One(f == c && c > 0)
  }

  /** The frames in `used` could be allocated; now they have one owner and are named by
      one entry. Every other frame keeps count, type and owners. The table in frame c,
      if any, has been left mapped and is counted once more. */
  ghost predicate Spent(m0: seq<Byte>, own0: seq<nat>, m: seq<Byte>, own: seq<nat>, used: set<nat>, c: nat) {
    && |m0| == |own0| == |m| == |own|
    && (forall f :: f in used ==>
          && 1 <= f < |m0| && IsAllocable(m0[f])
          && GetRef(m[f]) == 2 + Extra(f, c) && GetType(m[f]) == GetType(m0[f]) && own[f] == 1)
    && (forall f :: 0 <= f < |m0| && f !in used ==>
          && GetRef(m[f]) == GetRef(m0[f]) + Extra(f, c) && GetType(m[f]) == GetType(m0[f])
          && own[f] == own0[f])
  }

  /** The same of the owners alone. */
  ghost predicate OwnersSpent(own0: seq<nat>, own: seq<nat>, used: set<nat>) {
    |own| == |own0| && forall f :: 0 <= f < |own0| ==> own[f] == if f in used then 1 else own0[f]
  }

  /** Without a table left mapped, the bytes of unused frames are the same. */
  lemma UnspentBytes(m0: seq<Byte>, own0: seq<nat>, m: seq<Byte>, own: seq<nat>, used: set<nat>, f: nat)
    requires Spent(m0, own0, m, own, used, 0) && f < |m0| && f !in used
    ensures m[f] == m0[f]
  {
    assert m[f] == GetType(m[f]) + GetRef(m[f]);
  }

  lemma SpentPage(m0: seq<Byte>, own0: seq<nat>, m: seq<Byte>, own: seq<nat>, m': seq<Byte>, used: set<nat>, f: nat)
    requires Spent(m0, own0, m, own, used, 0)
    requires 0 < f < |m| && IsAllocable(m[f]) && RefMoved(RefRange(m, f, f + 1), m', f, 0) && m'[0] == m[0]
    ensures Spent(m0, own0, m', own[f := 1], used + {f}, 0)
  {
    assert f !in used;
    forall g | 1 <= g < |m|
      ensures GetType(m'[g]) == GetType(m[g]) && GetRef(m'[g]) == if g == f then 2 else GetRef(m[g])
    {
      CountStaysInItsBits(m[g]);
    }
  }

  lemma SpentThen(m0: seq<Byte>, own0: seq<nat>, m1: seq<Byte>, own1: seq<nat>, m2: seq<Byte>, own2: seq<nat>,
                  used1: set<nat>, c1: nat, used2: set<nat>, c2: nat)
    requires Spent(m0, own0, m1, own1, used1, c1) && Spent(m1, own1, m2, own2, used2, c2)
    requires c1 == 0 || c2 == 0
    ensures Spent(m0, own0, m2, own2, used1 + used2, if c1 == 0 then c2 else c1)
  {
    forall f | f in used2 ensures f !in used1 && (c1 > 0 ==> f != c1) {
      assert GetRef(m1[f]) == 0;
    }
  }

  lemma SpentUnmapped(m0: seq<Byte>, own0: seq<nat>, m: seq<Byte>, own: seq<nat>, m': seq<Byte>, used: set<nat>, c: nat)
    requires Spent(m0, own0, m, own, used, c) && c > 0
    requires RefMoved(m, m', 0, c) && |m| > 0 && m'[0] == m[0]
    ensures Spent(m0, own0, m', own, used, 0)
  {
  }

  // ---- the frames of pages and of new tables ---------------------------------------------

  ghost function PageFrames(phys: Memory, pd: nat, lo: nat, hi: nat): (r: set<nat>)
    requires Tree(phys, pd) && hi <= MAX_FRAMES
  {
    set pg | lo <= pg < hi :: Look(phys, pd, pg)
  }

  /** The tables that have been installed. */
  ghost function NewTables(phys0: Memory, phys: Memory, pd: nat): (r: set<nat>)
    requires IsTable(phys0, pd) && IsTable(phys, pd)
  {
    set s | 0 <= s < TABLE_LEN && Child(phys0, pd, s) == 0 && Child(phys, pd, s) != 0 :: Child(phys, pd, s)
  }

  /** Directory entries are only added, and only in slots of the range; they are present and
      writeable. */
  ghost predicate DirKept(phys0: Memory, phys: Memory, pd: nat, lo: nat, hi: nat)
    requires IsTable(phys0, pd) && IsTable(phys, pd)
  {
    && (forall t :: 0 <= t < TABLE_LEN && (t < lo / TABLE_LEN || hi <= t * TABLE_LEN || Child(phys0, pd, t) != 0) ==>
          phys[pd][t] == phys0[pd][t])
    && (forall t :: 0 <= t < TABLE_LEN && phys[pd][t] != phys0[pd][t] ==>
          phys[pd][t] == PdeCreate(Child(phys, pd, t), TEMP_FLAGS))
  }

  lemma SameFrames(phys: Memory, phys': Memory, pd: nat, lo: nat, hi: nat)
    requires Tree(phys, pd) && Tree(phys', pd) && hi <= MAX_FRAMES
    requires forall pg :: lo <= pg < hi ==> Entry(phys', pd, pg) == Entry(phys, pd, pg)
    ensures PageFrames(phys', pd, lo, hi) == PageFrames(phys, pd, lo, hi)
  {
    assert forall pg :: lo <= pg < hi ==> Look(phys', pd, pg) == Look(phys, pd, pg);
  }

  lemma JoinFrames(phys: Memory, pd: nat, lo: nat, mid: nat, hi: nat)
    requires Tree(phys, pd) && lo <= mid <= hi <= MAX_FRAMES
    ensures PageFrames(phys, pd, lo, hi) == PageFrames(phys, pd, lo, mid) + PageFrames(phys, pd, mid, hi)
  {
    forall f | f in PageFrames(phys, pd, lo, hi)
      ensures f in PageFrames(phys, pd, lo, mid) || f in PageFrames(phys, pd, mid, hi)
    {
      var pg :| lo <= pg < hi && Look(phys, pd, pg) == f;
      assert pg < mid || mid <= pg;
    }
  }

  lemma JoinTables(phys0: Memory, phys1: Memory, phys2: Memory, pd: nat, lo: nat, mid: nat, hi: nat)
    requires IsTable(phys0, pd) && IsTable(phys1, pd) && IsTable(phys2, pd) && lo <= mid
    requires DirKept(phys0, phys1, pd, lo, hi) && DirKept(phys1, phys2, pd, mid, hi)
    ensures DirKept(phys0, phys2, pd, lo, hi)
    ensures NewTables(phys0, phys2, pd) == NewTables(phys0, phys1, pd) + NewTables(phys1, phys2, pd)
  {
    forall s | 0 <= s < TABLE_LEN && Child(phys1, pd, s) != 0 ensures Child(phys2, pd, s) == Child(phys1, pd, s) {
    }
    forall s | 0 <= s < TABLE_LEN && Child(phys0, pd, s) != 0 ensures Child(phys1, pd, s) == Child(phys0, pd, s) {
    }
    assert lo / TABLE_LEN <= mid / TABLE_LEN;
  }

  /** Where no table was missing, none was added. */
  lemma NoNewTables(phys0: Memory, phys: Memory, pd: nat, lo: nat, hi: nat)
    requires IsTable(phys0, pd) && IsTable(phys, pd) && DirKept(phys0, phys, pd, lo, hi)
    requires forall t :: lo / TABLE_LEN <= t < TABLE_LEN && t * TABLE_LEN < hi ==> Child(phys0, pd, t) != 0
    ensures NewTables(phys0, phys, pd) == {} && phys[pd] == phys0[pd]
  {
    assert forall t :: 0 <= t < TABLE_LEN ==> phys[pd][t] == phys0[pd][t];
  }

  // ---- filling a mapped table ------------------------------------------------------------

  /** Pages [lo, hi) have been filled with newly allocated frames; counts are only
      claimed if they were empty. */
  ghost predicate Filled(m0: seq<Byte>, own0: seq<nat>, phys: Memory, m: seq<Byte>, own: seq<nat>,
                         pd: nat, lo: nat, hi: nat, empty: bool)
  {
    && Tree(phys, pd) && hi <= MAX_FRAMES
    && OwnersSpent(own0, own, PageFrames(phys, pd, lo, hi))
    && (empty ==> Spent(m0, own0, m, own, PageFrames(phys, pd, lo, hi), 0))
  }

  lemma FilledNone(m: seq<Byte>, own: seq<nat>, phys: Memory, pd: nat, pg: nat, empty: bool)
    requires Tree(phys, pd) && pg <= MAX_FRAMES && |m| == |own|
    ensures Filled(m, own, phys, m, own, pd, pg, pg, empty)
  {
  }

  lemma FilledStep(m0: seq<Byte>, own0: seq<nat>, phys: Memory, m: seq<Byte>, own: seq<nat>,
                   phys': Memory, m': seq<Byte>, pd: nat, lo: nat, pg: nat, f: nat, empty: bool)
    requires Filled(m0, own0, phys, m, own, pd, lo, pg, empty) && lo <= pg < MAX_FRAMES
    requires Tree(phys', pd) && SameOutside(phys, phys', pd, pg, pg + 1) && Look(phys', pd, pg) == f
    requires |m| == |own| && 0 < f < |m| && IsAllocable(m[f])
    requires empty ==> RefMoved(RefRange(m, f, f + 1), m', f, 0) && m'[0] == m[0]
    ensures Filled(m0, own0, phys', m', own[f := 1], pd, lo, pg + 1, empty)
  {
    hide Spent, Look;
    SameFrames(phys, phys', pd, lo, pg);
    JoinFrames(phys', pd, lo, pg, pg + 1);
    OneFrame(phys', pd, pg, f);
    if empty {
      SpentPage(m0, own0, m, own, m', PageFrames(phys, pd, lo, pg), f);
    }
  }

  lemma OneFrame(phys: Memory, pd: nat, pg: nat, f: nat)
    requires Tree(phys, pd) && pg < MAX_FRAMES && Look(phys, pd, pg) == f
    ensures PageFrames(phys, pd, pg, pg + 1) == {f}
  {
  }

  // ---- the books of a range ---------------------------------------------------------------

  /** Pages [lo, mid) of the range [lo, hi) have been filled, tables having been created
      on the way. */
  ghost predicate Books(phys0: Memory, m0: seq<Byte>, own0: seq<nat>, phys: Memory, m: seq<Byte>, own: seq<nat>,
                        pd: nat, lo: nat, mid: nat, hi: nat, c: nat, empty: bool)
  {
    && Tree(phys0, pd) && Tree(phys, pd) && mid <= MAX_FRAMES
    && DirKept(phys0, phys, pd, lo, hi)
    && var used := PageFrames(phys, pd, lo, mid) + NewTables(phys0, phys, pd);
    OwnersSpent(own0, own, used) && (empty ==> Spent(m0, own0, m, own, used, c))
  }

  lemma BooksStart(phys: Memory, m: seq<Byte>, own: seq<nat>, pd: nat, lo: nat, hi: nat, empty: bool)
    requires Tree(phys, pd) && lo <= MAX_FRAMES && |m| == |own|
    ensures Books(phys, m, own, phys, m, own, pd, lo, lo, hi, 0, empty)
  {
    assert PageFrames(phys, pd, lo, lo) == {} && NewTables(phys, phys, pd) == {};
  }

  /** Mapping a table spends its frame if it is new. */
  lemma TableSpent(phys0: Memory, m0: seq<Byte>, own0: seq<nat>, phys1: Memory, m1: seq<Byte>, own1: seq<nat>,
                   pd: nat, tmp: nat, s: nat, j: nat)
    requires TableReached(phys0, phys1, pd, tmp, s, j)
    requires TableCounted(phys0, m0, own0, m1, own1, Child(phys1, pd, s))
    ensures var c := Child(phys1, pd, s);
            && NewTables(phys0, phys1, pd) == (if Child(phys0, pd, s) == 0 then {c} else {})
            && Spent(m0, own0, m1, own1, NewTables(phys0, phys1, pd), c)
            && OwnersSpent(own0, own1, NewTables(phys0, phys1, pd))
            && (forall t :: 0 <= t < TABLE_LEN && (t != s || Child(phys0, pd, t) != 0) ==> phys1[pd][t] == phys0[pd][t])
  {
    var c := Child(phys1, pd, s);
    assert forall t :: 0 <= t < TABLE_LEN && t != s ==> Child(phys1, pd, t) == Child(phys0, pd, t);
    if Child(phys0, pd, s) != 0 {
      assert IsTable(phys0, c);
    }
  }

  /** After the pages have been filled and before the table is unmapped. */
  lemma BooksMapped(phys0: Memory, m0: seq<Byte>, own0: seq<nat>, phys1: Memory, m1: seq<Byte>, own1: seq<nat>,
                    phys2: Memory, m2: seq<Byte>, own2: seq<nat>,
                    pd: nat, tmp: nat, s: nat, j: nat, lo: nat, mid: nat, hi: nat, empty: bool)
    requires TableReached(phys0, phys1, pd, tmp, s, j)
    requires TableCounted(phys0, m0, own0, m1, own1, Child(phys1, pd, s))
    requires Filled(m1, own1, phys2, m2, own2, pd, lo, mid, empty) && phys2[pd] == phys1[pd]
    requires s == lo / TABLE_LEN && lo < hi
    ensures Books(phys0, m0, own0, phys2, m2, own2, pd, lo, mid, hi, Child(phys1, pd, s), empty)
  {
    hide Spent, SameOutside, OthersKept, TableCounted, PageFrames;
    TableSpent(phys0, m0, own0, phys1, m1, own1, pd, tmp, s, j);
    assert NewTables(phys0, phys2, pd) == NewTables(phys0, phys1, pd);
    if empty {
      SpentThen(m0, own0, m1, own1, m2, own2, NewTables(phys0, phys1, pd), Child(phys1, pd, s),
                PageFrames(phys2, pd, lo, mid), 0);
      assert NewTables(phys0, phys1, pd) + PageFrames(phys2, pd, lo, mid)
          == PageFrames(phys2, pd, lo, mid) + NewTables(phys0, phys2, pd);
    }
  }

  lemma BooksUnmapped(phys0: Memory, m0: seq<Byte>, own0: seq<nat>, phys: Memory, m: seq<Byte>, own: seq<nat>,
                      phys': Memory, m': seq<Byte>, pd: nat, lo: nat, mid: nat, hi: nat, c: nat, empty: bool)
    requires Books(phys0, m0, own0, phys, m, own, pd, lo, mid, hi, c, empty) && c > 0
    requires Tree(phys', pd) && phys'[pd] == phys[pd]
    requires forall pg :: lo <= pg < mid ==> Entry(phys', pd, pg) == Entry(phys, pd, pg)
    requires RefMoved(m, m', 0, c) && |m| > 0 && m'[0] == m[0]
    ensures Books(phys0, m0, own0, phys', m', own, pd, lo, mid, hi, 0, empty)
  {
    hide Spent, PageFrames;
    SameFrames(phys, phys', pd, lo, mid);
    assert NewTables(phys0, phys', pd) == NewTables(phys0, phys, pd);
    if empty {
      SpentUnmapped(m0, own0, m, own, m', PageFrames(phys, pd, lo, mid) + NewTables(phys0, phys, pd), c);
    }
  }

  lemma BooksJoin(phys0: Memory, m0: seq<Byte>, own0: seq<nat>, phys1: Memory, m1: seq<Byte>, own1: seq<nat>,
                  phys2: Memory, m2: seq<Byte>, own2: seq<nat>,
                  pd: nat, lo: nat, mid: nat, at: nat, hi: nat, c: nat, empty: bool)
    requires Books(phys0, m0, own0, phys1, m1, own1, pd, lo, mid, hi, 0, empty)
    requires Books(phys1, m1, own1, phys2, m2, own2, pd, mid, at, hi, c, empty)
    requires lo <= mid <= at
    requires forall pg :: lo <= pg < mid ==> Entry(phys2, pd, pg) == Entry(phys1, pd, pg)
    ensures Books(phys0, m0, own0, phys2, m2, own2, pd, lo, at, hi, c, empty)
  {
    hide Spent, PageFrames, NewTables, DirKept;
    var u1 := PageFrames(phys1, pd, lo, mid) + NewTables(phys0, phys1, pd);
    var u2 := PageFrames(phys2, pd, mid, at) + NewTables(phys1, phys2, pd);
    SameFrames(phys1, phys2, pd, lo, mid);
    JoinFrames(phys2, pd, lo, mid, at);
    JoinTables(phys0, phys1, phys2, pd, lo, mid, hi);
    assert PageFrames(phys2, pd, lo, at) + NewTables(phys0, phys2, pd) == u1 + u2;
    if empty {
      SpentThen(m0, own0, m1, own1, m2, own2, u1, 0, u2, c);
    }
  }

  // ---- operations that map given frames ----------------------------------------------------

  /** Owners change only by the tables created. */
  ghost predicate TableBooks(phys0: Memory, own0: seq<nat>, phys: Memory, own: seq<nat>, pd: nat, lo: nat, hi: nat) {
    && IsTable(phys0, pd) && IsTable(phys, pd) && DirKept(phys0, phys, pd, lo, hi)
    && OwnersSpent(own0, own, NewTables(phys0, phys, pd))
  }

  lemma TableBooksStart(phys: Memory, own: seq<nat>, pd: nat, lo: nat, hi: nat)
    requires IsTable(phys, pd)
    ensures TableBooks(phys, own, phys, own, pd, lo, hi)
  {
  }

  lemma TableBooksMapped(phys0: Memory, m0: seq<Byte>, own0: seq<nat>, phys1: Memory, m1: seq<Byte>, own1: seq<nat>,
                         phys2: Memory, pd: nat, tmp: nat, s: nat, j: nat, lo: nat, hi: nat)
    requires TableReached(phys0, phys1, pd, tmp, s, j)
    requires TableCounted(phys0, m0, own0, m1, own1, Child(phys1, pd, s))
    requires IsTable(phys2, pd) && phys2[pd] == phys1[pd] && s == lo / TABLE_LEN && lo < hi
    ensures TableBooks(phys0, own0, phys2, own1, pd, lo, hi)
  {
    hide Spent, SameOutside, OthersKept, TableCounted;
    TableSpent(phys0, m0, own0, phys1, m1, own1, pd, tmp, s, j);
    assert NewTables(phys0, phys2, pd) == NewTables(phys0, phys1, pd);
  }

  lemma TableBooksJoin(phys0: Memory, own0: seq<nat>, phys1: Memory, own1: seq<nat>, phys2: Memory, own2: seq<nat>,
                       pd: nat, lo: nat, mid: nat, hi: nat)
    requires TableBooks(phys0, own0, phys1, own1, pd, lo, hi) && TableBooks(phys1, own1, phys2, own2, pd, mid, hi)
    requires lo <= mid
    ensures TableBooks(phys0, own0, phys2, own2, pd, lo, hi)
  {
    hide DirKept;
    JoinTables(phys0, phys1, phys2, pd, lo, mid, hi);
  }

  lemma NoTablesNoOwners(phys0: Memory, own0: seq<nat>, phys: Memory, own: seq<nat>, pd: nat, lo: nat, hi: nat)
    requires TableBooks(phys0, own0, phys, own, pd, lo, hi)
    requires forall t :: lo / TABLE_LEN <= t < TABLE_LEN && t * TABLE_LEN < hi ==> Child(phys0, pd, t) != 0
    ensures own == own0
  {
    NoNewTables(phys0, phys, pd, lo, hi);
  }
}
