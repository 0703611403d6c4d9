/**
 What `vmem_32_check_empty_pages` reports, said of pages alone: one run of empty pages
 per table, each starting where the walk then looks.
 */
module Reports {
  import opened Words
  import opened Accounting
  import opened FlatMap

  /** n is the length of the longest run of empty pages from page q on that is at most
      limit pages long. */
  ghost predicate IsRunFrom(phys: Memory, pd: nat, q: nat, limit: nat, n: nat)
    requires Tree(phys, pd) && q + limit <= MAX_FRAMES
  {
    n <= limit && AllEmpty(phys, pd, q, q + n) && (n < limit ==> Look(phys, pd, q + n) != 0)
  }

  lemma RunIsUnique(phys: Memory, pd: nat, q: nat, limit: nat, n: nat, n': nat)
    requires Tree(phys, pd) && q + limit <= MAX_FRAMES
    requires IsRunFrom(phys, pd, q, limit, n) && IsRunFrom(phys, pd, q, limit, n')
    ensures n == n'
  {
  }

  function Sum(ns: seq<nat>): (n: nat) {
    if ns == [] then 0 else ns[0] + Sum(ns[1..])
  }

  function Least(a: nat, b: nat): (m: nat) {
    if a < b then a else b
  }

  /** Where the walk looks in table s, with position pg: at the entry of that table that pg
      has in its own, which is page pg itself only if pg lies in the table. */
  function Seen(s: nat, pg: nat): (q: nat) {
    s * TABLE_LEN + pg % TABLE_LEN
  }

  /** n pages are counted in table s: the longest run of empty pages from where the walk
      looks, inside the table and the count that is left. */
  ghost predicate RunAt(phys: Memory, pd: nat, s: nat, pg: nat, count: nat, n: nat)
    requires Tree(phys, pd) && s < TABLE_LEN
  {
    IsRunFrom(phys, pd, Seen(s, pg), Least(count, TABLE_LEN - pg % TABLE_LEN), n)
  }

  /** The numbers of pages counted in the tables from s on. The position moves on by the
      pages counted, and by nothing else. */
  ghost predicate Counts(phys: Memory, pd: nat, s: nat, pg: nat, count: nat, ns: seq<nat>)
    requires Tree(phys, pd) && s + |ns| <= TABLE_LEN
  {
    forall j :: 0 <= j < |ns| ==>
      var d := Sum(ns[..j]);
      d <= count && RunAt(phys, pd, s + j, pg + d, count - d, ns[j])
  }

  lemma CountsAt(phys: Memory, pd: nat, s: nat, pg: nat, count: nat, ns: seq<nat>, j: nat)
    requires Tree(phys, pd) && s + |ns| <= TABLE_LEN && j < |ns| && Counts(phys, pd, s, pg, count, ns)
    ensures Sum(ns[..j]) <= count && RunAt(phys, pd, s + j, pg + Sum(ns[..j]), count - Sum(ns[..j]), ns[j])
  {
  }

  lemma RunAtIsUnique(phys: Memory, pd: nat, s: nat, pg: nat, count: nat, n: nat, n': nat)
    requires Tree(phys, pd) && s < TABLE_LEN
    requires RunAt(phys, pd, s, pg, count, n) && RunAt(phys, pd, s, pg, count, n')
    ensures n == n' <= count
  {
    RunIsUnique(phys, pd, Seen(s, pg), Least(count, TABLE_LEN - pg % TABLE_LEN), n, n');
  }

  /** One table of the walk, as a run of pages. */
  lemma TableRun(phys: Memory, pd: nat, s: nat, pg: nat, count: nat)
    requires Tree(phys, pd) && s < TABLE_LEN && Child(phys, pd, s) != 0
    ensures RunAt(phys, pd, s, pg, count, EmptyRun(phys[Child(phys, pd, s)], pg % TABLE_LEN, count))
  {
    var t, i := phys[Child(phys, pd, s)], pg % TABLE_LEN;
    var n, q := EmptyRun(t, i, count), Seen(s, pg);
    EmptyRunIsMaximal(t, i, count);
    forall p: nat | q <= p < (s + 1) * TABLE_LEN ensures Look(phys, pd, p) == FrameOf(t[p - s * TABLE_LEN]) {
      assert p / TABLE_LEN == s && p % TABLE_LEN == p - s * TABLE_LEN;
    }
  }

  /** The walk reports the sum of those numbers. */
  lemma {:induction false} ScanCounts(phys: Memory, pd: nat, s: nat, ptcount: nat, pg: nat, count: nat)
    returns (ns: seq<nat>)
    requires Tree(phys, pd) && Installed(phys, pd, s, ptcount)
    ensures |ns| == ptcount && Counts(phys, pd, s, pg, count, ns)
    ensures Scan(phys, pd, s, ptcount, pg, count) == Sum(ns)
    decreases ptcount
  {
    hide RunAt, Counts, EmptyRun;
    if ptcount == 0 {
      NoCounts(phys, pd, s, pg, count);
      return [];
    }
    var n := EmptyRun(phys[Child(phys, pd, s)], pg % TABLE_LEN, count);
    TableRun(phys, pd, s, pg, count);
    var rest := ScanCounts(phys, pd, s + 1, ptcount - 1, pg + n, count - n);
    ns := [n] + rest;
    CountsJoin(phys, pd, s, pg, count, n, rest);
    assert ns[1..] == rest;
  }

  lemma NoCounts(phys: Memory, pd: nat, s: nat, pg: nat, count: nat)
    requires Tree(phys, pd) && s <= TABLE_LEN
    ensures Counts(phys, pd, s, pg, count, [])
  {
  }

  lemma CountsJoin(phys: Memory, pd: nat, s: nat, pg: nat, count: nat, n: nat, rest: seq<nat>)
    requires Tree(phys, pd) && s + 1 + |rest| <= TABLE_LEN && n <= count
    requires RunAt(phys, pd, s, pg, count, n)
    requires Counts(phys, pd, s + 1, pg + n, count - n, rest)
    ensures Counts(phys, pd, s, pg, count, [n] + rest)
  {
    hide RunAt;
    var ns := [n] + rest;
    forall j | 0 <= j < |ns|
      ensures var d := Sum(ns[..j]);
              d <= count && RunAt(phys, pd, s + j, pg + d, count - d, ns[j])
    {
      if j == 0 {
        assert ns[..0] == [];
      } else {
        CountsAt(phys, pd, s + 1, pg + n, count - n, rest, j - 1);
        assert ns[..j][1..] == rest[..j - 1];
        assert Sum(ns[..j]) == n + Sum(rest[..j - 1]);
        assert ns[j] == rest[j - 1];
      }
    }
  }

  /** These numbers are determined by the pages. */
  lemma {:induction false} CountsAreUnique(phys: Memory, pd: nat, s: nat, pg: nat, count: nat,
                                           ns: seq<nat>, ns': seq<nat>, k: nat)
    requires Tree(phys, pd) && |ns| == |ns'| && s + |ns| <= TABLE_LEN && k <= |ns|
    requires Counts(phys, pd, s, pg, count, ns) && Counts(phys, pd, s, pg, count, ns')
    ensures ns[..k] == ns'[..k]
  {
    hide RunAt, Counts, Sum;
    if k > 0 {
      CountsAreUnique(phys, pd, s, pg, count, ns, ns', k - 1);
      CountsAt(phys, pd, s, pg, count, ns, k - 1);
      CountsAt(phys, pd, s, pg, count, ns', k - 1);
      var d := Sum(ns[..k - 1]);
      RunAtIsUnique(phys, pd, s + k - 1, pg + d, count - d, ns[k - 1], ns'[k - 1]);
      assert ns[..k] == ns[..k - 1] + [ns[k - 1]] && ns'[..k] == ns'[..k - 1] + [ns'[k - 1]];
    }
  }

  /** The tables that the pages of a range lie in. */
  function TablesOf(pg: nat, count: nat): (n: nat)
    requires pg + count <= MAX_FRAMES
    ensures pg < MAX_FRAMES ==> pg / TABLE_LEN + n <= TABLE_LEN
  {
    if count == 0 then 0 else 1 + (pg + count - 1) / TABLE_LEN - pg / TABLE_LEN
  }

  /** The report on a range, in terms of its pages. */
  ghost predicate ReportIs(phys: Memory, pd: nat, pg: nat, count: nat, r: nat)
    requires Tree(phys, pd) && pg + count <= MAX_FRAMES && pg < MAX_FRAMES
  {
    exists ns :: |ns| == TablesOf(pg, count) && Counts(phys, pd, pg / TABLE_LEN, pg, count, ns) && r == Sum(ns)
  }

  lemma ReportIsUnique(phys: Memory, pd: nat, pg: nat, count: nat, r: nat, r': nat)
    requires Tree(phys, pd) && pg + count <= MAX_FRAMES && pg < MAX_FRAMES
    requires ReportIs(phys, pd, pg, count, r) && ReportIs(phys, pd, pg, count, r')
    ensures r == r'
  {
    var s := pg / TABLE_LEN;
    var ns :| |ns| == TablesOf(pg, count) && Counts(phys, pd, s, pg, count, ns) && r == Sum(ns);
    var ns' :| |ns'| == TablesOf(pg, count) && Counts(phys, pd, s, pg, count, ns') && r' == Sum(ns');
    CountsAreUnique(phys, pd, s, pg, count, ns, ns', |ns|);
    assert ns[..|ns|] == ns && ns'[..|ns|] == ns';
  }

  lemma ScanIsReport(phys: Memory, pd: nat, pg: nat, count: nat)
    requires Tree(phys, pd) && pg + count <= MAX_FRAMES && pg < MAX_FRAMES && count < MAX_FRAMES
    requires Installed(phys, pd, pg / TABLE_LEN, TableCount(PageAddress(pg), PageMemory(count)))
    ensures ReportIs(phys, pd, pg, count,
                     Scan(phys, pd, pg / TABLE_LEN, TableCount(PageAddress(pg), PageMemory(count)), pg, count))
  {
    TableWalk(pg, count);
    var ns := ScanCounts(phys, pd, pg / TABLE_LEN, TableCount(PageAddress(pg), PageMemory(count)), pg, count);
  }

  // ---- a report that is short ------------------------------------------------------------------

  /** If p is the first occupied page of the range, the pages before it are counted, and the
      walk goes on in the table after p's with the position still at p. */
  lemma {:induction false} ShortScan(phys: Memory, pd: nat, s: nat, ptcount: nat, pg: nat, count: nat, p: nat)
    requires Tree(phys, pd) && Installed(phys, pd, s, ptcount)
    requires s == pg / TABLE_LEN && ptcount == 1 + (pg + count - 1) / TABLE_LEN - s && pg + count <= MAX_FRAMES
    requires pg <= p < pg + count && AllEmpty(phys, pd, pg, p) && Look(phys, pd, p) != 0
    ensures var skipped := p / TABLE_LEN + 1 - s;
            && 0 < skipped <= ptcount
            && Scan(phys, pd, s, ptcount, pg, count) ==
               (p - pg) + Scan(phys, pd, s + skipped, ptcount - skipped, p, count - (p - pg))
    decreases ptcount
  {
    hide Scan, EmptyRun, Look;
    var n := EmptyRun(phys[Child(phys, pd, s)], pg % TABLE_LEN, count);
    OneTable(phys, pd, s, pg, count);
    ScanUnfolds(phys, pd, s, ptcount, pg, count);
    WhereTheTableEnds(s, pg, count, p);
    if p / TABLE_LEN == s {
      FirstOccupied(phys, pd, pg, pg + n, p, (s + 1) * TABLE_LEN, count);
    } else {
      FullTable(phys, pd, pg, pg + n, p, (s + 1) * TABLE_LEN, count);
      ShortScan(phys, pd, s + 1, ptcount - 1, pg + n, count - n, p);
    }
  }

  lemma ScanUnfolds(phys: Memory, pd: nat, s: nat, ptcount: nat, pg: nat, count: nat)
    requires Tree(phys, pd) && Installed(phys, pd, s, ptcount) && ptcount > 0
    ensures Installed(phys, pd, s + 1, ptcount - 1)
    ensures var n := EmptyRun(phys[Child(phys, pd, s)], pg % TABLE_LEN, count);
            Scan(phys, pd, s, ptcount, pg, count) == n + Scan(phys, pd, s + 1, ptcount - 1, pg + n, count - n)
  {
  }

  lemma WhereTheTableEnds(s: nat, pg: nat, count: nat, p: nat)
    requires s == pg / TABLE_LEN && pg <= p < pg + count
    ensures pg < (s + 1) * TABLE_LEN && s <= p / TABLE_LEN <= (pg + count - 1) / TABLE_LEN
    ensures if p / TABLE_LEN == s then p < (s + 1) * TABLE_LEN else (s + 1) * TABLE_LEN <= p
    ensures (s + 1) * TABLE_LEN / TABLE_LEN == s + 1
  {
  }

  lemma FirstOccupied(phys: Memory, pd: nat, pg: nat, q: nat, p: nat, end: nat, count: nat)
    requires Tree(phys, pd) && pg <= p < end && pg <= q <= end && p < pg + count && q <= pg + count <= MAX_FRAMES
    requires AllEmpty(phys, pd, pg, p) && Look(phys, pd, p) != 0 && AllEmpty(phys, pd, pg, q)
    requires q < pg + count && q < end ==> Look(phys, pd, q) != 0
    ensures q == p
  {
  }

  lemma FullTable(phys: Memory, pd: nat, pg: nat, q: nat, p: nat, end: nat, count: nat)
    requires Tree(phys, pd) && pg <= q <= end <= p < pg + count <= MAX_FRAMES
    requires AllEmpty(phys, pd, pg, p)
    requires q < pg + count && q < end ==> Look(phys, pd, q) != 0
    ensures q == end
  {
  }

  /** In the table after p's the walk looks 1024 pages further on. */
  lemma RunAhead(phys: Memory, pd: nat, s: nat, p: nat, count: nat, n: nat)
    requires Tree(phys, pd) && s == p / TABLE_LEN && s + 1 < TABLE_LEN
    requires p + TABLE_LEN + Least(count, TABLE_LEN - p % TABLE_LEN) <= MAX_FRAMES
    requires IsRunFrom(phys, pd, p + TABLE_LEN, Least(count, TABLE_LEN - p % TABLE_LEN), n)
    ensures RunAt(phys, pd, s + 1, p, count, n)
  {
    hide IsRunFrom;
    assert Seen(s + 1, p) == p + TABLE_LEN;
  }

  lemma LastTable(phys: Memory, pd: nat, s: nat, pg: nat, count: nat, n: nat)
    requires Tree(phys, pd) && Installed(phys, pd, s, 1) && RunAt(phys, pd, s, pg, count, n)
    ensures Scan(phys, pd, s, 1, pg, count) == n
  {
    TableRun(phys, pd, s, pg, count);
    var m := EmptyRun(phys[Child(phys, pd, s)], pg % TABLE_LEN, count);
    RunAtIsUnique(phys, pd, s, pg, count, n, m);
    assert Scan(phys, pd, s + 1, 0, pg + m, count - m) == 0;
  }

  /** So in a range over two tables whose first occupied page p lies in the first of them, the
      report is the pages before p and the run of empty pages from p + 1024 on. */
  lemma ShortReport(phys: Memory, pd: nat, pg: nat, count: nat, p: nat, n: nat)
    requires Tree(phys, pd) && pg + count <= MAX_FRAMES && TablesOf(pg, count) == 2
    requires Installed(phys, pd, pg / TABLE_LEN, 2)
    requires pg <= p < pg + count && p / TABLE_LEN == pg / TABLE_LEN
    requires AllEmpty(phys, pd, pg, p) && Look(phys, pd, p) != 0
    requires p + TABLE_LEN + Least(count - (p - pg), TABLE_LEN - p % TABLE_LEN) <= MAX_FRAMES
    requires IsRunFrom(phys, pd, p + TABLE_LEN, Least(count - (p - pg), TABLE_LEN - p % TABLE_LEN), n)
    ensures Scan(phys, pd, pg / TABLE_LEN, 2, pg, count) == (p - pg) + n
  {
    hide IsRunFrom, RunAt, EmptyRun, AllEmpty, Look, Scan, Tree, Seen, Least;
    var s := pg / TABLE_LEN;
    ShortScan(phys, pd, s, 2, pg, count, p);
    RunAhead(phys, pd, s, p, count - (p - pg), n);
    LastTable(phys, pd, s + 1, p, count - (p - pg), n);
  }
}
