/**
 `vmem_32_share_page_range`: a new address space gets its global areas by copying
 directory entries of its parent, without taking references. The books carry the
 copies as uncounted entries, so that all other operations keep their contracts.
 */
module Sharing {
  import opened Words
  import opened FrameMap
  import opened Accounting
  import opened Paging

  /** One entry of frame f more that is not counted. */
  ghost function OneMore(sh: Shares, f: nat): (sh': Shares)
    requires f < |sh.uncounted|
  {
    sh.(uncounted := sh.uncounted[f := sh.uncounted[f] + 1])
  }

  ghost function OneLess(sh: Shares, f: nat): (sh': Shares)
    requires f < |sh.uncounted| && sh.uncounted[f] > 0
  {
    sh.(uncounted := sh.uncounted[f := sh.uncounted[f] - 1])
  }

  /** Copying an entry into an empty slot of a directory leaves one entry more uncounted. */
  lemma CopyKeepsAccount(m: seq<Byte>, phys: Memory, owners: seq<nat>, sh: Shares, k: nat, i: nat, e: Word)
    requires Accounted(m, phys, owners, sh)
    requires k in sh.dirs && k < |phys| && i < |phys[k]| && FrameOf(phys[k][i]) == 0
    requires 0 < FrameOf(e) < |m| && FrameOf(e) !in sh.dirs && owners[FrameOf(e)] > 0
    ensures Accounted(m, Stored(phys, k, i, e), owners, OneMore(sh, FrameOf(e)))
  {
    var phys' := Stored(phys, k, i, e);
    StoredShape(phys, owners, sh, k, i, e);
    forall f | 1 <= f < |m|
      ensures Refs(phys', f) == Refs(phys, f) + One(f == FrameOf(e))
      ensures DirRefs(phys', sh.dirs, f) == DirRefs(phys, sh.dirs, f) + One(f == FrameOf(e))
    {
      WriteEntry(phys, k, i, e, f);
      WriteDir(phys, sh.dirs, k, i, e, f);
    }
  }

  /** Copying an entry over one that names the same frame changes nothing. */
  lemma RecopyKeepsAccount(m: seq<Byte>, phys: Memory, owners: seq<nat>, sh: Shares, k: nat, i: nat, e: Word)
    requires Accounted(m, phys, owners, sh)
    requires k in sh.dirs && k < |phys| && i < |phys[k]| && FrameOf(phys[k][i]) == FrameOf(e)
    ensures Accounted(m, Stored(phys, k, i, e), owners, sh)
  {
    var phys' := Stored(phys, k, i, e);
    StoredShape(phys, owners, sh, k, i, e);
    forall f | 1 <= f < |m|
      ensures Refs(phys', f) == Refs(phys, f) && DirRefs(phys', sh.dirs, f) == DirRefs(phys, sh.dirs, f)
    {
      WriteEntry(phys, k, i, e, f);
      WriteDir(phys, sh.dirs, k, i, e, f);
    }
  }

  /** Losing a directory entry without dropping its reference: if all directory entries of
      the frame are uncounted, there is one less; otherwise the reference is one that
      nobody will drop, as if it had an owner. */
  lemma LoseEntry(m: seq<Byte>, phys: Memory, owners: seq<nat>, sh: Shares, k: nat, i: nat)
    returns (owners': seq<nat>, sh': Shares)
    requires Accounted(m, phys, owners, sh)
    requires k in sh.dirs && k < |phys| && i < |phys[k]| && 0 < FrameOf(phys[k][i]) < |m|
    ensures Accounted(m, Stored(phys, k, i, 0), owners', sh') && sh'.dirs == sh.dirs
    ensures |owners'| == |owners| && forall f :: 0 <= f < |owners| ==> owners[f] <= owners'[f]
  {
    var g := FrameOf(phys[k][i]);
    var phys' := Stored(phys, k, i, 0);
    if sh.uncounted[g] > 0 && sh.uncounted[g] == DirRefs(phys, sh.dirs, g) {
      owners', sh' := owners, OneLess(sh, g);
    } else {
      owners', sh' := owners[g := owners[g] + 1], sh;
    }
    assert 0 !in sh.dirs;
    StoredShape(phys, owners, sh, k, i, 0);
    forall f | 1 <= f < |m|
      ensures Refs(phys', f) == Refs(phys, f) - One(f == g)
      ensures DirRefs(phys', sh.dirs, f) == DirRefs(phys, sh.dirs, f) - One(f == g)
    {
      WriteEntry(phys, k, i, 0, f);
      WriteDir(phys, sh.dirs, k, i, 0, f);
    }
  }

  lemma StoreTwice(phys: Memory, k: nat, i: nat, d: Word, e: Word)
    requires k < |phys| && i < |phys[k]|
    ensures Stored(Stored(phys, k, i, d), k, i, e) == Stored(phys, k, i, e)
  {
    assert phys[k][i := d][i := e] == phys[k][i := e];
  }

  /** One slot of the copy loop. */
  lemma CopyEntry(m: seq<Byte>, phys: Memory, owners: seq<nat>, sh: Shares, k: nat, i: nat, e: Word)
    returns (owners': seq<nat>, sh': Shares)
    requires Accounted(m, phys, owners, sh)
    requires k in sh.dirs && k < |phys| && i < |phys[k]|
    requires FrameOf(e) != 0 ==> FrameOf(e) < |m| && FrameOf(e) !in sh.dirs && owners[FrameOf(e)] > 0
    ensures Accounted(m, Stored(phys, k, i, e), owners', sh') && sh'.dirs == sh.dirs
    ensures |owners'| == |owners| && forall f :: 0 <= f < |owners| ==> owners[f] <= owners'[f]
    ensures FrameOf(phys[k][i]) in {0, FrameOf(e)} ==> owners' == owners
  {
    hide Accounted;
    AccountedShape(m, phys, owners, sh);
    if FrameOf(phys[k][i]) == FrameOf(e) {
      RecopyKeepsAccount(m, phys, owners, sh, k, i, e);
      return owners, sh;
    }
    owners', sh' := owners, sh;
    var phys' := phys;
    if FrameOf(phys[k][i]) != 0 {
      owners', sh' := LoseEntry(m, phys, owners, sh, k, i);
      phys' := Stored(phys, k, i, 0);
      AccountedShape(m, phys', owners', sh');
      StoreTwice(phys, k, i, 0, e);
    }
    if FrameOf(e) == 0 {
      RecopyKeepsAccount(m, phys', owners', sh', k, i, e);
    } else {
      CopyKeepsAccount(m, phys', owners', sh', k, i, e);
      sh' := OneMore(sh', FrameOf(e));
    }
  }

  /** The slots whose pages meet the range; none for the whole address space, whose size
      wraps to zero. */
  predicate InRange(s: nat, pgindex: nat, pgcount: nat) {
    0 < pgcount < MAX_FRAMES && pgindex / TABLE_LEN <= s && s * TABLE_LEN < pgindex + pgcount
  }

  /** These are the slots that hold a page of the range. */
  lemma InRangeIffPage(s: nat, pgindex: nat, pgcount: nat)
    requires pgcount < MAX_FRAMES
    ensures InRange(s, pgindex, pgcount) <==> exists pg: nat :: pgindex <= pg < pgindex + pgcount && SlotOf(pg) == s
  {
    if InRange(s, pgindex, pgcount) {
      var pg := if pgindex <= s * TABLE_LEN then s * TABLE_LEN else pgindex;
      assert SlotOf(pg) == s;
    }
  }

  function SlotOf(pg: nat): (s: nat) {
    pg / 1024
  }

  /** The entries of a directory name page tables. */
  ghost predicate NamesTables(phys: Memory, pd: nat)
    requires IsTable(phys, pd)
  {
    forall s :: 0 <= s < TABLE_LEN && FrameOf(phys[pd][s]) != 0 ==> IsTable(phys, FrameOf(phys[pd][s]))
  }

  /** `vmem_32_share_page_range`: afterwards the two directories agree on the slots of
      the range, no count has moved, and the books balance with the copies uncounted.
      An entry that is overwritten loses its reference for good. */
  method SharePageRange(mem: PagedMemory, dst: nat, src: nat, pgindex: nat, pgcount: nat)
    requires mem.Valid() && dst in mem.shares.dirs && src in mem.shares.dirs && dst != src
    requires pgindex + pgcount <= MAX_FRAMES && IsTable(mem.phys, src) && NamesTables(mem.phys, src)
    modifies mem`phys, mem`owners, mem`shares
    ensures mem.Valid() && mem.shares.dirs == old(mem.shares.dirs)
    ensures |mem.phys| == |old(mem.phys)| && IsTable(mem.phys, dst) && IsTable(old(mem.phys), dst)
    ensures forall k :: 0 <= k < |mem.phys| && k != dst ==> mem.phys[k] == old(mem.phys)[k]
    ensures forall s :: 0 <= s < TABLE_LEN ==>
              mem.phys[dst][s] == if InRange(s, pgindex, pgcount) then old(mem.phys)[src][s] else old(mem.phys)[dst][s]
    ensures (forall s :: 0 <= s < TABLE_LEN && InRange(s, pgindex, pgcount) ==>
               FrameOf(old(mem.phys)[dst][s]) in {0, FrameOf(old(mem.phys)[src][s])}) ==>
            mem.owners == old(mem.owners)
  {
    hide Accounted, Shaped, InRange;
    TableWalk(pgindex, pgcount);
    ghost var phys0, own0, dirs := mem.phys, mem.owners, mem.shares.dirs;
    AccountedSizes(mem.pmem.memmap[..], phys0, own0, mem.shares);
    ghost var kept := forall s :: 0 <= s < TABLE_LEN && InRange(s, pgindex, pgcount) ==>
                        FrameOf(phys0[dst][s]) in {0, FrameOf(phys0[src][s])};
    var ptindex := TableIndex(PageAddress(pgindex));
    var ptcount := TableCount(PageAddress(pgindex), PageMemory(pgcount));
    ghost var first, total := ptindex, ptcount;
    RangeSlots(pgindex, pgcount, first, total);
    while ptcount > 0
      invariant 0 <= ptcount <= total && ptindex == first + (total - ptcount)
      invariant mem.Valid() && mem.shares.dirs == dirs
      invariant |mem.phys| == |phys0| && IsTable(mem.phys, dst)
      invariant forall k :: 0 <= k < |mem.phys| && k != dst ==> mem.phys[k] == phys0[k]
      invariant forall s :: 0 <= s < TABLE_LEN ==>
                  mem.phys[dst][s] == if first <= s < ptindex then phys0[src][s] else phys0[dst][s]
      invariant kept ==> mem.owners == own0
    {
      var e := mem.phys[src][ptindex];
      assert InRange(ptindex, pgindex, pgcount);
      SourceEntry(mem.pmem.memmap[..], mem.phys, mem.owners, mem.shares, src, ptindex);
      ghost var own1, sh1 := CopyEntry(mem.pmem.memmap[..], mem.phys, mem.owners, mem.shares, dst, ptindex, e);
      mem.owners, mem.shares := own1, sh1;
      mem.phys := Stored(mem.phys, dst, ptindex, e);
      ptindex, ptcount := ptindex + 1, ptcount - 1;
    }
  }

  /** An entry of a directory names a frame that its owner keeps. */
  lemma SourceEntry(m: seq<Byte>, phys: Memory, owners: seq<nat>, sh: Shares, src: nat, s: nat)
    requires Accounted(m, phys, owners, sh) && src in sh.dirs && IsTable(phys, src) && s < TABLE_LEN
    requires FrameOf(phys[src][s]) != 0 ==> IsTable(phys, FrameOf(phys[src][s]))
    ensures |m| == |phys| == |owners|
    ensures FrameOf(phys[src][s]) != 0 ==>
      && FrameOf(phys[src][s]) < |m| && FrameOf(phys[src][s]) !in sh.dirs && owners[FrameOf(phys[src][s])] > 0
  {
  }

  lemma RangeSlots(pgindex: nat, pgcount: nat, first: nat, total: nat)
    requires pgindex + pgcount <= MAX_FRAMES
    requires 0 < pgcount < MAX_FRAMES ==>
      first == pgindex / TABLE_LEN && total == 1 + (pgindex + pgcount - 1) / TABLE_LEN - first
    requires pgcount == 0 || pgcount == MAX_FRAMES ==> total == 0
    ensures forall s: nat :: InRange(s, pgindex, pgcount) <==> first <= s < first + total
    ensures total > 0 ==> first + total <= TABLE_LEN
  {
  }

  // ---- what sharing without references leads to -------------------------------------------------

  /** Taking the last counted directory entry of a shared frame away takes the owner's
      reference: the count is one short of the owners and the entries outside directories,
      and exactly uncounted - 1 directory entries still name the frame. */
  lemma LastCountedEntry(m: seq<Byte>, m': seq<Byte>, phys: Memory, owners: seq<nat>, sh: Shares, k: nat, i: nat)
    requires Accounted(m, phys, owners, sh)
    requires k in sh.dirs && k < |phys| && i < |phys[k]|
    requires var g := FrameOf(phys[k][i]); 0 < g < |m| && sh.uncounted[g] == DirRefs(phys, sh.dirs, g)
    requires RefMoved(m, m', 0, FrameOf(phys[k][i]))
    ensures var g := FrameOf(phys[k][i]);
            && !Replaceable(phys, sh, k, i, 0)
            && GetRef(m'[g]) + 1 == owners[g] + (Refs(phys, g) - DirRefs(phys, sh.dirs, g))
            && DirRefs(Stored(phys, k, i, 0), sh.dirs, g) + 1 == sh.uncounted[g]
  {
    WriteEntry(phys, k, i, 0, FrameOf(phys[k][i]));
    WriteDir(phys, sh.dirs, k, i, 0, FrameOf(phys[k][i]));
  }

  /** Two address spaces get a copy of slot s of a third; the third gives its entry up, and
      then one of the others. The books balance up to there; now the table's count is
      zero, so that its frame may be handed out, while the last directory still names it. */
  lemma SharedTableIsFreed(m: seq<Byte>, m1: seq<Byte>, m2: seq<Byte>, phys: Memory, owners: seq<nat>, sh: Shares,
                           src: nat, a: nat, b: nat, s: nat)
    requires Accounted(m, phys, owners, sh) && {src, a, b} <= sh.dirs && src != a && a != b && b != src
    requires s < TABLE_LEN && IsTable(phys, src) && IsTable(phys, a) && IsTable(phys, b)
    requires FrameOf(phys[a][s]) == 0 && FrameOf(phys[b][s]) == 0
    requires var g := FrameOf(phys[src][s]); 0 < g < |m| && Refs(phys, g) == 1 && owners[g] == 1 && sh.uncounted[g] == 0
    requires RefMoved(m, m1, 0, FrameOf(phys[src][s])) && RefMoved(m1, m2, 0, FrameOf(phys[src][s]))
    ensures var e := phys[src][s];
            var g := FrameOf(e);
            var shared := Stored(Stored(phys, a, s, e), b, s, e);
            var given := Stored(shared, src, s, 0);
            var last := Stored(given, a, s, 0);
            && Accounted(m, shared, owners, OneMore(OneMore(sh, g), g))
            && Accounted(m1, given, owners, OneMore(OneMore(sh, g), g))
            && GetRef(m2[g]) == 0 && FrameOf(last[b][s]) == g
            && (GetType(m[g]) == TypeBits(Available) ==> IsAllocable(m2[g]))
  {
    var e := phys[src][s];
    var g := FrameOf(e);
    var dirs := sh.dirs;
    SourceIsNoDir(m, phys, owners, sh, src, s);
    WriteDir(phys, dirs, src, s, 0, g);
    DirRefsBound(phys, dirs, g);
    var p1 := Stored(phys, a, s, e);
    CopyKeepsAccount(m, phys, owners, sh, a, s, e);
    WriteDir(phys, dirs, a, s, e, g);
    WriteEntry(phys, a, s, e, g);
    var p2 := Stored(p1, b, s, e);
    CopyKeepsAccount(m, p1, owners, OneMore(sh, g), b, s, e);
    WriteDir(p1, dirs, b, s, e, g);
    var sh2 := OneMore(OneMore(sh, g), g);
    assert p2[src][s] == e && 0 !in dirs;
    assert sh2.uncounted[g] == 2 && DirRefs(p2, dirs, g) == 3;
    MoveKeepsAccount(m, m1, p2, owners, sh2, src, s, 0);
  }

  lemma SourceIsNoDir(m: seq<Byte>, phys: Memory, owners: seq<nat>, sh: Shares, src: nat, s: nat)
    requires Accounted(m, phys, owners, sh) && src in sh.dirs && IsTable(phys, src) && s < TABLE_LEN
    ensures FrameOf(phys[src][s]) !in sh.dirs && 0 !in sh.dirs
  {
  }

  lemma {:induction false} ZerosNameNothing(phys: Memory, f: nat)
    requires f > 0 && forall k, i :: 0 <= k < |phys| && 0 <= i < |phys[k]| ==> phys[k][i] == 0
    ensures Refs(phys, f) == 0
  {
    if phys != [] {
      CountZeros(phys[|phys| - 1], f);
      ZerosNameNothing(phys[..|phys| - 1], f);
    }
  }

  /** A state to start from: three directories in frames 1 to 3, of which the first has
      a page table, in frame 4, in its first slot. */
  lemma ThreeDirectories() returns (m: seq<Byte>, phys: Memory, owners: seq<nat>, sh: Shares)
    ensures Accounted(m, phys, owners, sh) && sh.dirs == {1, 2, 3} && |m| == 5
    ensures IsTable(phys, 1) && IsTable(phys, 2) && IsTable(phys, 3)
    ensures FrameOf(phys[1][0]) == 4 && FrameOf(phys[2][0]) == 0 && FrameOf(phys[3][0]) == 0
    ensures Refs(phys, 4) == 1 && owners[4] == 1 && sh.uncounted[4] == 0
    ensures GetType(m[4]) == TypeBits(Available)
  {
    var t: seq<Word> := EmptyTable();
    var e := PdeCreate(4, 3);
    EntryRoundTrip(4, 3);
    var zero: Memory := [[], t, t, t, t];
    phys := Stored(zero, 1, 0, e);
    m := [64, 65, 65, 65, 66];
    owners := [0, 1, 1, 1, 1];
    sh := Shares([0, 0, 0, 0, 0], {1, 2, 3});
    forall f | 1 <= f < 5 ensures Refs(phys, f) == One(f == 4) {
      ZerosNameNothing(zero, f);
      WriteEntry(zero, 1, 0, e, f);
    }
    assert phys[1] == t[0 := e] && phys[2] == t && phys[3] == t && phys[4] == t;
  }

  /** So from a balanced state two copies and two removals lead to an allocable frame that
      a directory names. */
  lemma SharedTableIsHandedOut() returns (m: seq<Byte>, phys: Memory)
    ensures |m| == |phys| == 5 && IsAllocable(m[4])
    ensures IsTable(phys, 3) && FrameOf(phys[3][0]) == 4
  {
    var m0, phys0, owners, sh := ThreeDirectories();
    var m1 := m0[4 := m0[4] - 1];
    m := m1[4 := m1[4] - 1];
    assert GetRef(m0[4]) == 2;
    SharedTableIsFreed(m0, m1, m, phys0, owners, sh, 1, 2, 3, 0);
    var e := phys0[1][0];
    phys := Stored(Stored(Stored(Stored(phys0, 2, 0, e), 3, 0, e), 1, 0, 0), 2, 0, 0);
  }
}
