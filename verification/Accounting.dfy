/**
 Physical memory as the paging code sees it, and the reference accounting that
 ties the frame map to the entries of all paging structures.

 `phys[k]` is the contents of page frame k when that frame holds a paging
 structure (a page directory, a page table or the temporary page table), and
 the empty sequence otherwise.
 */
module Accounting {
  import opened Words
  import opened FrameMap

  type Memory = seq<seq<Word>>

  predicate IsTable(phys: Memory, k: nat) {
    k < |phys| && |phys[k]| == TABLE_LEN
  }

  function EmptyTable(): (t: seq<Word>)
    ensures |t| == TABLE_LEN
    ensures forall i :: 0 <= i < TABLE_LEN ==> t[i] == 0
  {
    seq(TABLE_LEN, _ => 0)
  }

  /** Physical memory after one word store. */
  function Stored(phys: Memory, k: nat, i: nat, e: Word): (phys': Memory)
    requires k < |phys| && i < |phys[k]|
    ensures |phys'| == |phys|
  {
    var t: seq<Word> := phys[k];
    var u: seq<Word> := t[i := e];
    phys[k := u]
  }

  function One(b: bool): (n: nat) {
    if b then 1 else 0
  }

  /** The number of entries of one structure that name frame f. */
  ghost function CountIn(t: seq<Word>, f: nat): (n: nat) {
    if t == [] then 0 else CountIn(t[..|t| - 1], f) + One(FrameOf(t[|t| - 1]) == f)
  }

  /** The number of entries of all paging structures that name frame f. */
  ghost function Refs(phys: Memory, f: nat): (n: nat) {
    if phys == [] then 0 else Refs(phys[..|phys| - 1], f) + CountIn(phys[|phys| - 1], f)
  }

  /** Address spaces share page tables through directory entries that were copied
      without taking a reference: for each frame the number of such entries, and the
      frames that hold page directories. */
  datatype Shares = Shares(uncounted: seq<nat>, dirs: set<nat>)

  /** The number of entries of the directories that name frame f. */
  ghost function DirRefs(phys: Memory, dirs: set<nat>, f: nat): (n: nat) {
    if phys == [] then 0
    else
      DirRefs(phys[..|phys| - 1], dirs, f) + if |phys| - 1 in dirs then CountIn(phys[|phys| - 1], f) else 0
  }

  /** Tables where they belong, and directories that do not name directories. */
  ghost predicate Shaped(phys: Memory, owners: seq<nat>, sh: Shares) {
    && |phys| == |owners| == |sh.uncounted| <= MAX_FRAMES
    && (forall k :: 0 <= k < |phys| ==> phys[k] == [] || IsTable(phys, k))
    && (forall k :: 0 <= k < |phys| ==> phys[k] != [] ==> k > 0 && owners[k] > 0)
    && (forall k, i :: 0 <= k < |phys| && 0 <= i < |phys[k]| ==> FrameOf(phys[k][i]) < |phys|)
    && (forall d :: d in sh.dirs ==> IsTable(phys, d))
    && (forall d, i :: d in sh.dirs && 0 <= i < |phys[d]| ==> FrameOf(phys[d][i]) !in sh.dirs)
  }

  /** Every frame's count is its number of non-entry owners plus the number of
      entries naming it that are counted. Only directory entries are uncounted, and
      only of frames that an owner keeps. Frame 0 stands for "no frame" and is exempt. */
  ghost predicate Accounted(m: seq<Byte>, phys: Memory, owners: seq<nat>, sh: Shares) {
    && Shaped(phys, owners, sh) && |m| == |phys|
    && (forall f :: 1 <= f < |m| ==> GetRef(m[f]) + sh.uncounted[f] == owners[f] + Refs(phys, f))
    && (forall f :: 1 <= f < |m| && sh.uncounted[f] > 0 ==>
          owners[f] > 0 && sh.uncounted[f] <= DirRefs(phys, sh.dirs, f))
  }

  // ---- counting ----------------------------------------------------------------

  lemma {:induction false} CountUpdate(t: seq<Word>, i: nat, e: Word, f: nat)
    requires i < |t|
    ensures CountIn(t[i := e], f) == CountIn(t, f) - One(FrameOf(t[i]) == f) + One(FrameOf(e) == f)
    ensures FrameOf(t[i]) == f ==> CountIn(t, f) > 0
  {
    var n := |t| - 1;
    var u := t[i := e];
    if i == n {
      assert u[..n] == t[..n];
    } else {
      assert u[..n] == t[..n][i := e];
      CountUpdate(t[..n], i, e, f);
    }
  }

  lemma {:induction false} RefsUpdate(phys: Memory, k: nat, t: seq<Word>, f: nat)
    requires k < |phys|
    ensures Refs(phys[k := t], f) == Refs(phys, f) - CountIn(phys[k], f) + CountIn(t, f)
    ensures Refs(phys, f) >= CountIn(phys[k], f)
  {
    var n := |phys| - 1;
    var u := phys[k := t];
    if k == n {
      assert u[..n] == phys[..n];
    } else {
      assert u[..n] == phys[..n][k := t];
      RefsUpdate(phys[..n], k, t, f);
    }
  }

  lemma {:induction false} CountZeros(t: seq<Word>, f: nat)
    requires forall i :: 0 <= i < |t| ==> t[i] == 0
    requires f > 0
    ensures CountIn(t, f) == 0
  {
    if t != [] {
      CountZeros(t[..|t| - 1], f);
    }
  }

  /** Storing one word moves one reference. */
  lemma WriteEntry(phys: Memory, k: nat, i: nat, e: Word, f: nat)
    requires k < |phys| && i < |phys[k]|
    ensures Refs(Stored(phys, k, i, e), f)
         == Refs(phys, f) - One(FrameOf(phys[k][i]) == f) + One(FrameOf(e) == f)
    ensures FrameOf(phys[k][i]) == f ==> Refs(phys, f) > 0
  {
    CountUpdate(phys[k], i, e, f);
    RefsUpdate(phys, k, phys[k][i := e], f);
  }

  /** If exactly one entry names f then no second entry does. */
  lemma SoleEntry(phys: Memory, f: nat, k: nat, i: nat, k': nat, i': nat)
    requires k < |phys| && i < |phys[k]| && FrameOf(phys[k][i]) == f
    requires k' < |phys| && i' < |phys[k']| && FrameOf(phys[k'][i']) == f
    requires f > 0 && Refs(phys, f) == 1
    ensures k == k' && i == i'
  {
    if k != k' || i != i' {
      WriteEntry(phys, k, i, 0, f);
      var rest := Stored(phys, k, i, 0);
      assert rest[k'][i'] == phys[k'][i'];
      WriteEntry(rest, k', i', 0, f);
      assert false;
    }
  }

  lemma {:induction false} DirRefsUpdate(phys: Memory, dirs: set<nat>, k: nat, t: seq<Word>, f: nat)
    requires k < |phys|
    ensures DirRefs(phys[k := t], dirs, f) ==
            DirRefs(phys, dirs, f) - (if k in dirs then CountIn(phys[k], f) - CountIn(t, f) else 0)
  {
    var n := |phys| - 1;
    var u := phys[k := t];
    if k == n {
      assert u[..n] == phys[..n];
    } else {
      assert u[..n] == phys[..n][k := t];
      DirRefsUpdate(phys[..n], dirs, k, t, f);
    }
  }

  lemma {:induction false} DirRefsBound(phys: Memory, dirs: set<nat>, f: nat)
    ensures DirRefs(phys, dirs, f) <= Refs(phys, f)
  {
    if phys != [] {
      DirRefsBound(phys[..|phys| - 1], dirs, f);
    }
  }

  /** Storing one word in a directory moves one of its references. */
  lemma WriteDir(phys: Memory, dirs: set<nat>, k: nat, i: nat, e: Word, f: nat)
    requires k < |phys| && i < |phys[k]|
    ensures DirRefs(Stored(phys, k, i, e), dirs, f) == DirRefs(phys, dirs, f)
            + if k in dirs then One(FrameOf(e) == f) - One(FrameOf(phys[k][i]) == f) else 0
  {
    CountUpdate(phys[k], i, e, f);
    DirRefsUpdate(phys, dirs, k, phys[k][i := e], f);
  }

  // ---- the accounting invariant -----------------------------------------------------

  /** No more entries are uncounted than there are. */
  lemma UncountedBound(m: seq<Byte>, phys: Memory, owners: seq<nat>, sh: Shares, f: nat)
    requires Accounted(m, phys, owners, sh) && 1 <= f < |m|
    ensures sh.uncounted[f] <= Refs(phys, f)
    ensures Refs(phys, f) > 0 ==> GetRef(m[f]) > 0
    ensures owners[f] > 0 ==> GetRef(m[f]) > 0
  {
    DirRefsBound(phys, sh.dirs, f);
  }

  /** A frame the allocator may hand out has no owner, is named by no entry of
      any structure, counted or not, and holds no structure itself. */
  lemma AllocableIsUnused(m: seq<Byte>, phys: Memory, owners: seq<nat>, sh: Shares, f: nat)
    requires Accounted(m, phys, owners, sh)
    requires 1 <= f < |m| && IsAllocable(m[f])
    ensures owners[f] == 0 && phys[f] == [] && Refs(phys, f) == 0 && sh.uncounted[f] == 0
    ensures forall k, i :: 0 <= k < |phys| && 0 <= i < |phys[k]| ==> FrameOf(phys[k][i]) != f
  {
    UncountedBound(m, phys, owners, sh, f);
    forall k, i | 0 <= k < |phys| && 0 <= i < |phys[k]| ensures FrameOf(phys[k][i]) != f {
      WriteEntry(phys, k, i, 0, f);
    }
  }

  /** A mapped frame is never handed out: first fit cannot return a run that
      contains a frame named by an entry. */
  lemma MappedIsNeverHandedOut(m: seq<Byte>, phys: Memory, owners: seq<nat>, sh: Shares,
                               n: nat, pfindex: nat, k: nat, i: nat)
    requires Accounted(m, phys, owners, sh)
    requires FirstFitResult(m, n, pfindex) && pfindex != 0
    requires k < |phys| && i < |phys[k]|
    ensures !(pfindex <= FrameOf(phys[k][i]) < pfindex + n)
  {
    var f := FrameOf(phys[k][i]);
    if pfindex <= f < pfindex + n {
      AllocableIsUnused(m, phys, owners, sh, f);
      assert false;
    }
  }

  /** m' is m with the count of `up` raised and the count of `down` dropped. */
  ghost predicate RefMoved(m: seq<Byte>, m': seq<Byte>, up: nat, down: nat) {
    && |m'| == |m|
    && (forall f :: 1 <= f < |m| ==>
          && GetRef(m'[f]) == GetRef(m[f]) + One(f == up) - One(f == down)
          && GetType(m'[f]) == GetType(m[f]))
  }

  /** Replacing entry i of structure k does not take the last counted directory entry
      of a shared frame away, and does not make a directory name a directory. */
  ghost predicate Replaceable(phys: Memory, sh: Shares, k: nat, i: nat, e: Word)
    requires k < |phys| && i < |phys[k]|
  {
    k in sh.dirs ==>
      && FrameOf(e) !in sh.dirs
      && var g := FrameOf(phys[k][i]);
      g == 0 || g == FrameOf(e) || (g < |sh.uncounted| && sh.uncounted[g] < DirRefs(phys, sh.dirs, g))
  }

  lemma StoredShape(phys: Memory, owners: seq<nat>, sh: Shares, k: nat, i: nat, e: Word)
    requires Shaped(phys, owners, sh) && k < |phys| && i < |phys[k]| && FrameOf(e) < |phys|
    requires k in sh.dirs ==> FrameOf(e) !in sh.dirs
    ensures Shaped(Stored(phys, k, i, e), owners, sh)
  {
  }

  /** Storing an entry while moving one count from the old frame to the new one
      keeps the books if and only if the entry is replaceable: this is the step of
      every map, unmap, install, uninstall and temporary mapping. */
  lemma MoveKeepsAccount(m: seq<Byte>, m': seq<Byte>, phys: Memory, owners: seq<nat>, sh: Shares,
                         k: nat, i: nat, e: Word)
    requires Accounted(m, phys, owners, sh)
    requires k < |phys| && i < |phys[k]|
    requires FrameOf(e) < |m|
    requires RefMoved(m, m', FrameOf(e), FrameOf(phys[k][i]))
    ensures Accounted(m', Stored(phys, k, i, e), owners, sh) <==> Replaceable(phys, sh, k, i, e)
  {
    if Replaceable(phys, sh, k, i, e) {
      ReplaceKeepsAccount(m, m', phys, owners, sh, k, i, e);
    } else {
      var phys', g := Stored(phys, k, i, e), FrameOf(phys[k][i]);
      assert phys'[k][i] == e;
      if FrameOf(e) !in sh.dirs {
        AccountedShape(m, phys, owners, sh);
        WriteDir(phys, sh.dirs, k, i, e, g);
        assert sh.uncounted[g] > DirRefs(phys', sh.dirs, g);
      }
    }
  }

  lemma ReplaceKeepsAccount(m: seq<Byte>, m': seq<Byte>, phys: Memory, owners: seq<nat>, sh: Shares,
                            k: nat, i: nat, e: Word)
    requires Accounted(m, phys, owners, sh)
    requires k < |phys| && i < |phys[k]| && Replaceable(phys, sh, k, i, e)
    requires FrameOf(e) < |m|
    requires RefMoved(m, m', FrameOf(e), FrameOf(phys[k][i]))
    ensures Accounted(m', Stored(phys, k, i, e), owners, sh)
  {
    hide Shaped;
    var phys' := Stored(phys, k, i, e);
    StoredShape(phys, owners, sh, k, i, e);
    AccountedShape(m, phys, owners, sh);
    forall f | 1 <= f < |m| ensures GetRef(m'[f]) + sh.uncounted[f] == owners[f] + Refs(phys', f) {
      WriteEntry(phys, k, i, e, f);
    }
    forall f | 1 <= f < |m| && sh.uncounted[f] > 0
      ensures owners[f] > 0 && sh.uncounted[f] <= DirRefs(phys', sh.dirs, f)
    {
      WriteDir(phys, sh.dirs, k, i, e, f);
    }
  }

  lemma AccountedShape(m: seq<Byte>, phys: Memory, owners: seq<nat>, sh: Shares)
    requires Accounted(m, phys, owners, sh)
    ensures Shaped(phys, owners, sh) && |m| == |phys| == |owners| == |sh.uncounted| <= MAX_FRAMES
  {
  }

  /** The same store without the reference breaks the books: the temporary
      mapping of a frame whose count cannot be raised is not accounted for. */
  lemma UncountedStoreBreaksAccount(m: seq<Byte>, phys: Memory, owners: seq<nat>, sh: Shares,
                                    k: nat, i: nat, e: Word)
    requires Accounted(m, phys, owners, sh)
    requires k < |phys| && i < |phys[k]|
    requires 1 <= FrameOf(e) < |m| && FrameOf(phys[k][i]) == 0
    ensures !Accounted(m, Stored(phys, k, i, e), owners, sh)
  {
    WriteEntry(phys, k, i, e, FrameOf(e));
  }

  /** Allocating a frame gives it its first, non-entry owner. */
  lemma AllocKeepsAccount(m: seq<Byte>, phys: Memory, owners: seq<nat>, sh: Shares, f: nat)
    requires Accounted(m, phys, owners, sh)
    requires 1 <= f < |m| && IsAllocable(m[f])
    ensures Accounted(RefRange(m, f, f + 1), phys, owners[f := 1], sh)
  {
    AllocableIsUnused(m, phys, owners, sh, f);
  }

  /** Zero-filling an owned frame turns it into a structure without references. It
      may be a page table or a new directory. */
  lemma InitKeepsAccount(m: seq<Byte>, phys: Memory, owners: seq<nat>, sh: Shares, k: nat, dir: bool)
    requires Accounted(m, phys, owners, sh)
    requires 1 <= k < |m| && owners[k] > 0 && phys[k] == []
    requires dir ==> forall d, i :: d in sh.dirs && 0 <= i < |phys[d]| ==> FrameOf(phys[d][i]) != k
    ensures Accounted(m, phys[k := EmptyTable()], owners, if dir then sh.(dirs := sh.dirs + {k}) else sh)
  {
    var phys' := phys[k := EmptyTable()];
    var dirs := if dir then sh.dirs + {k} else sh.dirs;
    forall f | 1 <= f < |m| ensures Refs(phys', f) == Refs(phys, f) {
      RefsUpdate(phys, k, EmptyTable(), f);
      CountZeros(EmptyTable(), f);
    }
    forall f | 1 <= f < |m| ensures DirRefs(phys', dirs, f) == DirRefs(phys, sh.dirs, f) {
      DirRefsUpdate(phys, sh.dirs, k, EmptyTable(), f);
      CountZeros(EmptyTable(), f);
      MoreDirs(phys', sh.dirs, k, f);
    }
    assert FrameOf(EmptyTable()[0]) == 0;
  }

  /** An empty structure counts for nothing as a directory. */
  lemma {:induction false} MoreDirs(phys: Memory, dirs: set<nat>, k: nat, f: nat)
    requires k < |phys| ==> CountIn(phys[k], f) == 0
    ensures DirRefs(phys, dirs + {k}, f) == DirRefs(phys, dirs, f)
  {
    if phys != [] {
      MoreDirs(phys[..|phys| - 1], dirs, k, f);
    }
  }
}
