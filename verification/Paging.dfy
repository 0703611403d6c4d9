/**
 Single-entry operations of pagetbl.c and pagedir.c on the paging structures in
 physical memory. Each keeps the reference accounting, on success and on failure.
 */
module Paging {
  import opened Words
  import opened FrameMap
  import opened Accounting

  /** What `pmem_ref_frames(pfindex, 1)` demands of the frame. */
  predicate RefableFrame(m: seq<Byte>, pfindex: nat) {
    pfindex < |m| && 0 < GetRef(m[pfindex]) < MAX_REF
  }

  /** The shape part of the accounting invariant. */
  lemma AccountedSizes(m: seq<Byte>, phys: Memory, owners: seq<nat>, sh: Shares)
    requires Accounted(m, phys, owners, sh)
    ensures |m| == |phys| == |owners| <= MAX_FRAMES
    ensures forall k :: 0 <= k < |phys| ==> phys[k] == [] || IsTable(phys, k)
    ensures forall k :: 0 <= k < |phys| ==> phys[k] != [] ==> k > 0 && owners[k] > 0
    ensures forall d :: d in sh.dirs ==> IsTable(phys, d)
  {
  }

  /** A directory names no directory. */
  lemma ChildIsNoDir(m: seq<Byte>, phys: Memory, owners: seq<nat>, sh: Shares, pd: nat, s: nat)
    requires Accounted(m, phys, owners, sh)
    requires pd in sh.dirs && IsTable(phys, pd) && s < TABLE_LEN
    ensures FrameOf(phys[pd][s]) !in sh.dirs
  {
  }

  /** A frame named by an entry is in the map and counted at least once. */
  lemma AccountedNames(m: seq<Byte>, phys: Memory, owners: seq<nat>, sh: Shares, k: nat, i: nat)
    requires Accounted(m, phys, owners, sh)
    requires IsTable(phys, k) && i < TABLE_LEN
    ensures |m| == |phys| <= MAX_FRAMES && FrameOf(phys[k][i]) < |m|
    ensures FrameOf(phys[k][i]) != 0 ==> GetRef(m[FrameOf(phys[k][i])]) > 0
  {
    var f := FrameOf(phys[k][i]);
    WriteEntry(phys, k, i, 0, f);
    if f != 0 {
      UncountedBound(m, phys, owners, sh, f);
    }
  }

  /** One reference up, one down, byte by byte. */
  lemma RefThenUnref(m: seq<Byte>, up: nat, down: nat)
    requires RefableFrame(m, up)
    requires down < |m| && (down != 0 ==> GetRef(m[down]) > 0)
    ensures RefMoved(m, RefRange(m, up, up + 1), up, 0)
    ensures down != 0 ==> RefMoved(m, UnrefRange(RefRange(m, up, up + 1), down, down + 1), up, down)
  {
  }

  lemma UnrefOne(m: seq<Byte>, down: nat)
    requires 0 < down < |m| && GetRef(m[down]) > 0
    ensures RefMoved(m, UnrefRange(m, down, down + 1), 0, down)
  {
  }

  /** Memory after entries index to index + n - 1 of table k have been stored, with
      nothing else changed. */
  ghost predicate RunStored(phys: Memory, phys': Memory, k: nat, index: nat, n: nat, entry: int -> Word) {
    && k < |phys| == |phys'| && |phys[k]| == |phys'[k]| == TABLE_LEN && index + n <= TABLE_LEN
    && (forall j :: 0 <= j < |phys| && j != k ==> phys'[j] == phys[j])
    && (forall e :: 0 <= e < TABLE_LEN ==>
          phys'[k][e] == if index <= e < index + n then entry(e) else phys[k][e])
  }

  lemma RunExtends(phys: Memory, phys': Memory, k: nat, index: nat, n: nat, w: Word, entry: int -> Word)
    requires RunStored(phys, phys', k, index, n, entry) && index + n < TABLE_LEN && w == entry(index + n)
    ensures RunStored(phys, Stored(phys', k, index + n, w), k, index, n + 1, entry)
    ensures IsTable(Stored(phys', k, index + n, w), k)
  {
  }

  lemma RunNone(phys: Memory, k: nat, index: nat, entry: int -> Word)
    requires IsTable(phys, k) && index <= TABLE_LEN
    ensures RunStored(phys, phys, k, index, 0, entry)
  {
  }

  class PagedMemory {
    const pmem: PMem
    /** The frame that holds the temporary page table. */
    const tmp: nat
    var phys: Memory
    /** References that do not come from entries: one per allocation or claim. */
    ghost var owners: seq<nat>
    /** The page directories, and the entries they share without a reference. */
    ghost var shares: Shares

    ghost predicate Valid()
      reads this, pmem.memmap
    {
      Accounted(pmem.memmap[..], phys, owners, shares) && tmp !in shares.dirs
    }

    ghost function Map(): (m: seq<Byte>)
      reads this, pmem.memmap
    {
      pmem.memmap[..]
    }

    /** Before any paging structure exists every count is an owner's. */
    constructor (pmem: PMem, tmp: nat)
      requires pmem.memmap.Length <= MAX_FRAMES
      ensures Valid() && this.pmem == pmem && this.tmp == tmp
      ensures forall k :: 0 <= k < |phys| ==> phys[k] == []
      ensures shares.dirs == {}
    {
      this.pmem := pmem;
      this.tmp := tmp;
      phys := seq(pmem.memmap.Length, _ => []);
      owners := seq(pmem.memmap.Length, i requires 0 <= i < pmem.memmap.Length reads pmem.memmap =>
        GetRef(pmem.memmap[i]));
      shares := Shares(seq(pmem.memmap.Length, _ => 0), {});
      new;
      forall f | 1 <= f < |phys| ensures Refs(phys, f) == 0 {
        NoTablesNoRefs(phys, f);
      }
    }

    static lemma {:induction false} NoTablesNoRefs(phys: Memory, f: nat)
      requires forall k :: 0 <= k < |phys| ==> phys[k] == []
      ensures Refs(phys, f) == 0
    {
      if phys != [] {
        NoTablesNoRefs(phys[..|phys| - 1], f);
      }
    }

    /** The common body of `page_table_map_page_frame` and
        `page_directory_install_page_table`: reference the new frame, drop the
        old one, store the entry. */
    method ReplaceEntry(k: nat, index: nat, pfindex: Word, e: Word) returns (res: int)
      requires Valid() && IsTable(phys, k) && index < TABLE_LEN
      requires pfindex < MAX_FRAMES ==> FrameOf(e) == pfindex
      modifies `phys, pmem.memmap
      ensures Valid() <==> res < 0 || old(Replaceable(phys, shares, k, index, e))
      ensures res == 0 <==> RefableFrame(old(Map()), pfindex)
      ensures res in {0, -ENOMEM, -ENODEV, -EOVERFLOW}
      ensures res < 0 ==> phys == old(phys) && Map() == old(Map())
      ensures res == 0 ==>
        && phys == Stored(old(phys), k, index, e)
        && RefMoved(old(Map()), Map(), pfindex, FrameOf(old(phys)[k][index]))
      ensures pfindex != 0 && |phys| > 0 ==> Map()[0] == old(Map())[0]
    {
      hide Accounted, FrameOf, RefMoved, Replaceable;
      ghost var m := pmem.memmap[..];
      AccountedNames(m, phys, owners, shares, k, index);
      res := pmem.RefFrames(pfindex, 1);
      if res < 0 {
        return;
      }
      assert CanUnref(m[pfindex]) && CanRef(m[pfindex]);
      var down := FrameOf(phys[k][index]);
      if down != 0 {
        pmem.UnrefFrames(down, 1);
      }
      RefThenUnref(m, pfindex, down);
      MoveKeepsAccount(m, pmem.memmap[..], phys, owners, shares, k, index, e);
      phys := Stored(phys, k, index, e);
      res := 0;
    }

    /** The common body of `page_table_unmap_page_frame` and
        `page_directory_uninstall_page_table`. */
    method ClearEntry(k: nat, index: nat)
      requires Valid() && IsTable(phys, k) && index < TABLE_LEN
      modifies `phys, pmem.memmap
      ensures Valid() <==> old(Replaceable(phys, shares, k, index, 0))
      ensures phys == Stored(old(phys), k, index, 0)
      ensures RefMoved(old(Map()), Map(), 0, FrameOf(old(phys)[k][index]))
      ensures |phys| > 0 ==> Map()[0] == old(Map())[0]
    {
      hide Accounted, Replaceable;
      ghost var m := pmem.memmap[..];
      AccountedNames(m, phys, owners, shares, k, index);
      var down := FrameOf(phys[k][index]);
      if down != 0 {
        pmem.UnrefFrames(down, 1);
        UnrefOne(m, down);
      }
      MoveKeepsAccount(m, pmem.memmap[..], phys, owners, shares, k, index, 0);
      phys := Stored(phys, k, index, 0);
    }

    /** `page_table_map_page_frame` on the table in frame pt. */
    method MapPageFrame(pt: nat, pfindex: Word, index: nat, flags: Word) returns (res: int)
      requires Valid() && IsTable(phys, pt) && pt !in shares.dirs && index < TABLE_LEN
      modifies `phys, pmem.memmap
      ensures Valid()
      ensures res == 0 <==> RefableFrame(old(Map()), pfindex)
      ensures res in {0, -ENOMEM, -ENODEV, -EOVERFLOW}
      ensures res < 0 ==> phys == old(phys) && Map() == old(Map())
      ensures res == 0 ==>
        && phys == Stored(old(phys), pt, index, PteCreate(pfindex, flags))
        && RefMoved(old(Map()), Map(), pfindex, FrameOf(old(phys)[pt][index]))
      ensures pfindex != 0 && |phys| > 0 ==> Map()[0] == old(Map())[0]
    {
      EntryRoundTrip(pfindex, flags);
      res := ReplaceEntry(pt, index, pfindex, PteCreate(pfindex, flags));
    }

    /** `page_table_unmap_page_frame` */
    method UnmapPageFrame(pt: nat, index: nat)
      requires Valid() && IsTable(phys, pt) && pt !in shares.dirs && index < TABLE_LEN
      modifies `phys, pmem.memmap
      ensures Valid()
      ensures phys == Stored(old(phys), pt, index, PteCreate(0, 0))
      ensures RefMoved(old(Map()), Map(), 0, FrameOf(old(phys)[pt][index]))
      ensures |phys| > 0 ==> Map()[0] == old(Map())[0]
    {
      ClearEntry(pt, index);
    }

    /** `page_table_map_page_frames` stops at the first frame that cannot be
        referenced; the n entries before it are mapped and all others untouched. */
    method MapPageFrames(pt: nat, pfindex: Word, index: nat, count: nat, flags: Word) returns (res: int, ghost n: nat)
      requires Valid() && IsTable(phys, pt) && pt !in shares.dirs && index + count <= TABLE_LEN
      modifies `phys, pmem.memmap
      ensures Valid() && n <= count
      ensures res == 0 <==> n == count
      ensures n < count ==> !RefableFrame(Map(), pfindex + n)
      ensures RunStored(old(phys), phys, pt, index, n, e => PteCreate((pfindex + (e - index)) % WORD, flags))
    {
      hide Accounted, RefMoved, Stored, PteCreate, RunStored, Refable, FrameOf, GetRef;
      AccountedSizes(pmem.memmap[..], phys, owners, shares);
      RunNone(phys, pt, index, e => PteCreate((pfindex + (e - index)) % WORD, flags));
      res, n := 0, 0;
      var left, i, pf := count, index, pfindex;
      while left > 0 && !(res < 0)
        invariant Valid() && |phys| == |old(phys)| <= MAX_FRAMES && IsTable(phys, pt) && |Map()| == |phys|
        invariant n <= count && res <= 0
        invariant res == 0 ==> left == count - n && i == index + n && pf == (pfindex + n) % WORD
        invariant n > 0 ==> pfindex + n - 1 < |phys|
        invariant res < 0 ==> n < count && !RefableFrame(Map(), pfindex + n)
        invariant RunStored(old(phys), phys, pt, index, n, e => PteCreate((pfindex + (e - index)) % WORD, flags))
        decreases left
      {
        ghost var phys1 := phys;
        res := MapPageFrame(pt, pf, i, flags);
        if res == 0 {
          RunExtends(old(phys), phys1, pt, index, n, PteCreate(pf, flags),
                     e => PteCreate((pfindex + (e - index)) % WORD, flags));
          n := n + 1;
        }
        left, i, pf := left - 1, i + 1, (pf + 1) % WORD;
      }
    }

    /** `page_table_unmap_page_frames` */
    method UnmapPageFrames(pt: nat, index: nat, count: nat)
      requires Valid() && IsTable(phys, pt) && pt !in shares.dirs && index + count <= TABLE_LEN
      modifies `phys, pmem.memmap
      ensures Valid() && RunStored(old(phys), phys, pt, index, count, _ => 0)
    {
      hide Accounted;
      AccountedSizes(pmem.memmap[..], phys, owners, shares);
      var left, i := count, index;
      while left > 0
        invariant 0 <= left <= count && i == index + (count - left)
        invariant Valid() && |phys| == |old(phys)| && IsTable(phys, pt)
        invariant RunStored(old(phys), phys, pt, index, count - left, _ => 0)
      {
        RunExtends(old(phys), phys, pt, index, count - left, 0, _ => 0);
        UnmapPageFrame(pt, i);
        left, i := left - 1, i + 1;
      }
    }

    /** `page_directory_install_page_table` */
    method InstallPageTable(pd: nat, pfindex: Word, index: nat, flags: Word) returns (res: int)
      requires Valid() && IsTable(phys, pd) && index < TABLE_LEN
      modifies `phys, pmem.memmap
      ensures Valid() <==> res < 0 || old(Replaceable(phys, shares, pd, index, PdeCreate(pfindex, flags)))
      ensures res == 0 <==> RefableFrame(old(Map()), pfindex)
      ensures res in {0, -ENOMEM, -ENODEV, -EOVERFLOW}
      ensures res < 0 ==> phys == old(phys) && Map() == old(Map())
      ensures res == 0 ==>
        && phys == Stored(old(phys), pd, index, PdeCreate(pfindex, flags))
        && RefMoved(old(Map()), Map(), pfindex, FrameOf(old(phys)[pd][index]))
      ensures pfindex != 0 && |phys| > 0 ==> Map()[0] == old(Map())[0]
    {
      EntryRoundTrip(pfindex, flags);
      res := ReplaceEntry(pd, index, pfindex, PdeCreate(pfindex, flags));
    }

    /** `page_directory_uninstall_page_table` */
    method UninstallPageTable(pd: nat, index: nat)
      requires Valid() && IsTable(phys, pd) && index < TABLE_LEN
      modifies `phys, pmem.memmap
      ensures Valid() <==> old(Replaceable(phys, shares, pd, index, PdeCreate(0, 0)))
      ensures phys == Stored(old(phys), pd, index, PdeCreate(0, 0))
      ensures RefMoved(old(Map()), Map(), 0, FrameOf(old(phys)[pd][index]))
      ensures |phys| > 0 ==> Map()[0] == old(Map())[0]
    {
      hide Accounted, Replaceable, RefMoved;
      assert PdeCreate(0, 0) == 0;
      ClearEntry(pd, index);
    }

  }
}
