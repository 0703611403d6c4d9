/**
 Boot-time claims of multiboot.c: the frames under the Multiboot structures, the
 kernel sections and the modules are claimed before paging is set up and given
 back, in another order, once it is enabled.
 */
module Boot {
  import opened Words
  import opened FrameMap

  const INFO_MODS := 0x08
  const INFO_MEM_MAP := 0x40
  const INFO_SIZE := 120
  const MOD_SIZE := 16

  /** A byte range in physical memory. */
  datatype Region = Region(addr: Word, bytes: Word)

  /** `pageframe_index` */
  function FrameIndex(addr: Word): (pfindex: nat) {
    addr / 4096
  }

  /** `pageframe_span`, in 32-bit arithmetic */
  function FrameSpan(r: Region): (nframes: Word) {
    if r.bytes == 0 then 0
    else (1 + FrameIndex((r.addr + r.bytes - 1) % WORD) - FrameIndex(r.addr)) % WORD
  }

  /** `struct multiboot_mod_list`; `cmdline` is 0 for a module without one. */
  datatype Mod = Mod(start: Word, end: Word, cmdline: Word, cmdlen: Word)

  /** The parts of `struct multiboot_info` that are claimed, with its address. */
  datatype Info = Info(addr: Word, flags: Word, mmapAddr: Word, mmapLength: Word,
                       modsAddr: Word, mods: seq<Mod>, shdrs: seq<Region>)

  /** `first_mod_list` is not NULL. The flag test of the source is an inequality
      on the whole word. */
  predicate HasMods(info: Info) {
    info.flags != INFO_MODS && |info.mods| > 0 && info.modsAddr != 0
  }

  /** `first_mmap_entry` is not NULL. */
  predicate HasMmap(info: Info) {
    info.flags / INFO_MEM_MAP % 2 == 1 && info.mmapAddr != 0
  }

  function InfoRegion(info: Info): (r: Region) {
    Region(info.addr, INFO_SIZE)
  }

  function MmapRegion(info: Info): (r: Region) {
    Region(info.mmapAddr, info.mmapLength)
  }

  function ModListRegion(info: Info): (r: Region) {
    Region(info.modsAddr, (|info.mods| * MOD_SIZE) % WORD)
  }

  function ModRegion(m: Mod): (r: Region) {
    Region(m.start, (m.end - m.start + 1) % WORD)
  }

  function CmdlineRegion(m: Mod): (r: Region) {
    Region(m.cmdline, m.cmdlen)
  }

  // ---- the regions of a boot, as claimed and as reclaimed ---------------------

  function Opt(b: bool, r: Region): (rs: seq<Region>) {
    if b then [r] else []
  }

  function InfoClaims(info: Info): (rs: seq<Region>) {
    [InfoRegion(info)] + Opt(HasMmap(info), MmapRegion(info)) + Opt(HasMods(info), ModListRegion(info))
  }

  function InfoReclaims(info: Info): (rs: seq<Region>) {
    Opt(HasMods(info), ModListRegion(info)) + Opt(HasMmap(info), MmapRegion(info)) + [InfoRegion(info)]
  }

  /** Section headers with an address are in memory. */
  function SectionRegions(shdrs: seq<Region>): (rs: seq<Region>) {
    if shdrs == [] then []
    else
      var n := |shdrs| - 1;
      SectionRegions(shdrs[..n]) + Opt(shdrs[n].addr != 0, shdrs[n])
  }

  function ModClaims(mods: seq<Mod>): (rs: seq<Region>) {
    if mods == [] then []
    else
      var n := |mods| - 1;
      ModClaims(mods[..n]) + [ModRegion(mods[n])] + Opt(mods[n].cmdline != 0, CmdlineRegion(mods[n]))
  }

  function ModReclaims(mods: seq<Mod>): (rs: seq<Region>) {
    if mods == [] then []
    else
      var n := |mods| - 1;
      ModReclaims(mods[..n]) + Opt(mods[n].cmdline != 0, CmdlineRegion(mods[n])) + [ModRegion(mods[n])]
  }

  function Mods(info: Info): (mods: seq<Mod>) {
    if HasMods(info) then info.mods else []
  }

  function Claims(info: Info): (rs: seq<Region>) {
    InfoClaims(info) + SectionRegions(info.shdrs) + ModClaims(Mods(info))
  }

  function Reclaims(info: Info): (rs: seq<Region>) {
    ModReclaims(Mods(info)) + SectionRegions(info.shdrs) + InfoReclaims(info)
  }

  /** What is claimed is what is reclaimed, in another order. */
  lemma ReclaimsPermuteClaims(info: Info)
    ensures multiset(Claims(info)) == multiset(Reclaims(info))
  {
    ModReclaimsPermute(Mods(info));
  }

  lemma {:induction false} ModReclaimsPermute(mods: seq<Mod>)
    ensures multiset(ModClaims(mods)) == multiset(ModReclaims(mods))
  {
    if mods != [] {
      ModReclaimsPermute(mods[..|mods| - 1]);
    }
  }

  // ---- folds of claims and of reclaims -----------------------------------------

  datatype Outcome = Outcome(mem: seq<Byte>, res: int)

  predicate Fits(s: seq<Byte>, r: Region) {
    InMap(s, FrameIndex(r.addr), FrameSpan(r))
  }

  predicate Covers(r: Region, f: nat) {
    FrameIndex(r.addr) <= f < FrameIndex(r.addr) + FrameSpan(r)
  }

  /** Claims in sequence, up to the first that fails; earlier ones stay. */
  function ClaimAll(s: seq<Byte>, rs: seq<Region>): (o: Outcome)
    ensures |o.mem| == |s| && o.res <= 0
  {
    if rs == [] then Outcome(s, 0)
    else
      var n := |rs| - 1;
      var o := ClaimAll(s, rs[..n]);
      var p, k := FrameIndex(rs[n].addr), FrameSpan(rs[n]);
      if o.res != 0 then o
      else if !InMap(o.mem, p, k) then Outcome(o.mem, -ENOMEM)
      else if !Claimable(o.mem, p, k) then Outcome(o.mem, -EOVERFLOW)
      else Outcome(RefRange(o.mem, p, p + k), 0)
  }

  function ReclaimOne(s: seq<Byte>, r: Region): (s': seq<Byte>)
    ensures |s'| == |s|
  {
    if Fits(s, r) then UnrefRange(s, FrameIndex(r.addr), FrameIndex(r.addr) + FrameSpan(r)) else s
  }

  function ReclaimAll(s: seq<Byte>, rs: seq<Region>): (s': seq<Byte>)
    ensures |s'| == |s|
  {
    if rs == [] then s else ReclaimOne(ReclaimAll(s, rs[..|rs| - 1]), rs[|rs| - 1])
  }

  /** How many of the regions touch a frame. */
  function Cover(rs: seq<Region>, f: nat): (n: nat) {
    if rs == [] then 0
    else Cover(rs[..|rs| - 1], f) + if Covers(rs[|rs| - 1], f) then 1 else 0
  }

  ghost predicate AllFit(s: seq<Byte>, rs: seq<Region>) {
    forall i :: 0 <= i < |rs| ==> Fits(s, rs[i])
  }

  lemma {:induction false} CoverConcat(a: seq<Region>, b: seq<Region>, f: nat)
    ensures Cover(a + b, f) == Cover(a, f) + Cover(b, f)
    decreases |b|
  {
    if b == [] {
      assert a + b == a;
    } else {
      var n := |b| - 1;
      assert (a + b)[..|a + b| - 1] == a + b[..n];
      CoverConcat(a, b[..n], f);
    }
  }

  /** The number of regions touching a frame does not depend on their order. */
  lemma {:induction false} CoverPermutes(a: seq<Region>, b: seq<Region>, f: nat)
    requires multiset(a) == multiset(b)
    ensures Cover(a, f) == Cover(b, f)
    decreases |a|
  {
    if a == [] {
      assert |multiset(b)| == 0;
    } else {
      var n := |a| - 1;
      var x := a[n];
      assert a == a[..n] + [x];
      assert x in multiset(b);
      var j :| 0 <= j < |b| && b[j] == x;
      var b1, b2 := b[..j], b[j + 1..];
      assert b == b1 + [x] + b2;
      assert multiset(a) == multiset(a[..n]) + multiset{x};
      assert multiset(b) == multiset(b1 + b2) + multiset{x};
      assert multiset(a[..n]) == multiset(a) - multiset{x} == multiset(b1 + b2);
      CoverPermutes(a[..n], b1 + b2, f);
      CoverConcat(b1, b2, f);
      CoverConcat(b1, [x], f);
      CoverConcat(b1 + [x], b2, f);
      CoverConcat(a[..n], [x], f);
    }
  }

  /** Claiming goes on with `b` exactly when all of `a` was claimed. */
  lemma {:induction false} ClaimThen(s: seq<Byte>, a: seq<Region>, b: seq<Region>)
    ensures var o := ClaimAll(s, a);
            ClaimAll(s, a + b) == if o.res != 0 then o else ClaimAll(o.mem, b)
    decreases |b|
  {
    if b == [] {
      assert a + b == a;
    } else {
      assert (a + b)[..|a + b| - 1] == a + b[..|b| - 1];
      ClaimThen(s, a, b[..|b| - 1]);
    }
  }

  lemma ClaimNone(s: seq<Byte>)
    ensures ClaimAll(s, []) == Outcome(s, 0)
  {
  }

  lemma {:induction false} ReclaimConcat(s: seq<Byte>, a: seq<Region>, b: seq<Region>)
    ensures ReclaimAll(s, a + b) == ReclaimAll(ReclaimAll(s, a), b)
    decreases |b|
  {
    if b == [] {
      assert a + b == a;
    } else {
      assert (a + b)[..|a + b| - 1] == a + b[..|b| - 1];
      ReclaimConcat(s, a, b[..|b| - 1]);
    }
  }

  // ---- what the folds do to each frame -----------------------------------------

  lemma ClaimOneFrame(s: seq<Byte>, p: nat, k: nat, f: nat)
    requires InMap(s, p, k) && Claimable(s, p, k) && f < |s|
    ensures GetType(RefRange(s, p, p + k)[f]) == GetType(s[f])
    ensures GetRef(RefRange(s, p, p + k)[f]) == GetRef(s[f]) + if p <= f < p + k then 1 else 0
  {
    CountStaysInItsBits(s[f]);
  }

  lemma ReclaimOneFrame(s: seq<Byte>, r: Region, f: nat)
    requires Fits(s, r) && f < |s|
    ensures GetType(ReclaimOne(s, r)[f]) == GetType(s[f])
    ensures GetRef(ReclaimOne(s, r)[f]) ==
            if Covers(r, f) && CanUnref(s[f]) then GetRef(s[f]) - 1 else GetRef(s[f])
  {
    CountStaysInItsBits(s[f]);
  }

  /** Each frame's count has grown by the number of regions on it. */
  ghost predicate Raised(s: seq<Byte>, rs: seq<Region>, s': seq<Byte>) {
    |s'| == |s| && forall f: nat :: f < |s| ==>
      GetRef(s'[f]) == GetRef(s[f]) + Cover(rs, f) && GetType(s'[f]) == GetType(s[f])
  }

  lemma {:induction false} SuccessfulClaims(s: seq<Byte>, rs: seq<Region>)
    requires ClaimAll(s, rs).res == 0
    ensures AllFit(s, rs) && Raised(s, rs, ClaimAll(s, rs).mem)
    decreases |rs|
  {
    if rs != [] {
      var n := |rs| - 1;
      SuccessfulClaims(s, rs[..n]);
      var m := ClaimAll(s, rs[..n]).mem;
      assert Fits(s, rs[n]) && forall i :: 0 <= i < n ==> Fits(s, rs[..n][i]);
      forall f: nat | f < |s|
        ensures GetRef(ClaimAll(s, rs).mem[f]) == GetRef(s[f]) + Cover(rs, f)
        ensures GetType(ClaimAll(s, rs).mem[f]) == GetType(s[f])
      {
        ClaimOneFrame(m, FrameIndex(rs[n].addr), FrameSpan(rs[n]), f);
      }
    }
  }

  ghost predicate Room(s: seq<Byte>, rs: seq<Region>) {
    forall f: nat :: f < |s| ==> GetRef(s[f]) + Cover(rs, f) <= MAX_REF
  }

  lemma {:induction false} RoomSuffices(s: seq<Byte>, rs: seq<Region>)
    requires AllFit(s, rs) && Room(s, rs)
    ensures ClaimAll(s, rs).res == 0
    decreases |rs|
  {
    if rs != [] {
      var n := |rs| - 1;
      RoomSuffices(s, rs[..n]);
      SuccessfulClaims(s, rs[..n]);
      var m := ClaimAll(s, rs[..n]).mem;
      assert Fits(s, rs[n]) && Fits(m, rs[n]);
      forall f: nat | f < |s| && Covers(rs[n], f) ensures CanRef(m[f]) {
        assert GetRef(m[f]) == GetRef(s[f]) + Cover(rs, f) - 1;
      }
    }
  }

  /** Boot claims succeed exactly when every region lies in the map and no
      frame gets more than 63 references, however the regions overlap. */
  lemma ClaimsSucceedIff(s: seq<Byte>, rs: seq<Region>)
    ensures ClaimAll(s, rs).res == 0 <==> AllFit(s, rs) && Room(s, rs)
    ensures ClaimAll(s, rs).res == 0 ==> Raised(s, rs, ClaimAll(s, rs).mem)
  {
    if ClaimAll(s, rs).res == 0 {
      SuccessfulClaims(s, rs);
      forall f: nat | f < |s| ensures GetRef(s[f]) + Cover(rs, f) <= MAX_REF {
        assert GetRef(ClaimAll(s, rs).mem[f]) <= MAX_REF;
      }
    } else if AllFit(s, rs) && Room(s, rs) {
      RoomSuffices(s, rs);
    }
  }

  /** A reclaim pass subtracts with saturation at zero. */
  lemma {:induction false} ReclaimCounts(s: seq<Byte>, rs: seq<Region>, f: nat)
    requires AllFit(s, rs) && f < |s|
    ensures GetType(ReclaimAll(s, rs)[f]) == GetType(s[f])
    ensures GetRef(ReclaimAll(s, rs)[f]) ==
            if Cover(rs, f) <= GetRef(s[f]) then GetRef(s[f]) - Cover(rs, f) else 0
    decreases |rs|
  {
    if rs != [] {
      var n := |rs| - 1;
      ReclaimCounts(s, rs[..n], f);
      assert Fits(s, rs[n]);
      ReclaimOneFrame(ReclaimAll(s, rs[..n]), rs[n], f);
    }
  }

  /** No step of the pass meets a frame whose count is already zero. */
  ghost predicate GuardUnmet(s: seq<Byte>, rs: seq<Region>)
    decreases |rs|
  {
    rs == [] ||
    var (before, r) := (rs[..|rs| - 1], rs[|rs| - 1]);
    var s' := ReclaimAll(s, before);
    GuardUnmet(s, before) && forall f: nat :: f < |s| && Covers(r, f) ==> CanUnref(s'[f])
  }

  ghost predicate Backed(s: seq<Byte>, rs: seq<Region>) {
    forall f: nat :: f < |s| ==> Cover(rs, f) <= GetRef(s[f])
  }

  /** The saturating guard of `checked_unref_frame` stays idle exactly when
      every frame holds as many references as regions on it. */
  lemma {:induction false} GuardUnmetIff(s: seq<Byte>, rs: seq<Region>)
    requires AllFit(s, rs)
    ensures GuardUnmet(s, rs) <==> Backed(s, rs)
    decreases |rs|
  {
    if rs != [] {
      var n := |rs| - 1;
      GuardUnmetIff(s, rs[..n]);
      forall f: nat | f < |s|
        ensures Cover(rs, f) <= GetRef(s[f]) <==>
                && Cover(rs[..n], f) <= GetRef(s[f])
                && (Covers(rs[n], f) ==> CanUnref(ReclaimAll(s, rs[..n])[f]))
      {
        ReclaimCounts(s, rs[..n], f);
      }
    }
  }

  lemma FitIsOrderless(s: seq<Byte>, a: seq<Region>, b: seq<Region>)
    requires AllFit(s, a) && multiset(a) == multiset(b)
    ensures AllFit(s, b)
  {
    forall i | 0 <= i < |b| ensures Fits(s, b[i]) {
      assert b[i] in multiset(a);
    }
  }

  /** Claims cancel: whatever happens between the claims and the reclaim pass,
      as long as no frame ends up with fewer references than the claims left,
      the pass removes exactly the claimed references, never meets the saturating
      guard and changes no type. What remains is the memory map's own claim plus
      the references taken in between. */
  lemma BootClaimsCancel(s0: seq<Byte>, memmap: Region, info: Info, s1: seq<Byte>, s2: seq<Byte>)
    requires ClaimAll(s0, [memmap] + Claims(info)) == Outcome(s1, 0)
    requires |s2| == |s1| && forall f :: 0 <= f < |s1| ==> GetRef(s2[f]) >= GetRef(s1[f])
    ensures var s3 := ReclaimAll(s2, Reclaims(info));
            && GuardUnmet(s2, Reclaims(info))
            && ClaimAll(s0, [memmap]).res == 0
            && (forall f: nat :: f < |s0| ==>
                  && GetType(s3[f]) == GetType(s2[f])
                  && GetRef(s3[f]) == GetRef(s2[f]) - Cover(Claims(info), f)
                  && GetRef(s3[f]) == GetRef(ClaimAll(s0, [memmap]).mem[f]) + (GetRef(s2[f]) - GetRef(s1[f])))
  {
    hide ClaimAll, Claims, Reclaims, Cover, GuardUnmet, ReclaimAll, Fits;
    var cs, rs := Claims(info), Reclaims(info);
    ClaimThen(s0, [memmap], cs);
    var m := ClaimAll(s0, [memmap]).mem;
    SuccessfulClaims(m, cs);
    ReclaimsPermuteClaims(info);
    FitIsOrderless(m, cs, rs);
    FitDependsOnSize(m, s2, rs);
    forall f: nat | f < |s0| ensures Cover(rs, f) == Cover(cs, f) <= GetRef(s2[f]) {
      CoverPermutes(cs, rs, f);
      assert GetRef(s1[f]) == GetRef(m[f]) + Cover(cs, f);
    }
    GuardUnmetIff(s2, rs);
    forall f: nat | f < |s0|
      ensures GetType(ReclaimAll(s2, rs)[f]) == GetType(s2[f])
      ensures GetRef(ReclaimAll(s2, rs)[f]) == GetRef(s2[f]) - Cover(cs, f)
    {
      ReclaimCounts(s2, rs, f);
    }
  }

  lemma FitDependsOnSize(s: seq<Byte>, s': seq<Byte>, rs: seq<Region>)
    requires AllFit(s, rs) && |s| == |s'|
    ensures AllFit(s', rs)
  {
    assert forall i :: 0 <= i < |rs| ==> Fits(s, rs[i]) && Fits(s', rs[i]);
  }

  /** With nothing in between, the map is as if only the memory map had been claimed. */
  lemma ReclaimRestores(s0: seq<Byte>, memmap: Region, info: Info, s1: seq<Byte>)
    requires ClaimAll(s0, [memmap] + Claims(info)) == Outcome(s1, 0)
    ensures ClaimAll(s0, [memmap]) == Outcome(ReclaimAll(s1, Reclaims(info)), 0)
  {
    BootClaimsCancel(s0, memmap, info, s1, s1);
    hide ClaimAll, Claims, Reclaims, Cover, GuardUnmet, ReclaimAll;
    ClaimThen(s0, [memmap], Claims(info));
    var m, s3 := ClaimAll(s0, [memmap]).mem, ReclaimAll(s1, Reclaims(info));
    SuccessfulClaims(m, Claims(info));
    forall f: nat | f < |s0| ensures s3[f] == m[f] {
      assert m[f] == GetType(m[f]) + GetRef(m[f]);
      assert s3[f] == GetType(s3[f]) + GetRef(s3[f]);
    }
    assert s3 == m;
  }

  /** Where the claims stop: everything before the failing region is claimed and stays so;
      that region does not fit the map, or one of its frames is saturated. */
  lemma {:induction false} FailedClaims(s: seq<Byte>, rs: seq<Region>) returns (n: nat)
    requires ClaimAll(s, rs).res != 0
    ensures n < |rs| && ClaimAll(s, rs[..n]).res == 0 && ClaimAll(s, rs).mem == ClaimAll(s, rs[..n]).mem
    ensures ClaimAll(s, rs).res in {-ENOMEM, -EOVERFLOW}
    ensures ClaimAll(s, rs).res == -ENOMEM <==> !Fits(s, rs[n])
    ensures ClaimAll(s, rs).res == -EOVERFLOW ==>
      exists f: nat :: f < |s| && Covers(rs[n], f) && GetRef(ClaimAll(s, rs).mem[f]) == MAX_REF
    decreases |rs|
  {
    n := |rs| - 1;
    var o := ClaimAll(s, rs[..n]);
    if o.res != 0 {
      var k := FailedClaims(s, rs[..n]);
      assert rs[..n][..k] == rs[..k];
      n := k;
    } else if Fits(s, rs[n]) {
      var p, k := FrameIndex(rs[n].addr), FrameSpan(rs[n]);
      var f :| p <= f < p + k && !CanRef(o.mem[f]);
      assert Covers(rs[n], f) && f < |s|;
    }
  }

  // ---- the bytes behind the regions -------------------------------------------------------

  /** Byte a is one of the `len` bytes from addr on, which do not run over the end of the
      address space. */
  predicate Among(a: nat, addr: nat, len: nat) {
    addr <= a < addr + len <= WORD
  }

  /** Byte a belongs to the frame map itself, to the Multiboot information, its memory map
      or its list of modules, to a section of the kernel in memory, to a module or to a
      module's command line. A module reaches to its end address inclusive. */
  ghost predicate Holds(memmap: Region, info: Info, a: nat) {
    || Among(a, memmap.addr, memmap.bytes)
    || Among(a, info.addr, 120)
    || (info.flags / 64 % 2 == 1 && info.mmapAddr != 0 && Among(a, info.mmapAddr, info.mmapLength))
    || (exists i :: 0 <= i < |info.shdrs| && info.shdrs[i].addr != 0 &&
                    Among(a, info.shdrs[i].addr, info.shdrs[i].bytes))
    || (info.flags != 8 && |info.mods| > 0 && info.modsAddr != 0 &&
        (|| Among(a, info.modsAddr, 16 * |info.mods|)
         || (exists i :: 0 <= i < |info.mods| && ModHolds(info.mods[i], a))))
  }

  predicate ModHolds(m: Mod, a: nat) {
    || (m.start <= a <= m.end && m.end - m.start + 1 < WORD)
    || (m.cmdline != 0 && Among(a, m.cmdline, m.cmdlen))
  }

  /** Nothing that is claimed runs over the end of the address space. */
  ghost predicate Proper(memmap: Region, info: Info) {
    && memmap.addr + memmap.bytes <= WORD && info.addr + INFO_SIZE <= WORD
    && (info.flags / 64 % 2 == 1 ==> info.mmapAddr + info.mmapLength <= WORD)
    && (forall i :: 0 <= i < |info.shdrs| ==> info.shdrs[i].addr + info.shdrs[i].bytes <= WORD)
    && info.modsAddr + 16 * |info.mods| <= WORD
    && (forall i :: 0 <= i < |info.mods| ==> ProperMod(info.mods[i]))
  }

  predicate ProperMod(m: Mod) {
    m.start <= m.end + 1 && m.end - m.start + 1 < WORD && m.cmdline + m.cmdlen <= WORD
  }

  predicate InRegion(r: Region, a: nat) {
    Among(a, r.addr, r.bytes)
  }

  /** A region that does not wrap touches a frame exactly if it has a byte in it. */
  lemma CoversIffByte(r: Region, f: nat)
    requires r.addr + r.bytes <= WORD
    ensures Covers(r, f) ==> InRegion(r, if r.addr <= f * 4096 then f * 4096 else r.addr)
    ensures Covers(r, f) ==> (if r.addr <= f * 4096 then f * 4096 else r.addr) / 4096 == f
    ensures forall a: nat :: InRegion(r, a) && a / 4096 == f ==> Covers(r, f)
  {
    if r.bytes > 0 {
      var last := r.addr + r.bytes - 1;
      assert FrameSpan(r) == 1 + last / 4096 - r.addr / 4096;
    }
  }

  lemma {:induction false} CoverPositive(rs: seq<Region>, f: nat)
    ensures Cover(rs, f) > 0 <==> exists r :: r in rs && Covers(r, f)
  {
    if rs != [] {
      var n := |rs| - 1;
      CoverPositive(rs[..n], f);
      assert forall r :: r in rs <==> r in rs[..n] || r == rs[n];
    }
  }

  lemma {:induction false} SectionMembers(shdrs: seq<Region>, r: Region)
    ensures r in SectionRegions(shdrs) <==> exists i :: 0 <= i < |shdrs| && shdrs[i].addr != 0 && r == shdrs[i]
  {
    if shdrs != [] {
      var n := |shdrs| - 1;
      SectionMembers(shdrs[..n], r);
      if i :| 0 <= i < n && shdrs[i].addr != 0 && r == shdrs[i] {
        assert shdrs[..n][i] == r;
      }
    }
  }

  ghost predicate OfMod(m: Mod, r: Region) {
    r == ModRegion(m) || (m.cmdline != 0 && r == CmdlineRegion(m))
  }

  lemma {:induction false} ModMembers(mods: seq<Mod>, r: Region)
    ensures r in ModClaims(mods) <==> exists i :: 0 <= i < |mods| && OfMod(mods[i], r)
  {
    if mods != [] {
      var n := |mods| - 1;
      ModMembers(mods[..n], r);
      if i :| 0 <= i < n && OfMod(mods[i], r) {
        assert OfMod(mods[..n][i], r);
      }
      assert OfMod(mods[n], r) <==> r in [ModRegion(mods[n])] + Opt(mods[n].cmdline != 0, CmdlineRegion(mods[n]));
    }
  }

  /** The regions claimed, one by one. */
  lemma ClaimMembers(memmap: Region, info: Info, r: Region)
    ensures r in [memmap] + Claims(info) <==>
            || r == memmap || r == InfoRegion(info)
            || (HasMmap(info) && r == MmapRegion(info))
            || (HasMods(info) && r == ModListRegion(info))
            || (exists i :: 0 <= i < |info.shdrs| && info.shdrs[i].addr != 0 && r == info.shdrs[i])
            || (HasMods(info) && exists i :: 0 <= i < |info.mods| && OfMod(info.mods[i], r))
  {
    hide SectionRegions, ModClaims;
    SectionMembers(info.shdrs, r);
    ModMembers(Mods(info), r);
    assert r in InfoClaims(info) <==>
      || r == InfoRegion(info) || (HasMmap(info) && r == MmapRegion(info))
      || (HasMods(info) && r == ModListRegion(info));
  }

  /** Every byte of the boot structures lies in a region that is claimed ... */
  lemma ByteHasRegion(memmap: Region, info: Info, a: nat) returns (r: Region)
    requires Holds(memmap, info, a)
    ensures r in [memmap] + Claims(info) && InRegion(r, a)
  {
    hide Claims;
    if Among(a, memmap.addr, memmap.bytes) {
      r := memmap;
    } else if Among(a, info.addr, 120) {
      r := InfoRegion(info);
    } else if HasMmap(info) && Among(a, info.mmapAddr, info.mmapLength) {
      r := MmapRegion(info);
    } else if i :| 0 <= i < |info.shdrs| && info.shdrs[i].addr != 0 &&
                   Among(a, info.shdrs[i].addr, info.shdrs[i].bytes) {
      r := info.shdrs[i];
    } else if Among(a, info.modsAddr, 16 * |info.mods|) {
      r := ModListRegion(info);
    } else {
      var i :| 0 <= i < |info.mods| && ModHolds(info.mods[i], a);
      r := ModByteRegion(info.mods[i], a);
      assert OfMod(info.mods[i], r);
    }
    ClaimMembers(memmap, info, r);
  }

  lemma ModByteRegion(m: Mod, a: nat) returns (r: Region)
    requires ModHolds(m, a)
    ensures OfMod(m, r) && InRegion(r, a)
  {
    r := if m.start <= a <= m.end && m.end - m.start + 1 < WORD then ModRegion(m) else CmdlineRegion(m);
  }

  /** ... and every byte of a claimed region belongs to one of them. */
  lemma RegionIsBytes(memmap: Region, info: Info, r: Region, a: nat)
    requires Proper(memmap, info) && r in [memmap] + Claims(info)
    ensures r.addr + r.bytes <= WORD && (InRegion(r, a) ==> Holds(memmap, info, a))
  {
    hide Claims;
    ClaimMembers(memmap, info, r);
    if HasMods(info) && exists i :: 0 <= i < |info.mods| && OfMod(info.mods[i], r) {
      var i :| 0 <= i < |info.mods| && OfMod(info.mods[i], r);
      assert ProperMod(info.mods[i]);
      assert InRegion(r, a) ==> ModHolds(info.mods[i], a);
    }
  }

  /** After the claims have succeeded, no frame with a byte of the boot structures can be
      handed out: its count has grown. */
  lemma BootBytesAreKept(s0: seq<Byte>, memmap: Region, info: Info, s1: seq<Byte>, a: nat)
    requires ClaimAll(s0, [memmap] + Claims(info)) == Outcome(s1, 0) && Holds(memmap, info, a)
    ensures a / 4096 < |s1| == |s0| && GetRef(s1[a / 4096]) > GetRef(s0[a / 4096]) && !IsAllocable(s1[a / 4096])
  {
    hide Claims, ClaimAll, Holds, Cover, Fits;
    var rs := [memmap] + Claims(info);
    var r := ByteHasRegion(memmap, info, a);
    SuccessfulClaims(s0, rs);
    CoversIffByte(r, a / 4096);
    CoverPositive(rs, a / 4096);
    FitCovers(s0, rs, r, a / 4096);
  }

  lemma FitCovers(s: seq<Byte>, rs: seq<Region>, r: Region, f: nat)
    requires AllFit(s, rs) && r in rs && Covers(r, f)
    ensures f < |s|
  {
    var i :| 0 <= i < |rs| && rs[i] == r;
    assert Fits(s, rs[i]);
  }

  /** Conversely, a frame whose count has grown has such a byte. */
  lemma GrownFramesHoldBytes(s0: seq<Byte>, memmap: Region, info: Info, s1: seq<Byte>, f: nat) returns (a: nat)
    requires ClaimAll(s0, [memmap] + Claims(info)) == Outcome(s1, 0) && Proper(memmap, info)
    requires f < |s1| == |s0| && GetRef(s1[f]) != GetRef(s0[f])
    ensures a / 4096 == f && Holds(memmap, info, a)
  {
    hide Claims, ClaimAll, Holds, Cover, Proper;
    var rs := [memmap] + Claims(info);
    SuccessfulClaims(s0, rs);
    CoverPositive(rs, f);
    var r :| r in rs && Covers(r, f);
    a := if r.addr <= f * 4096 then f * 4096 else r.addr;
    RegionIsBytes(memmap, info, r, a);
    CoversIffByte(r, f);
  }

  // ---- the code over the global frame map ----------------------------------------

  method ClaimRegion(pm: PMem, r: Region) returns (res: int)
    modifies pm.memmap
    ensures Outcome(pm.memmap[..], res) == ClaimAll(old(pm.memmap[..]), [r])
  {
    res := pm.ClaimFrames(FrameIndex(r.addr), FrameSpan(r));
    assert [r][..0] == [];
  }

  /** `claim_multiboot_frames` */
  method ClaimMultibootFrames(pm: PMem, info: Info) returns (res: int)
    modifies pm.memmap
    ensures Outcome(pm.memmap[..], res) == ClaimAll(old(pm.memmap[..]), InfoClaims(info))
  {
    hide ClaimAll, FrameIndex, FrameSpan;
    ghost var s := pm.memmap[..];
    ghost var a, b := [InfoRegion(info)], Opt(HasMmap(info), MmapRegion(info));
    ghost var c := Opt(HasMods(info), ModListRegion(info));
    ClaimThen(s, a + b, c);
    ClaimThen(s, a, b);
    res := ClaimRegion(pm, InfoRegion(info));
    if res < 0 {
      return;
    }
    ClaimNone(pm.memmap[..]);
    if HasMmap(info) {
      res := ClaimRegion(pm, MmapRegion(info));
      if res < 0 {
        return;
      }
    }
    ClaimNone(pm.memmap[..]);
    if HasMods(info) {
      res := ClaimRegion(pm, ModListRegion(info));
      if res < 0 {
        return;
      }
    }
    return 0;
  }

  /** `claim_kernel_frames` */
  method ClaimKernelFrames(pm: PMem, info: Info) returns (res: int)
    modifies pm.memmap
    ensures Outcome(pm.memmap[..], res) == ClaimAll(old(pm.memmap[..]), SectionRegions(info.shdrs))
  {
    hide ClaimAll, FrameIndex, FrameSpan;
    ghost var s := pm.memmap[..];
    ClaimNone(s);
    var i := 0;
    while i < |info.shdrs|
      invariant 0 <= i <= |info.shdrs|
      invariant Outcome(pm.memmap[..], 0) == ClaimAll(s, SectionRegions(info.shdrs[..i]))
    {
      SectionsSplit(info.shdrs, i);
      ghost var a, b := SectionRegions(info.shdrs[..i]), Opt(info.shdrs[i].addr != 0, info.shdrs[i]);
      ghost var rest := SectionRegions(info.shdrs[i + 1..]);
      ClaimThen(s, a, b);
      ClaimThen(s, a + b, rest);
      ClaimNone(pm.memmap[..]);
      if info.shdrs[i].addr != 0 {
        res := ClaimRegion(pm, info.shdrs[i]);
        if res < 0 {
          return;
        }
      }
      i := i + 1;
    }
    assert info.shdrs[..i] == info.shdrs;
    return 0;
  }

  lemma {:induction false} SectionsConcat(a: seq<Region>, b: seq<Region>)
    ensures SectionRegions(a + b) == SectionRegions(a) + SectionRegions(b)
    decreases |b|
  {
    if b == [] {
      assert a + b == a;
    } else {
      assert (a + b)[..|a + b| - 1] == a + b[..|b| - 1];
      SectionsConcat(a, b[..|b| - 1]);
    }
  }

  lemma {:induction false} SectionsNext(shdrs: seq<Region>, i: nat)
    requires i < |shdrs|
    ensures SectionRegions(shdrs[..i + 1]) == SectionRegions(shdrs[..i]) + Opt(shdrs[i].addr != 0, shdrs[i])
  {
    assert shdrs[..i + 1][..i] == shdrs[..i];
  }

  lemma {:induction false} SectionsSplit(shdrs: seq<Region>, i: nat)
    requires i < |shdrs|
    ensures SectionRegions(shdrs[..i + 1]) == SectionRegions(shdrs[..i]) + Opt(shdrs[i].addr != 0, shdrs[i])
    ensures SectionRegions(shdrs) == SectionRegions(shdrs[..i + 1]) + SectionRegions(shdrs[i + 1..])
  {
    hide SectionRegions;
    SectionsNext(shdrs, i);
    assert shdrs == shdrs[..i + 1] + shdrs[i + 1..];
    SectionsConcat(shdrs[..i + 1], shdrs[i + 1..]);
  }

  lemma {:induction false} ModClaimsConcat(a: seq<Mod>, b: seq<Mod>)
    ensures ModClaims(a + b) == ModClaims(a) + ModClaims(b)
    decreases |b|
  {
    if b == [] {
      assert a + b == a;
    } else {
      assert (a + b)[..|a + b| - 1] == a + b[..|b| - 1];
      ModClaimsConcat(a, b[..|b| - 1]);
    }
  }

  lemma {:induction false} ModsNext(mods: seq<Mod>, i: nat)
    requires i < |mods|
    ensures ModClaims(mods[..i + 1]) ==
            ModClaims(mods[..i]) + [ModRegion(mods[i])] + Opt(mods[i].cmdline != 0, CmdlineRegion(mods[i]))
  {
    assert mods[..i + 1][..i] == mods[..i];
  }

  lemma {:induction false} ModsSplit(mods: seq<Mod>, i: nat)
    requires i < |mods|
    ensures ModClaims(mods[..i + 1]) ==
            ModClaims(mods[..i]) + [ModRegion(mods[i])] + Opt(mods[i].cmdline != 0, CmdlineRegion(mods[i]))
    ensures ModClaims(mods) == ModClaims(mods[..i + 1]) + ModClaims(mods[i + 1..])
  {
    hide ModClaims;
    ModsNext(mods, i);
    assert mods == mods[..i + 1] + mods[i + 1..];
    ModClaimsConcat(mods[..i + 1], mods[i + 1..]);
  }

  /** `claim_modules_frames` */
  method ClaimModulesFrames(pm: PMem, info: Info) returns (res: int)
    modifies pm.memmap
    ensures Outcome(pm.memmap[..], res) == ClaimAll(old(pm.memmap[..]), ModClaims(Mods(info)))
  {
    hide ClaimAll, FrameIndex, FrameSpan;
    ghost var s := pm.memmap[..];
    ClaimNone(s);
    if !HasMods(info) {
      return 0;
    }
    var i := 0;
    while i < |info.mods|
      invariant 0 <= i <= |info.mods|
      invariant Outcome(pm.memmap[..], 0) == ClaimAll(s, ModClaims(info.mods[..i]))
    {
      var m := info.mods[i];
      ModsSplit(info.mods, i);
      ghost var a, b, c := ModClaims(info.mods[..i]), [ModRegion(m)], Opt(m.cmdline != 0, CmdlineRegion(m));
      ClaimThen(s, a, b);
      ClaimThen(s, a + b, c);
      ClaimThen(s, a + b + c, ModClaims(info.mods[i + 1..]));
      res := ClaimRegion(pm, ModRegion(m));
      if res < 0 {
        return;
      }
      ClaimNone(pm.memmap[..]);
      if m.cmdline != 0 {
        res := ClaimRegion(pm, CmdlineRegion(m));
        if res < 0 {
          return;
        }
      }
      i := i + 1;
    }
    assert info.mods[..i] == info.mods;
    return 0;
  }

  /** The claims of `init_pmem_from_multiboot`: the memory map's own, then the
      Multiboot structures, the kernel and the modules. */
  method ClaimBootFrames(pm: PMem, memmap: Region, info: Info) returns (res: int)
    modifies pm.memmap
    ensures Outcome(pm.memmap[..], res) == ClaimAll(old(pm.memmap[..]), [memmap] + Claims(info))
    ensures res == 0 ==> forall a: nat :: Holds(memmap, info, a) ==>
              a / 4096 < pm.memmap.Length && !IsAllocable(pm.memmap[a / 4096])
  {
    hide ClaimAll, FrameIndex, FrameSpan, InfoClaims, SectionRegions, ModClaims, Holds, IsAllocable;
    ghost var s := pm.memmap[..];
    ghost var a, b, c := InfoClaims(info), SectionRegions(info.shdrs), ModClaims(Mods(info));
    ClaimThen(s, [memmap], a + b + c);
    res := ClaimRegion(pm, memmap);
    if res < 0 {
      return;
    }
    ghost var m := pm.memmap[..];
    ClaimThen(m, a, b);
    ClaimThen(m, a + b, c);
    res := ClaimMultibootFrames(pm, info);
    if res < 0 {
      return;
    }
    res := ClaimKernelFrames(pm, info);
    if res < 0 {
      return;
    }
    res := ClaimModulesFrames(pm, info);
    if res == 0 {
      forall a: nat | Holds(memmap, info, a)
        ensures a / 4096 < pm.memmap.Length && !IsAllocable(pm.memmap[a / 4096])
      {
        BootBytesAreKept(s, memmap, info, pm.memmap[..], a);
      }
    }
  }

  method ReclaimRegion(pm: PMem, r: Region)
    modifies pm.memmap
    ensures pm.memmap[..] == ReclaimOne(old(pm.memmap[..]), r)
  {
    pm.UnrefFrames(FrameIndex(r.addr), FrameSpan(r));
  }

  lemma ReclaimLast(s: seq<Byte>, a: seq<Region>, r: Region)
    ensures ReclaimAll(s, a + [r]) == ReclaimOne(ReclaimAll(s, a), r)
    ensures ReclaimAll(s, []) == s
  {
    assert (a + [r])[..|a|] == a;
  }

  /** `reclaim_modules_frames` */
  method ReclaimModulesFrames(pm: PMem, info: Info)
    modifies pm.memmap
    ensures pm.memmap[..] == ReclaimAll(old(pm.memmap[..]), ModReclaims(Mods(info)))
  {
    hide ReclaimAll, ReclaimOne, FrameIndex, FrameSpan;
    ghost var s := pm.memmap[..];
    ReclaimLast(s, [], Region(0, 0));
    if !HasMods(info) {
      return;
    }
    var i := 0;
    while i < |info.mods|
      invariant 0 <= i <= |info.mods|
      invariant pm.memmap[..] == ReclaimAll(s, ModReclaims(info.mods[..i]))
    {
      var m := info.mods[i];
      ghost var a, b := ModReclaims(info.mods[..i]), Opt(m.cmdline != 0, CmdlineRegion(m));
      assert info.mods[..i + 1][..i] == info.mods[..i];
      if m.cmdline != 0 {
        ReclaimLast(s, a, CmdlineRegion(m));
        ReclaimRegion(pm, CmdlineRegion(m));
      }
      assert m.cmdline == 0 ==> a + b == a;
      ReclaimLast(s, a + b, ModRegion(m));
      ReclaimRegion(pm, ModRegion(m));
      i := i + 1;
    }
    assert info.mods[..i] == info.mods;
  }

  /** `reclaim_kernel_frames` */
  method ReclaimKernelFrames(pm: PMem, info: Info)
    modifies pm.memmap
    ensures pm.memmap[..] == ReclaimAll(old(pm.memmap[..]), SectionRegions(info.shdrs))
  {
    hide ReclaimAll, ReclaimOne, FrameIndex, FrameSpan;
    ghost var s := pm.memmap[..];
    ReclaimLast(s, [], Region(0, 0));
    var i := 0;
    while i < |info.shdrs|
      invariant 0 <= i <= |info.shdrs|
      invariant pm.memmap[..] == ReclaimAll(s, SectionRegions(info.shdrs[..i]))
    {
      ghost var a := SectionRegions(info.shdrs[..i]);
      assert info.shdrs[..i + 1][..i] == info.shdrs[..i];
      if info.shdrs[i].addr != 0 {
        ReclaimLast(s, a, info.shdrs[i]);
        ReclaimRegion(pm, info.shdrs[i]);
      }
      assert a + [] == a;
      i := i + 1;
    }
    assert info.shdrs[..i] == info.shdrs;
  }

  /** `reclaim_multiboot_frames` */
  method ReclaimMultibootFrames(pm: PMem, info: Info)
    modifies pm.memmap
    ensures pm.memmap[..] == ReclaimAll(old(pm.memmap[..]), InfoReclaims(info))
  {
    hide ReclaimAll, ReclaimOne, FrameIndex, FrameSpan;
    ghost var s := pm.memmap[..];
    ghost var a, b := Opt(HasMods(info), ModListRegion(info)), Opt(HasMmap(info), MmapRegion(info));
    if HasMods(info) {
      ReclaimLast(s, [], ModListRegion(info));
      assert [] + [ModListRegion(info)] == a;
      ReclaimRegion(pm, ModListRegion(info));
    }
    ReclaimLast(s, a, MmapRegion(info));
    if HasMmap(info) {
      ReclaimRegion(pm, MmapRegion(info));
    }
    assert !HasMmap(info) ==> a + b == a;
    ReclaimLast(s, a + b, InfoRegion(info));
    ReclaimRegion(pm, InfoRegion(info));
  }

  /** The reclaim pass of `multiboot_init`, after paging has been enabled. */
  method ReclaimBootFrames(pm: PMem, info: Info)
    modifies pm.memmap
    ensures pm.memmap[..] == ReclaimAll(old(pm.memmap[..]), Reclaims(info))
  {
    hide ReclaimAll, ModReclaims, SectionRegions, InfoReclaims;
    ghost var s := pm.memmap[..];
    ghost var a, b := ModReclaims(Mods(info)), SectionRegions(info.shdrs);
    ReclaimConcat(s, a, b);
    ReclaimConcat(s, a + b, InfoReclaims(info));
    ReclaimModulesFrames(pm, info);
    ReclaimKernelFrames(pm, info);
    ReclaimMultibootFrames(pm, info);
  }
}
