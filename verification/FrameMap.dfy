/**
 The reference-counted frame allocator of pmem.c: one byte per page frame,
 two type bits above six count bits.
 */
module FrameMap {
  import opened Words

  const MAX_REF := 63

  datatype FrameType = None | Available | System

  function TypeBits(t: FrameType): (b: Byte) {
    match t
    case None => 0
    case Available => 64
    case System => 128
  }

  // ---- helpers on one map byte ------------------------------------------------

  /** The two highest bits. */
  function GetType(m: Byte): (t: Byte)
    ensures t <= m < t + 64
  {
    if m < 64 then 0 else if m < 128 then 64 else if m < 192 then 128 else 192
  }

  /** The six lowest bits. */
  function GetRef(m: Byte): (n: nat)
    ensures n <= MAX_REF
  {
    m - GetType(m)
  }

  function SetType(m: Byte, t: FrameType): (m': Byte) {
    GetRef(m) + TypeBits(t)
  }

  predicate CanRef(m: Byte) {
    GetRef(m) < MAX_REF
  }

  predicate CanUnref(m: Byte) {
    GetRef(m) != 0
  }

  function RefFrame(m: Byte): (m': Byte) {
    if m == 255 then 0 else m + 1
  }

  function UnrefFrame(m: Byte): (m': Byte) {
    if m == 0 then 255 else m - 1
  }

  /** `checked_unref_frame`, which leaves a zero count alone. */
  function CheckedUnref(m: Byte): (m': Byte) {
    if CanUnref(m) then UnrefFrame(m) else m
  }

  predicate IsAllocable(m: Byte) {
    GetType(m) == TypeBits(Available) && GetRef(m) == 0
  }

  /** The arithmetic reading of the masks 0x3f and 0xc0 is the bit-level one. */
  lemma MasksAreArithmetic(b: bv8)
    ensures (b & 0x3f) as int == GetRef(b as int)
    ensures (b & 0xc0) as int == GetType(b as int)
  {
    assert (b & 0x3f) as int == (b as int) % 64;
    assert (b & 0xc0) as int == (b as int) - (b as int) % 64;
  }

  /** Counting never spills into the type bits, exactly while the guards hold. */
  lemma CountStaysInItsBits(m: Byte)
    ensures CanRef(m) <==> GetType(RefFrame(m)) == GetType(m)
    ensures CanRef(m) ==> GetRef(RefFrame(m)) == GetRef(m) + 1 && UnrefFrame(RefFrame(m)) == m
    ensures CanUnref(m) <==> GetType(UnrefFrame(m)) == GetType(m)
    ensures CanUnref(m) ==> GetRef(UnrefFrame(m)) == GetRef(m) - 1
    ensures GetType(CheckedUnref(m)) == GetType(m)
  {
  }

  // ---- ranges -------------------------------------------------------------------

  /** `pmem_map_t` bytes with every count in [lo, hi) raised by one. */
  function RefRange(s: seq<Byte>, lo: nat, hi: nat): (r: seq<Byte>)
    ensures |r| == |s|
  {
    seq(|s|, i requires 0 <= i < |s| => if lo <= i < hi then RefFrame(s[i]) else s[i])
  }

  function UnrefRange(s: seq<Byte>, lo: nat, hi: nat): (r: seq<Byte>)
    ensures |r| == |s|
  {
    seq(|s|, i requires 0 <= i < |s| => if lo <= i < hi then CheckedUnref(s[i]) else s[i])
  }

  function TypeRange(s: seq<Byte>, lo: nat, hi: nat, t: FrameType): (r: seq<Byte>)
    ensures |r| == |s|
  {
    seq(|s|, i requires 0 <= i < |s| => if lo <= i < hi then SetType(s[i], t) else s[i])
  }

  /** The bounds test that opens every range operation. */
  predicate InMap(s: seq<Byte>, pfindex: nat, nframes: nat) {
    nframes <= |s| && pfindex <= |s| - nframes
  }

  predicate Free(s: seq<Byte>, pfindex: nat, nframes: nat)
    requires InMap(s, pfindex, nframes)
  {
    forall i :: pfindex <= i < pfindex + nframes ==> IsAllocable(s[i])
  }

  predicate Claimable(s: seq<Byte>, pfindex: nat, nframes: nat)
    requires InMap(s, pfindex, nframes)
  {
    forall i :: pfindex <= i < pfindex + nframes ==> CanRef(s[i])
  }

  predicate Refable(s: seq<Byte>, pfindex: nat, nframes: nat)
    requires InMap(s, pfindex, nframes)
  {
    forall i :: pfindex <= i < pfindex + nframes ==> CanUnref(s[i]) && CanRef(s[i])
  }

  /** The run starting at `i` is the least-indexed free run of `nframes` frames
      that does not use frame 0. */
  ghost predicate IsFirstFit(s: seq<Byte>, nframes: nat, i: nat)
  {
    && 1 <= i
    && InMap(s, i, nframes)
    && Free(s, i, nframes)
    && (forall j: nat :: 1 <= j < i ==> !Free(s, j, nframes))
  }

  ghost predicate NoFit(s: seq<Byte>, nframes: nat)
  {
    forall j: nat :: 1 <= j && InMap(s, j, nframes) ==> !Free(s, j, nframes)
  }

  /** What first-fit hands out: the index, or 0 when nothing fits. */
  ghost predicate FirstFitResult(s: seq<Byte>, nframes: nat, pfindex: nat) {
    if pfindex == 0 then NoFit(s, nframes) else IsFirstFit(s, nframes, pfindex)
  }

  /** No run starting in 1..beg-1 fits. */
  ghost predicate NoFitBelow(s: seq<Byte>, nframes: nat, beg: nat) {
    forall j: nat :: 1 <= j < beg && InMap(s, j, nframes) ==> !Free(s, j, nframes)
  }

  /** The search may step over frames that are in use ... */
  lemma SkipRejected(s: seq<Byte>, nframes: nat, beg: nat, next: nat)
    requires NoFitBelow(s, nframes, beg) && nframes > 0
    requires next <= |s|
    requires forall k :: beg <= k < next ==> !IsAllocable(s[k])
    ensures NoFitBelow(s, nframes, next)
  {
    forall j: nat | 1 <= j < next && InMap(s, j, nframes) ensures !Free(s, j, nframes) {
      assert j >= beg ==> !IsAllocable(s[j]);
    }
  }

  /** ... and past the first frame that blocks the run tried at `beg`. */
  lemma SkipBlocker(s: seq<Byte>, nframes: nat, beg: nat, k: nat)
    requires NoFitBelow(s, nframes, beg)
    requires beg <= k < beg + nframes && k < |s| && !IsAllocable(s[k])
    ensures NoFitBelow(s, nframes, k + 1)
  {
    forall j: nat | 1 <= j < k + 1 && InMap(s, j, nframes) ensures !Free(s, j, nframes) {
      assert j >= beg ==> j <= k < j + nframes;
    }
  }

  /** An allocation is one `Alloc` step of a run. */
  lemma AllocIsEffect(s: seq<Byte>, nframes: nat, pfindex: nat)
    requires nframes > 0 && FirstFitResult(s, nframes, pfindex)
    ensures Effect(s, Op.Alloc(nframes),
                   if pfindex == 0 then s else RefRange(s, pfindex, pfindex + nframes))
  {
  }

  /** First fit is a function of the memmap: two answers to one request agree. */
  lemma FirstFitIsUnique(s: seq<Byte>, nframes: nat, i: nat, j: nat)
    requires FirstFitResult(s, nframes, i) && FirstFitResult(s, nframes, j)
    ensures i == j
  {
  }

  // ---- how many frames are left ----------------------------------------------------

  ghost function Allocables(s: seq<Byte>): (r: set<nat>) {
    set f: nat | 1 <= f < |s| && IsAllocable(s[f])
  }

  /** The number of frames, frame 0 excepted, that can still be handed out. */
  ghost function Spare(s: seq<Byte>): (n: nat) {
    |Allocables(s)|
  }

  lemma SubsetSize(a: set<nat>, b: set<nat>)
    requires a <= b
    ensures |a| <= |b|
  {
    assert b == a + (b - a);
  }

  /** A single frame can be allocated exactly while one is left. */
  lemma NoFitIsNoSpare(s: seq<Byte>)
    ensures NoFit(s, 1) <==> Spare(s) == 0
  {
    if NoFit(s, 1) {
      forall f: nat | 1 <= f < |s| ensures !IsAllocable(s[f]) {
        assert InMap(s, f, 1) && !Free(s, f, 1);
      }
      assert Allocables(s) == {};
    } else {
      var j: nat :| 1 <= j && InMap(s, j, 1) && Free(s, j, 1);
      assert j in Allocables(s);
    }
  }

  /** If s' offers all that s offers except f, one frame fewer is left at worst. */
  lemma SpareAfter(s: seq<Byte>, s': seq<Byte>, f: nat)
    requires |s'| == |s| && forall g: nat :: 1 <= g < |s| && g != f && IsAllocable(s[g]) ==> IsAllocable(s'[g])
    ensures Spare(s') >= Spare(s) - 1
    ensures f == 0 || f >= |s| || !IsAllocable(s[f]) ==> Spare(s') >= Spare(s)
  {
    SubsetSize(Allocables(s) - {f}, Allocables(s'));
  }

  /** A reference taken on a whole claimable range and dropped again restores the map. */
  lemma RefUnrefRestores(s: seq<Byte>, pfindex: nat, nframes: nat)
    requires InMap(s, pfindex, nframes)
    ensures Claimable(s, pfindex, nframes) <==>
            UnrefRange(RefRange(s, pfindex, pfindex + nframes), pfindex, pfindex + nframes) == s
  {
    var r := UnrefRange(RefRange(s, pfindex, pfindex + nframes), pfindex, pfindex + nframes);
    if Claimable(s, pfindex, nframes) {
      assert r == s;
    } else {
      var i :| pfindex <= i < pfindex + nframes && !CanRef(s[i]);
      assert r[i] == RefFrame(s[i]) != s[i];
    }
  }

  // ---- whole runs of the allocator ------------------------------------------------

  datatype Op =
    | SetTypes(pfindex: nat, nframes: nat, t: FrameType)
    | Alloc(nframes: nat)
    | AllocAt(pfindex: nat, nframes: nat)
    | Claim(pfindex: nat, nframes: nat)
    | Ref(pfindex: nat, nframes: nat)
    | Unref(pfindex: nat, nframes: nat)

  /** The effect of one call on the map bytes; a failing call changes nothing. */
  ghost predicate Effect(s: seq<Byte>, op: Op, s': seq<Byte>) {
    match op
    case SetTypes(p, n, t) => s' == if InMap(s, p, n) then TypeRange(s, p, p + n, t) else s
    case Alloc(n) =>
      || (s' == s && (n == 0 || NoFit(s, n)))
      || (n > 0 && exists i: nat :: IsFirstFit(s, n, i) && s' == RefRange(s, i, i + n))
    case AllocAt(p, n) => s' == if InMap(s, p, n) && Free(s, p, n) then RefRange(s, p, p + n) else s
    case Claim(p, n) => s' == if InMap(s, p, n) && Claimable(s, p, n) then RefRange(s, p, p + n) else s
    case Ref(p, n) => s' == if InMap(s, p, n) && Refable(s, p, n) then RefRange(s, p, p + n) else s
    case Unref(p, n) => s' == if InMap(s, p, n) then UnrefRange(s, p, p + n) else s
  }

  ghost predicate IsRun(states: seq<seq<Byte>>, ops: seq<Op>) {
    && |states| == |ops| + 1
    && (forall k :: 0 <= k < |ops| ==> Effect(states[k], ops[k], states[k + 1]))
  }

  /** A call of `pmem_set_type` on a range with frame i in it. */
  predicate Retypes(op: Op, i: nat) {
    op.SetTypes? && op.pfindex <= i < op.pfindex + op.nframes
  }

  lemma EffectOnFrame(s: seq<Byte>, op: Op, s': seq<Byte>, i: nat)
    requires Effect(s, op, s')
    requires i < |s|
    ensures |s'| == |s|
    ensures op.SetTypes? ==> GetRef(s'[i]) == GetRef(s[i])
    ensures !Retypes(op, i) ==> GetType(s'[i]) == GetType(s[i])
    ensures GetRef(s[i]) - 1 <= GetRef(s'[i]) <= GetRef(s[i]) + 1
    ensures GetRef(s'[i]) > GetRef(s[i]) ==> op.Alloc? || op.AllocAt? || op.Claim? || op.Ref?
    ensures GetRef(s'[i]) < GetRef(s[i]) ==> op.Unref?
  {
    var b, b' := s[i], s'[i];
    assert b' == b || b' == RefFrame(b) || b' == CheckedUnref(b) || (op.SetTypes? && b' == SetType(b, op.t));
    if b' != b {
      match op {
        case SetTypes(_, _, _) =>
        case Unref(_, _) => UnrefByte(b);
        case _ =>
          assert CanRef(b);
          CountStaysInItsBits(b);
      }
    }
  }

  lemma UnrefByte(b: Byte)
    requires CheckedUnref(b) != b
    ensures GetType(CheckedUnref(b)) == GetType(b) && GetRef(CheckedUnref(b)) == GetRef(b) - 1
  {
    CountStaysInItsBits(b);
  }

  /** Over any run: the map keeps its size, the type of a frame is changed by
      nothing but `pmem_set_type` on that very frame, and since a count moves by at
      most one per call it can never run over into the type bits. */
  lemma {:induction false} TypesChangeOnlyBySetType(states: seq<seq<Byte>>, ops: seq<Op>, i: nat)
    requires IsRun(states, ops)
    requires i < |states[0]|
    requires forall k :: 0 <= k < |ops| ==> !Retypes(ops[k], i)
    ensures |states[|ops|]| == |states[0]|
    ensures GetType(states[|ops|][i]) == GetType(states[0][i])
    ensures GetRef(states[0][i]) - |ops| <= GetRef(states[|ops|][i]) <= GetRef(states[0][i]) + |ops|
  {
    if |ops| > 0 {
      var n := |ops| - 1;
      assert IsRun(states[..|ops|], ops[..n]);
      TypesChangeOnlyBySetType(states[..|ops|], ops[..n], i);
      assert Effect(states[n], ops[n], states[n + 1]);
      EffectOnFrame(states[n], ops[n], states[n + 1], i);
    }
  }

  /** The type that the last successful `pmem_set_type` on frame i gave it, or else b. */
  function TypeAfter(ops: seq<Op>, i: nat, len: nat, b: Byte): (t: Byte) {
    if ops == [] then b
    else
      var op := ops[|ops| - 1];
      if Retypes(op, i) && op.nframes <= len && op.pfindex <= len - op.nframes then TypeBits(op.t)
      else TypeAfter(ops[..|ops| - 1], i, len, b)
  }

  lemma EffectOnType(s: seq<Byte>, op: Op, s': seq<Byte>, i: nat)
    requires Effect(s, op, s') && i < |s|
    ensures |s'| == |s|
    ensures GetType(s'[i]) ==
            if Retypes(op, i) && op.nframes <= |s| && op.pfindex <= |s| - op.nframes then TypeBits(op.t)
            else GetType(s[i])
  {
    EffectOnFrame(s, op, s', i);
    if op.SetTypes? && InMap(s, op.pfindex, op.nframes) && Retypes(op, i) {
      assert s'[i] == GetRef(s[i]) + TypeBits(op.t);
    }
  }

  /** Over any run a frame can be allocated exactly if it was last made available and its
      count is zero; 0x40 is the bit pattern of available memory. */
  lemma {:induction false} AllocableOverRuns(states: seq<seq<Byte>>, ops: seq<Op>, i: nat)
    requires IsRun(states, ops) && i < |states[0]|
    ensures |states[|ops|]| == |states[0]|
    ensures GetType(states[|ops|][i]) == TypeAfter(ops, i, |states[0]|, GetType(states[0][i]))
    ensures IsAllocable(states[|ops|][i]) <==>
            TypeAfter(ops, i, |states[0]|, GetType(states[0][i])) == 0x40 && GetRef(states[|ops|][i]) == 0
  {
    if |ops| > 0 {
      var n := |ops| - 1;
      assert IsRun(states[..|ops|], ops[..n]);
      AllocableOverRuns(states[..|ops|], ops[..n], i);
      assert Effect(states[n], ops[n], states[n + 1]);
      EffectOnType(states[n], ops[n], states[n + 1], i);
    }
  }

  // ---- the allocator -----------------------------------------------------------------

  /** `struct pmem`. The map semaphore is taken around each operation; LockOrder
      and SemaphoreProtocol justify treating an operation as one step. */
  class PMem {
    const memmap: array<Byte>

    /** `pmem_init` */
    constructor (nframes: nat)
      ensures fresh(memmap) && memmap.Length == nframes
      ensures forall i :: 0 <= i < nframes ==> memmap[i] == 0
      ensures forall n: nat :: n > 0 ==> NoFit(memmap[..], n)
    {
      memmap := new Byte[nframes](_ => 0);
      new;
      forall n: nat, j: nat | n > 0 && 1 <= j && InMap(memmap[..], j, n) ensures !Free(memmap[..], j, n) {
        assert !IsAllocable(memmap[..][j]);
      }
    }

    method SetTypes(pfindex: nat, nframes: nat, t: FrameType) returns (res: int)
      modifies memmap
      ensures Effect(old(memmap[..]), Op.SetTypes(pfindex, nframes, t), memmap[..])
      ensures res == if InMap(old(memmap[..]), pfindex, nframes) then 0 else -ENODEV
    {
      if nframes > memmap.Length {
        return -ENODEV;
      } else if pfindex > memmap.Length - nframes {
        return -ENODEV;
      }
      var beg, end := pfindex, pfindex + nframes;
      while beg < end
        invariant pfindex <= beg <= end
        invariant memmap[..] == TypeRange(old(memmap[..]), pfindex, beg, t)
      {
        memmap[beg] := SetType(memmap[beg], t);
        beg := beg + 1;
      }
      return 0;
    }

    method FindAllocableFrame(beg: nat, end: nat) returns (i: nat)
      requires beg <= end <= memmap.Length
      ensures beg <= i <= end
      ensures forall k :: beg <= k < i ==> !IsAllocable(memmap[k])
      ensures i < end ==> IsAllocable(memmap[i])
    {
      i := beg;
      while i < end && !IsAllocable(memmap[i])
        invariant beg <= i <= end
        invariant forall k :: beg <= k < i ==> !IsAllocable(memmap[k])
      {
        i := i + 1;
      }
    }

    method FindNonAllocableFrame(beg: nat, end: nat) returns (i: nat)
      requires beg <= end <= memmap.Length
      ensures beg <= i <= end
      ensures forall k :: beg <= k < i ==> IsAllocable(memmap[k])
      ensures i < end ==> !IsAllocable(memmap[i])
    {
      i := beg;
      while i < end && IsAllocable(memmap[i])
        invariant beg <= i <= end
        invariant forall k :: beg <= k < i ==> IsAllocable(memmap[k])
      {
        i := i + 1;
      }
    }

    method RefFrameRange(beg: nat, end: nat)
      requires beg <= end <= memmap.Length
      modifies memmap
      ensures memmap[..] == RefRange(old(memmap[..]), beg, end)
    {
      var i := beg;
      while i < end
        invariant beg <= i <= end
        invariant memmap[..] == RefRange(old(memmap[..]), beg, i)
      {
        memmap[i] := RefFrame(memmap[i]);
        i := i + 1;
      }
    }

    /** All or nothing: the result is `end` exactly when the whole range was free. */
    method AllocFrameRange(beg: nat, end: nat) returns (i: nat)
      requires beg <= end <= memmap.Length
      modifies memmap
      ensures beg <= i <= end
      ensures forall k :: beg <= k < i ==> IsAllocable(old(memmap[k]))
      ensures i < end ==> !IsAllocable(old(memmap[i])) && memmap[..] == old(memmap[..])
      ensures i == end ==> memmap[..] == RefRange(old(memmap[..]), beg, end)
    {
      i := FindNonAllocableFrame(beg, end);
      if i != end {
        return;
      }
      RefFrameRange(beg, end);
    }

    /** `pmem_alloc_frames`: exact first fit over all runs avoiding frame 0. */
    method AllocFrames(nframes: nat) returns (pfindex: nat)
      requires nframes > 0
      modifies memmap
      ensures FirstFitResult(old(memmap[..]), nframes, pfindex)
      ensures memmap[..] == if pfindex == 0 then old(memmap[..])
                         else RefRange(old(memmap[..]), pfindex, pfindex + nframes)
    {
      ghost var s := memmap[..];
      if nframes > memmap.Length {
        return 0;
      }
      pfindex := 0;
      var beg, end := 1, memmap.Length - nframes + 1;
      while beg < end
        invariant 1 <= beg
        invariant memmap[..] == s
        invariant NoFitBelow(s, nframes, beg)
        decreases end - beg
      {
        var next := FindAllocableFrame(beg, end);
        SkipRejected(s, nframes, beg, next);
        beg := next;
        if beg == end {
          break;
        }
        var rangeEnd := AllocFrameRange(beg, beg + nframes);
        if nframes == rangeEnd - beg {
          return beg;
        }
        SkipBlocker(s, nframes, beg, rangeEnd);
        beg := rangeEnd + 1;
      }
    }

    /** `pmem_alloc_frames_at` */
    method AllocFramesAt(pfindex: nat, nframes: nat) returns (res: int)
      modifies memmap
      ensures Effect(old(memmap[..]), Op.AllocAt(pfindex, nframes), memmap[..])
      ensures res == if !InMap(old(memmap[..]), pfindex, nframes) then -ENOMEM
                     else if Free(old(memmap[..]), pfindex, nframes) then pfindex else 0
    {
      if nframes > memmap.Length {
        return -ENOMEM;
      } else if pfindex > memmap.Length - nframes {
        return -ENOMEM;
      }
      ghost var s := memmap[..];
      var end := AllocFrameRange(pfindex, pfindex + nframes);
      if nframes != end - pfindex {
        assert !IsAllocable(s[end]);
        return 0;
      }
      return pfindex;
    }

    /** The undo loop shared by `pmem_claim_frames` and `pmem_ref_frames`. */
    method UndoRefs(pfindex: nat, end: nat, ghost s: seq<Byte>)
      requires pfindex <= end <= memmap.Length == |s|
      requires forall i :: pfindex <= i < end ==> CanRef(s[i])
      requires memmap[..] == RefRange(s, pfindex, end)
      modifies memmap
      ensures memmap[..] == s
    {
      var beg := end;
      while beg > pfindex
        invariant pfindex <= beg <= end
        invariant memmap[..] == RefRange(s, pfindex, beg)
      {
        beg := beg - 1;
        CountStaysInItsBits(s[beg]);
        memmap[beg] := UnrefFrame(memmap[beg]);
      }
      assert RefRange(s, pfindex, pfindex) == s;
    }

    /** `pmem_claim_frames`: all or nothing, and it succeeds exactly when no
        count of the range is saturated. */
    method ClaimFrames(pfindex: nat, nframes: nat) returns (res: int)
      modifies memmap
      ensures Effect(old(memmap[..]), Op.Claim(pfindex, nframes), memmap[..])
      ensures res == if !InMap(old(memmap[..]), pfindex, nframes) then -ENOMEM
                     else if Claimable(old(memmap[..]), pfindex, nframes) then 0 else -EOVERFLOW
    {
      if nframes > memmap.Length {
        return -ENOMEM;
      } else if pfindex > memmap.Length - nframes {
        return -ENOMEM;
      }
      ghost var s := memmap[..];
      var beg, end := pfindex, pfindex + nframes;
      while beg < end
        invariant pfindex <= beg <= end
        invariant forall i :: pfindex <= i < beg ==> CanRef(s[i])
        invariant memmap[..] == RefRange(s, pfindex, beg)
      {
        if !CanRef(memmap[beg]) {
          assert !CanRef(s[beg]);
          UndoRefs(pfindex, beg, s);
          return -EOVERFLOW;
        }
        memmap[beg] := RefFrame(memmap[beg]);
        beg := beg + 1;
      }
      return 0;
    }

    /** `pmem_ref_frames`: as claiming, but every frame must already be in use.
        The error names the fault of the first offending frame. */
    method RefFrames(pfindex: nat, nframes: nat) returns (res: int)
      modifies memmap
      ensures Effect(old(memmap[..]), Op.Ref(pfindex, nframes), memmap[..])
      ensures res == 0 <==> InMap(old(memmap[..]), pfindex, nframes) && Refable(old(memmap[..]), pfindex, nframes)
      ensures res in {0, -ENOMEM, -ENODEV, -EOVERFLOW}
      ensures res == -ENOMEM <==> !InMap(old(memmap[..]), pfindex, nframes)
      ensures res in {-ENODEV, -EOVERFLOW} ==>
        exists i ::
          && pfindex <= i < pfindex + nframes
          && Refable(old(memmap[..]), pfindex, i - pfindex)
          && (if res == -ENODEV then !CanUnref(old(memmap[..])[i]) else !CanRef(old(memmap[..])[i]))
    {
      if nframes > memmap.Length {
        return -ENOMEM;
      } else if pfindex > memmap.Length - nframes {
        return -ENOMEM;
      }
      ghost var s := memmap[..];
      var beg, end := pfindex, pfindex + nframes;
      while beg < end
        invariant pfindex <= beg <= end
        invariant Refable(s, pfindex, beg - pfindex)
        invariant memmap[..] == RefRange(s, pfindex, beg)
      {
        assert memmap[beg] == s[beg];
        if GetRef(memmap[beg]) == 0 {
          UndoRefs(pfindex, beg, s);
          assert !CanUnref(s[beg]);
          return -ENODEV;
        }
        if !CanRef(memmap[beg]) {
          UndoRefs(pfindex, beg, s);
          assert !CanRef(s[beg]);
          return -EOVERFLOW;
        }
        memmap[beg] := RefFrame(memmap[beg]);
        beg := beg + 1;
      }
      return 0;
    }

    /** `pmem_unref_frames`: drops one reference per frame, ignoring zero counts. */
    method UnrefFrames(pfindex: nat, nframes: nat)
      modifies memmap
      ensures Effect(old(memmap[..]), Op.Unref(pfindex, nframes), memmap[..])
    {
      if nframes > memmap.Length {
        return;
      } else if pfindex > memmap.Length - nframes {
        return;
      }
      var beg, end := pfindex, pfindex + nframes;
      while beg < end
        invariant pfindex <= beg <= end
        invariant memmap[..] == UnrefRange(old(memmap[..]), pfindex, beg)
      {
        memmap[beg] := CheckedUnref(memmap[beg]);
        beg := beg + 1;
      }
    }
  }
}
