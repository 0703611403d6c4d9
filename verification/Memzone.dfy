/**
 The sizing part of `memzone_init` and the two flag bits per chunk of memzone.c.
 */
module Memzone {
  import opened Words
  import opened Binary
  import opened Bitset

  /** One large page of flags: 1024 pages of bytes, two bits per chunk. */
  const FLAGS_LEN := 0x40_0000
  const MAX_CHUNKS := 0x100_0000

  /** `logbase2`: the position of the highest set bit, -1 for zero. */
  method LogBase2(v: nat) returns (lgv: int)
    ensures v == 0 <==> lgv == -1
    ensures lgv >= -1 && v < Pow2(lgv + 1)
    ensures v > 0 ==> Pow2(lgv) <= v
  {
    lgv := -1;
    var w := v;
    while w != 0
      invariant w >= 0 && lgv >= -1
      invariant w * Pow2(lgv + 1) <= v < (w + 1) * Pow2(lgv + 1)
      invariant lgv == -1 ==> w == v
      invariant lgv >= 0 ==> v > 0 && (w == 0 ==> Pow2(lgv) <= v)
      decreases w
    {
      HalvingKeepsBounds(v, w, lgv + 1);
      w := w / 2;
      lgv := lgv + 1;
    }
  }

  lemma HalvingKeepsBounds(v: nat, w: nat, n: nat)
    requires w > 0 && w * Pow2(n) <= v < (w + 1) * Pow2(n)
    ensures (w / 2) * Pow2(n + 1) <= v < (w / 2 + 1) * Pow2(n + 1)
    ensures w / 2 == 0 ==> Pow2(n) <= v
  {
    var h, p := w / 2, Pow2(n);
    assert w == 2 * h || w == 2 * h + 1;
    assert h * (2 * p) == (2 * h) * p && (h + 1) * (2 * p) == (2 * h + 2) * p;
    if w == 2 * h {
      assert (w + 1) * p <= (2 * h + 2) * p;
    } else {
      assert (2 * h) * p <= w * p;
    }
  }

  /** Chunk size and count for an area of `npages` pages: the size is the least
      power of two above memsz / 2^24, so all flag bits fit the buffer. */
  method Sizing(npages: nat) returns (chunksize: nat, nchunks: nat, ghost k: nat)
    ensures chunksize == Pow2(k) && k <= 8
    ensures PageMemory(npages) / MAX_CHUNKS < chunksize
    ensures k == 0 || Pow2(k - 1) <= PageMemory(npages) / MAX_CHUNKS
    ensures nchunks == PageMemory(npages) / chunksize
    ensures nchunks < MAX_CHUNKS
    ensures forall i: nat :: i < nchunks ==> 2 * i + 1 < 8 * FLAGS_LEN
  {
    var memsz := PageMemory(npages);
    var q := memsz / MAX_CHUNKS;
    var lg := LogBase2(q);
    k := lg + 1;
    chunksize := Pow2(lg + 1);
    QuotientFits(q, lg);
    nchunks := memsz / chunksize;
    ChunkCount(memsz, q, chunksize);
  }

  lemma QuotientFits(q: nat, lg: int)
    requires q < 256 && lg >= -1 && (q > 0 ==> lg >= 0 && Pow2(lg) <= q) && (q == 0 ==> lg == -1)
    ensures lg + 1 <= 8
  {
    SmallPowers();
    if lg >= 8 {
      Pow2Grows(8, lg);
    }
  }

  lemma {:induction false} Pow2Grows(m: nat, n: nat)
    requires m <= n
    ensures Pow2(m) <= Pow2(n)
    decreases n - m
  {
    if m < n {
      Pow2Grows(m + 1, n);
    }
  }

  lemma ChunkCount(memsz: nat, q: nat, chunksize: nat)
    requires q == memsz / MAX_CHUNKS && q < chunksize
    ensures memsz / chunksize < MAX_CHUNKS
  {
    var n := memsz / chunksize;
    Quotient(memsz, chunksize);
    ScaledLess(q, chunksize);
    assert n * chunksize < MAX_CHUNKS * chunksize;
    CancelFactor(n, MAX_CHUNKS, chunksize);
  }

  lemma Quotient(a: nat, b: nat)
    requires b > 0
    ensures (a / b) * b <= a
  {
    assert a == b * (a / b) + a % b;
  }

  lemma ScaledLess(q: nat, c: nat)
    requires q < c
    ensures q * MAX_CHUNKS + MAX_CHUNKS <= c * MAX_CHUNKS
  {
  }

  lemma CancelFactor(a: nat, b: nat, c: nat)
    requires a * c < b * c
    ensures a < b
  {
    if b <= a {
      Monotone(b, a, c);
    }
  }

  lemma Monotone(a: nat, b: nat, c: nat)
    requires a <= b
    ensures a * c <= b * c
  {
  }

  // ---- chunk flags ----------------------------------------------------------------------------

  /** `memzone_get_flags` */
  function Flags(s: seq<bv8>, i: nat): (f: nat)
    requires 2 * i + 1 < 8 * |s|
  {
    (if IsSet(s, 2 * i) then 1 else 0) + (if IsSet(s, 2 * i + 1) then 2 else 0)
  }

  /** A chunk's flags are two positions of the set of bits. */
  lemma FlagsAreBits(s: seq<bv8>, i: nat)
    requires 2 * i + 1 < 8 * |s|
    ensures Flags(s, i) == (if 2 * i in Bits(s) then 1 else 0) + (if 2 * i + 1 in Bits(s) then 2 else 0)
  {
  }

  /** `memzone_set_flags`: the chunk's flags read back, and no other chunk's change. */
  method SetFlags(bits: array<bv8>, i: nat, flags: int)
    requires 2 * i + 1 < 8 * bits.Length
    modifies bits
    ensures 2 * i in Bits(bits[..]) <==> flags % 2 == 1
    ensures 2 * i + 1 in Bits(bits[..]) <==> flags / 2 % 2 == 1
    ensures Flags(bits[..], i) == flags % 4
    ensures forall j: nat :: j != i && 2 * j + 1 < 8 * bits.Length ==> Flags(bits[..], j) == Flags(old(bits[..]), j)
  {
    hide Flags, IsSet, Bits;
    ghost var s := bits[..];
    SetTo(bits, 2 * i, flags % 2 == 1);
    SetTo(bits, 2 * i + 1, flags / 2 % 2 == 1);
    ghost var t := bits[..];
    FlagsAreBits(t, i);
    forall j: nat | j != i && 2 * j + 1 < 8 * bits.Length ensures Flags(t, j) == Flags(s, j) {
      FlagsAreBits(s, j);
      FlagsAreBits(t, j);
    }
  }
}
