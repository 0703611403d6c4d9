/**
 bitset.c over byte arrays, at the level of bits.
 */
module Bitset {
  import opened Words

  /** `1 << (bit & 0x07)` */
  function Mask(i: nat): (m: bv8)
    requires i < 8
  {
    match i
    case 0 => 0x01
    case 1 => 0x02
    case 2 => 0x04
    case 3 => 0x08
    case 4 => 0x10
    case 5 => 0x20
    case 6 => 0x40
    case _ => 0x80
  }

  /** `bitset_isset` */
  predicate IsSet(s: seq<bv8>, bit: nat)
    requires bit < 8 * |s|
  {
    s[bit / 8] & Mask(bit % 8) != 0
  }

  /** The bits of the set, as a set of positions. */
  ghost function Bits(s: seq<bv8>): (r: set<nat>) {
    set bit: nat | bit < 8 * |s| && IsSet(s, bit)
  }

  /** The mask is the shifted one of the source, and a bit is set if it is what remains
      at the bottom of its byte, shifted down. */
  lemma MaskIsShift(b: bv8, i: nat)
    requires i < 8
    ensures Mask(i) == 1 << i
    ensures b & Mask(i) != 0 <==> (b >> i) & 1 == 1
  {
    match i {
      case 0 =>
      case 1 =>
      case 2 =>
      case 3 =>
      case 4 =>
      case 5 =>
      case 6 =>
      case 7 =>
    }
  }

  lemma SetMask(b: bv8, i: nat, j: nat)
    requires i < 8 && j < 8
    ensures (b | Mask(i)) & Mask(j) != 0 <==> i == j || b & Mask(j) != 0
  {
  }

  lemma UnsetMask(b: bv8, i: nat, j: nat)
    requires i < 8 && j < 8
    ensures (b & !Mask(i)) & Mask(j) != 0 <==> i != j && b & Mask(j) != 0
  {
  }

  /** `bitset_set` sets its bit and no other. */
  method Set(bitset: array<bv8>, bit: nat)
    requires bit < 8 * bitset.Length
    modifies bitset
    ensures Bits(bitset[..]) == Bits(old(bitset[..])) + {bit}
  {
    ghost var s := bitset[..];
    bitset[bit / 8] := bitset[bit / 8] | Mask(bit % 8);
    forall j: nat | j < 8 * |s| ensures IsSet(bitset[..], j) <==> j == bit || IsSet(s, j) {
      if j / 8 == bit / 8 {
        SetMask(s[bit / 8], bit % 8, j % 8);
      }
    }
  }

  /** `bitset_unset` clears its bit and no other. */
  method Unset(bitset: array<bv8>, bit: nat)
    requires bit < 8 * bitset.Length
    modifies bitset
    ensures Bits(bitset[..]) == Bits(old(bitset[..])) - {bit}
  {
    ghost var s := bitset[..];
    bitset[bit / 8] := bitset[bit / 8] & !Mask(bit % 8);
    forall j: nat | j < 8 * |s| ensures IsSet(bitset[..], j) <==> j != bit && IsSet(s, j) {
      if j / 8 == bit / 8 {
        UnsetMask(s[bit / 8], bit % 8, j % 8);
      }
    }
  }

  /** `bitset_isset` on the array. */
  method Test(bitset: array<bv8>, bit: nat) returns (set_: bool)
    requires bit < 8 * bitset.Length
    ensures set_ <==> bit in Bits(bitset[..])
  {
    set_ := bitset[bit / 8] & Mask(bit % 8) != 0;
    assert set_ <==> IsSet(bitset[..], bit);
  }

  /** `bitset_setto` */
  method SetTo(bitset: array<bv8>, bit: nat, set_: bool)
    requires bit < 8 * bitset.Length
    modifies bitset
    ensures Bits(bitset[..]) == if set_ then Bits(old(bitset[..])) + {bit} else Bits(old(bitset[..])) - {bit}
  {
    if set_ {
      Set(bitset, bit);
    } else {
      Unset(bitset, bit);
    }
  }

  /** `bitset_find_unset`: the least clear bit, or -EAGAIN when all are set. */
  method FindUnset(bitset: array<bv8>) returns (res: int)
    ensures res == -EAGAIN || (0 <= res < 8 * bitset.Length && res !in Bits(bitset[..]))
    ensures forall j: nat :: j < (if res == -EAGAIN then 8 * bitset.Length else res) ==> j in Bits(bitset[..])
  {
    var bit := 0;
    var i := 0;
    while i < bitset.Length
      invariant 0 <= i <= bitset.Length && bit == 8 * i
      invariant forall k: nat :: k < bit ==> IsSet(bitset[..], k)
    {
      var j := 0;
      while j < 8
        invariant 0 <= j <= 8 && bit == 8 * i + j
        invariant forall k: nat :: k < bit ==> IsSet(bitset[..], k)
      {
        if bitset[bit / 8] & Mask(bit % 8) == 0 {
          return bit;
        }
        assert IsSet(bitset[..], bit);
        j, bit := j + 1, bit + 1;
      }
      i := i + 1;
    }
    return -EAGAIN;
  }
}
