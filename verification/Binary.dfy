/**
 Binary digits of natural numbers, by which shifts and masks are told from the
 divisions and remainders that model them.
 */
module Binary {

  function Pow2(n: nat): (p: nat)
    ensures p > 0
  {
    if n == 0 then 1 else 2 * Pow2(n - 1)
  }

  /** Bit i of x. */
  function Bit(x: nat, i: nat): (b: nat)
    ensures b < 2
  {
    if i == 0 then x % 2 else Bit(x / 2, i - 1)
  }

  lemma Halve(x: nat, p: nat, low: nat)
    requires p > 0 && low < 2 * p
    ensures (x * (2 * p) + low) / 2 == x * p + low / 2
    ensures (x * (2 * p) + low) % 2 == low % 2
  {
    assert x * (2 * p) + low == 2 * (x * p) + low;
  }

  /** Bits below k come from the low part, the others from x shifted by k. */
  lemma {:induction false} ShiftedBits(x: nat, k: nat, low: nat, i: nat)
    requires low < Pow2(k)
    ensures Bit(x * Pow2(k) + low, i) == if i < k then Bit(low, i) else Bit(x, i - k)
    decreases k
  {
    if k > 0 {
      Halve(x, Pow2(k - 1), low);
      if i > 0 {
        ShiftedBits(x, k - 1, low / 2, i - 1);
      }
    }
  }

  lemma {:induction false} ZeroBits(i: nat)
    ensures Bit(0, i) == 0
  {
    if i > 0 {
      ZeroBits(i - 1);
    }
  }

  /** A remainder keeps the bits below k and no others; a quotient shifts them out. */
  lemma SplitBits(x: nat, k: nat, q: nat, r: nat, i: nat)
    requires r < Pow2(k) && x == q * Pow2(k) + r
    ensures Bit(r, i) == if i < k then Bit(x, i) else 0
    ensures Bit(q, i) == Bit(x, i + k)
  {
    ShiftedBits(q, k, r, i);
    ShiftedBits(q, k, r, i + k);
    ShiftedBits(0, k, r, i);
    if i >= k {
      ZeroBits(i - k);
    }
  }

  /** Two numbers with the same bits are equal. */
  lemma {:induction false} SameBits(x: nat, y: nat, n: nat)
    requires x < Pow2(n) && y < Pow2(n)
    requires forall i: nat :: i < n ==> Bit(x, i) == Bit(y, i)
    ensures x == y
    decreases n
  {
    if n > 0 {
      assert Bit(x, 0) == Bit(y, 0);
      forall i: nat | i < n - 1 ensures Bit(x / 2, i) == Bit(y / 2, i) {
        assert Bit(x, i + 1) == Bit(y, i + 1);
      }
      SameBits(x / 2, y / 2, n - 1);
    }
  }

  lemma SmallPowers()
    ensures Pow2(1) == 2 && Pow2(3) == 8 && Pow2(5) == 32 && Pow2(7) == 128 && Pow2(8) == 256 && Pow2(12) == 4096
    ensures Pow2(20) == 0x10_0000 && Pow2(24) == 0x100_0000 && Pow2(32) == 0x1_0000_0000
  {
    assert Pow2(4) == 16;
    assert Pow2(8) == 16 * Pow2(4) by { assert Pow2(8) == 2 * Pow2(7) == 4 * Pow2(6) == 8 * Pow2(5) == 16 * Pow2(4); }
    assert Pow2(12) == 16 * Pow2(8) by { assert Pow2(12) == 2 * Pow2(11) == 4 * Pow2(10) == 8 * Pow2(9); }
    assert Pow2(16) == 16 * Pow2(12) by { assert Pow2(16) == 2 * Pow2(15) == 4 * Pow2(14) == 8 * Pow2(13); }
    assert Pow2(20) == 16 * Pow2(16) by { assert Pow2(20) == 2 * Pow2(19) == 4 * Pow2(18) == 8 * Pow2(17); }
    assert Pow2(24) == 16 * Pow2(20) by { assert Pow2(24) == 2 * Pow2(23) == 4 * Pow2(22) == 8 * Pow2(21); }
    assert Pow2(28) == 16 * Pow2(24) by { assert Pow2(28) == 2 * Pow2(27) == 4 * Pow2(26) == 8 * Pow2(25); }
    assert Pow2(32) == 16 * Pow2(28) by { assert Pow2(32) == 2 * Pow2(31) == 4 * Pow2(30) == 8 * Pow2(29); }
  }
}
