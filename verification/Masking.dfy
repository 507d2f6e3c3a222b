/** The table has 2^22 slots and computes positions with `& Mask` on 64-bit words.  These lemmas
    show that this is the cyclic arithmetic OrderTable is written in. */
module Masking {
  import opened MarketTypes
  import opened OrderTable

  const CAPACITY: nat := 0x40_0000
  const MASK: nat := CAPACITY - 1

  /** Bitwise conjunction of two words, bit by bit. */
  function BitAnd(x: nat, y: nat): nat
    decreases x
  {
    if x == 0 || y == 0 then 0 else (x % 2) * (y % 2) + 2 * BitAnd(x / 2, y / 2)
  }

  function Pow2(k: nat): (p: nat)
    ensures p > 0
  {
    if k == 0 then 1 else 2 * Pow2(k - 1)
  }

  lemma {:induction false} AndWithMask(x: nat, k: nat, q: nat, r: nat)
    requires x == Pow2(k) * q + r && r < Pow2(k)
    ensures BitAnd(x, Pow2(k) - 1) == r
    decreases k
  {
    if k == 0 {
    } else {
      var p := Pow2(k - 1);
      DoubledProduct(p, q);
      Halves(x, p * q, r);
      AndWithMask(x / 2, k - 1, q, r / 2);
      AndOddMask(x, p);
    }
  }

  lemma DoubledProduct(p: nat, q: nat)
    ensures 2 * p * q == 2 * (p * q)
  {
  }

  lemma Halves(x: nat, t: nat, r: nat)
    requires x == 2 * t + r
    ensures x / 2 == t + r / 2 && x % 2 == r % 2
  {
  }

  /** A mask of ones keeps the last bit and goes on with the mask one shorter. */
  lemma AndOddMask(x: nat, p: nat)
    requires p > 0
    ensures BitAnd(x, 2 * p - 1) == x % 2 + 2 * BitAnd(x / 2, p - 1)
  {
    assert (2 * p - 1) / 2 == p - 1 && (2 * p - 1) % 2 == 1;
  }

  lemma MaskOf(x: nat, q: nat, r: nat)
    requires x == CAPACITY * q + r && r < CAPACITY
    ensures BitAnd(x, MASK) == r
  {
    assert Pow2(22) == CAPACITY by {
      assert Pow2(4) == 16;
      assert Pow2(8) == 256;
      assert Pow2(12) == 4096;
      assert Pow2(16) == 65536;
      assert Pow2(20) == 0x10_0000;
    }
    AndWithMask(x, 22, q, r);
  }

  lemma MaskIsMod(x: nat)
    ensures BitAnd(x, MASK) == x % CAPACITY
  {
    MaskOf(x, x / CAPACITY, x % CAPACITY);
  }

  /** `(index + 1) & Mask` is the next slot. */
  lemma MaskedNext(i: nat)
    requires i < CAPACITY
    ensures BitAnd(i + 1, MASK) == Next(CAPACITY, i)
  {
    MaskOf(i + 1, if i + 1 == CAPACITY then 1 else 0, Next(CAPACITY, i));
  }

  /** `(b - a) & Mask`, with the 64-bit subtraction wrapping when `b < a`, is the cyclic distance. */
  lemma MaskedDistance(a: nat, b: nat)
    requires a < CAPACITY && b < CAPACITY
    ensures BitAnd(if b < a then TWO_64 + b - a else b - a, MASK) == Dist(CAPACITY, a, b)
  {
    if b < a {
      MaskOf(TWO_64 + b - a, 0x3ff_ffff_ffff, CAPACITY + b - a);
    } else {
      MaskOf(b - a, 0, b - a);
    }
  }
}
