/** Unsigned 32-bit words and the bit operations the driver applies to its
    registers: C's `uint32_t`, `|` and `<<`. A word is an unbounded integer
    confined to 0 .. 2^32-1; wrap-around is written out with `% Modulus`. */
module Bits {

  const Modulus: int := 0x1_0000_0000

  type uint32 = x: int | 0 <= x < Modulus

  /** 2^k */
  function Pow2(k: nat): (p: nat)
    ensures p > 0
  {
    if k == 0 then 1 else 2 * Pow2(k - 1)
  }

  lemma {:induction false} Pow2Add(a: nat, b: nat)
    ensures Pow2(a + b) == Pow2(a) * Pow2(b)
    decreases a
  {
    if a > 0 { Pow2Add(a - 1, b); }
  }

  /** A word has 32 bits. */
  lemma Pow2Word()
    ensures Pow2(32) == Modulus
  {
    assert Pow2(4) == 16;
    Pow2Add(4, 4);
    Pow2Add(8, 8);
    Pow2Add(16, 16);
  }

  /** Bit i of x (bit 0 is the least significant one). */
  predicate Bit(x: nat, i: nat)
  {
    if i == 0 then x % 2 == 1 else Bit(x / 2, i - 1)
  }

  lemma {:induction false} ZeroHasNoBits(i: nat)
    ensures !Bit(0, i)
  {
    if i > 0 { ZeroHasNoBits(i - 1); }
  }

  lemma ZeroHasNoBitsAtAll()
    ensures forall i: nat :: !Bit(0, i)
  {
    forall i: nat ensures !Bit(0, i) { ZeroHasNoBits(i); }
  }

  /** Bitwise OR of two naturals, one bit at a time. */
  function BitOr(a: nat, b: nat): (r: nat)
    ensures forall i: nat :: Bit(r, i) <==> Bit(a, i) || Bit(b, i)
    decreases a + b
  {
    if a == 0 then
      ZeroHasNoBitsAtAll(); b
    else if b == 0 then
      ZeroHasNoBitsAtAll(); a
    else
      2 * BitOr(a / 2, b / 2) + (if a % 2 == 1 || b % 2 == 1 then 1 else 0)
  }

  /** Two naturals with the same bits are equal. */
  lemma {:induction false} BitExtensional(a: nat, b: nat)
    requires forall i: nat :: Bit(a, i) <==> Bit(b, i)
    ensures a == b
    decreases a + b
  {
    assert Bit(a, 0) <==> Bit(b, 0);
    if a != 0 || b != 0 {
      forall i: nat ensures Bit(a / 2, i) <==> Bit(b / 2, i) {
        assert Bit(a, i + 1) <==> Bit(b, i + 1);
      }
      if a / 2 == a || b / 2 == b {
        // a and b are 0 and the other one, whose halving shrinks it
        ZeroHasNoBitsAtAll();
        if a / 2 == a { assert a == 0; OnlyZeroHasNoBits(b); }
        else { assert b == 0; OnlyZeroHasNoBits(a); }
      } else {
        BitExtensional(a / 2, b / 2);
      }
    }
  }

  /** Every positive natural has a set bit. */
  lemma {:induction false} OnlyZeroHasNoBits(x: nat)
    requires forall i: nat :: !Bit(x, i)
    ensures x == 0
  {
    if x != 0 {
      assert !Bit(x, 0);
      forall i: nat ensures !Bit(x / 2, i) { assert !Bit(x, i + 1); }
      OnlyZeroHasNoBits(x / 2);
    }
  }

  /** x already has every bit of m set. */
  ghost predicate Covers(x: nat, m: nat)
  {
    forall i: nat :: Bit(m, i) ==> Bit(x, i)
  }

  /** OR-ing in bits that are already set changes nothing. */
  lemma OrAbsorbs(x: nat, m: nat)
    requires Covers(x, m)
    ensures BitOr(x, m) == x
  {
    BitExtensional(BitOr(x, m), x);
  }

  /** The OR of two k-bit numbers is a k-bit number. */
  lemma {:induction false} BitOrBelow(a: nat, b: nat, k: nat)
    requires a < Pow2(k) && b < Pow2(k)
    ensures BitOr(a, b) < Pow2(k)
    decreases k
  {
    if a != 0 && b != 0 {
      BitOrBelow(a / 2, b / 2, k - 1);
    }
  }

  /** A field below bit k and a value shifted up by k do not overlap, so
      their OR is their sum. */
  lemma {:induction false} BitOrDisjoint(m: nat, f: nat, k: nat)
    requires f < Pow2(k)
    ensures BitOr(m * Pow2(k), f) == m * Pow2(k) + f
    decreases k
  {
    if k > 0 && m != 0 && f != 0 {
      assert m * Pow2(k) == 2 * (m * Pow2(k - 1));
      BitOrDisjoint(m, f / 2, k - 1);
    }
  }

  /** 2^k has exactly bit k set. */
  lemma {:induction false} BitOfPow2(k: nat, i: nat)
    ensures Bit(Pow2(k), i) <==> i == k
    decreases k
  {
    if k == 0 {
      if i > 0 { ZeroHasNoBits(i - 1); }
    } else if i > 0 {
      BitOfPow2(k - 1, i - 1);
    }
  }

  /** C's `a | b` on two `uint32_t` values. */
  function Or32(a: uint32, b: uint32): (r: uint32)
    ensures forall i: nat :: Bit(r, i) <==> Bit(a, i) || Bit(b, i)
  {
    Pow2Word();
    BitOrBelow(a, b, 32);
    BitOr(a, b)
  }

  /** C's `v << pos` on a `uint32_t` value: bits shifted past bit 31 are lost. */
  function Shl32(v: uint32, pos: nat): (r: uint32)
    requires pos < 32
    ensures v * Pow2(pos) < Modulus ==> r == v * Pow2(pos)
  {
    (v * Pow2(pos)) % Modulus
  }
}
