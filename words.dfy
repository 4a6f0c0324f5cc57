/**
  Machine words of the allocator: `size_t` values and the addresses obtained
  by casting pointers to `size_t`, with C's unsigned wrap-around, and the
  bitwise operators `&`, `|` and `~` that the tag encoder applies to them.

  The bitwise operators are given reference definitions on naturals, bit by
  bit from the least significant end. `Complement` is computed as
  2^64 - 1 - m, and a lemma proves it equal to the bit-by-bit `Not` over 64
  bits. The other lemmas prove the arithmetic meaning of the masks the
  allocator uses.
*/
module Words {

  /** Width of `size_t` on the target: 64 bits. */
  const WordModulus: int := 0x1_0000_0000_0000_0000

  /** A `size_t` value, or an address cast to `size_t`. */
  type Word = x: int | 0 <= x < WordModulus

  /** The null pointer. */
  const Null: Word := 0

  /** Unsigned `size_t` arithmetic: the value of `x` modulo 2^64. */
  function Wrap(x: int): (r: Word)
    ensures 0 <= x < WordModulus ==> r == x
    ensures -WordModulus <= x < 0 ==> r == x + WordModulus
    ensures WordModulus <= x < 2 * WordModulus ==> r == x - WordModulus
  {
    x % WordModulus
  }

  function Pow2(n: nat): (r: nat)
    ensures r >= 1
  {
    if n == 0 then 1 else 2 * Pow2(n - 1)
  }

  lemma {:induction false} Pow2Add(a: nat, b: nat)
    ensures Pow2(a + b) == Pow2(a) * Pow2(b)
  {
    if b > 0 {
      Pow2Add(a, b - 1);
    }
  }

  /** The word modulus is 2 to the power of the word width. */
  lemma Pow2OfWordBits()
    ensures Pow2(64) == WordModulus
  {
    assert Pow2(8) == 0x100;
    Pow2Add(8, 8);
    Pow2Add(16, 16);
    Pow2Add(32, 32);
  }

  /** Bitwise AND of two naturals (C `&` on unsigned operands). */
  function And(x: nat, y: nat): (r: nat)
    ensures r <= x && r <= y
  {
    if x == 0 || y == 0 then 0
    else 2 * And(x / 2, y / 2) + (if x % 2 == 1 && y % 2 == 1 then 1 else 0)
  }

  /** Bitwise OR of two naturals (C `|` on unsigned operands). */
  function Or(x: nat, y: nat): (r: nat)
    ensures x <= r && y <= r
  {
    if x == 0 then y
    else if y == 0 then x
    else 2 * Or(x / 2, y / 2) + (if x % 2 == 1 || y % 2 == 1 then 1 else 0)
  }

  /** Bitwise complement of the k low bits of a natural, one bit at a time. */
  function Not(x: nat, k: nat): (r: nat)
  {
    if k == 0 then 0
    else 2 * Not(x / 2, k - 1) + (if x % 2 == 0 then 1 else 0)
  }

  /** Complementing the k low bits of a number below 2^k subtracts it from 2^k - 1. */
  lemma {:induction false} NotIsSubtraction(x: nat, k: nat)
    requires x < Pow2(k)
    ensures Not(x, k) == Pow2(k) - 1 - x
  {
    if k > 0 {
      NotIsSubtraction(x / 2, k - 1);
    }
  }

  /**
    Bitwise complement within a 64-bit word. mm.c applies `~` only to the
    `int` literal `0x7`, giving the `int` -8, which the usual arithmetic
    conversions turn into a `size_t` against the other operand; that value
    is `Complement(7)` (see `IntMaskConverts`).
  */
  function Complement(m: Word): Word
  {
    WordModulus - 1 - m
  }

  /** The 64-bit complement flips each of the 64 bits of the word. */
  lemma ComplementIsNot(m: Word)
    ensures Complement(m) == Not(m, 64)
  {
    Pow2OfWordBits();
    NotIsSubtraction(m, 64);
  }

  /** The `int` -8 that `~0x7` yields, converted to `size_t`, is the 64-bit complement of 7. */
  lemma IntMaskConverts()
    ensures Wrap(-8) == Complement(7)
  {
  }

  lemma {:induction false} AndCommutes(x: nat, y: nat)
    ensures And(x, y) == And(y, x)
  {
    if x != 0 && y != 0 {
      AndCommutes(x / 2, y / 2);
    }
  }

  /** A mask of k one bits keeps every natural below 2^k unchanged. */
  lemma {:induction false} AndLowOnes(x: nat, k: nat)
    requires x < Pow2(k)
    ensures And(x, Pow2(k) - 1) == x
  {
    if x != 0 {
      assert k > 0;
      assert (Pow2(k) - 1) / 2 == Pow2(k - 1) - 1;
      AndLowOnes(x / 2, k - 1);
    }
  }

  /** A zero low bit in the mask clears the low bit of the result. */
  lemma AndEvenMask(x: nat, y: nat)
    ensures And(x, 2 * y) == 2 * And(x / 2, y)
  {
    if x != 0 && y != 0 {
      assert (2 * y) / 2 == y && (2 * y) % 2 == 0;
    }
  }

  /** `w & 0x1` is the low bit of `w`. */
  lemma AndOne(x: nat)
    ensures And(x, 1) == x % 2
  {
  }

  /**
    `~0x7 & w` on a 64-bit word clears the three low bits: it rounds `w`
    down to a multiple of 8.
  */
  lemma ClearLowThreeBits(w: Word)
    ensures And(Complement(7), w) == 8 * (w / 8)
  {
    var ones := 0x1FFF_FFFF_FFFF_FFFF;
    assert Complement(7) == 8 * ones;
    AndCommutes(Complement(7), w);
    calc {
      And(w, 8 * ones);
      { AndEvenMask(w, 4 * ones); }
      2 * And(w / 2, 4 * ones);
      { AndEvenMask(w / 2, 2 * ones); }
      4 * And(w / 2 / 2, 2 * ones);
      { AndEvenMask(w / 2 / 2, ones); }
      8 * And(w / 2 / 2 / 2, ones);
      { assert w / 2 / 2 / 2 == w / 8; }
      8 * And(w / 8, ones);
      { Pow2OfWordBits(); Pow2Add(3, 61); AndLowOnes(w / 8, 61); }
      8 * (w / 8);
    }
  }

  /** Wrap-around modulo 2^64 keeps the residue modulo 8 (2^64 is a multiple of 8). */
  lemma WrapKeepsResidue(x: int)
    ensures Wrap(x) % 8 == x % 8
  {
    var q := x / WordModulus;
    assert x == WordModulus * q + Wrap(x);
    assert Wrap(x) == x - 8 * (0x2000_0000_0000_0000 * q);
  }

  /** Adding a bit of 0 or 1 to an even number sets its low bit. */
  lemma EvenPlusBit(k: int, b: int)
    requires 0 <= b < 2
    ensures (2 * k + b) % 2 == b
  {
  }

  /** The low bit of a number is the low bit of its residue modulo 8. */
  lemma LowBitOfResidue(w: int)
    ensures w % 2 == (w % 8) % 2
  {
    var r := w % 8;
    assert w == 2 * (4 * (w / 8) + r / 2) + r % 2;
    EvenPlusBit(4 * (w / 8) + r / 2, r % 2);
  }

  /** OR-ing a flag bit of 0 or 1 into an even number adds it. */
  lemma OrFlag(b: nat, s: nat)
    requires b <= 1 && s % 2 == 0
    ensures Or(b, s) == s + b
  {
    if b == 1 && s != 0 {
      assert Or(0, s / 2) == s / 2;
    }
  }
}
