/** Bit patterns of the multi-attribute hashed file.
  * A `Bits` value is an unsigned 32-bit word, represented here as a natural
  * number below Pow2(MAXCHVEC); bit i is read by repeated halving, so every
  * operation of bits.c is a small recursive function with its bit-level
  * meaning stated in its contract. */
module Bits {

  /** Number of hash bits, and of entries in a choice vector. */
  const MAXCHVEC: nat := 32

  type Bits = nat

  /** 2^MAXCHVEC, the number of 32-bit words. */
  const WORD: nat := 0x1_0000_0000

  function Pow2(n: nat): (p: nat)
    ensures p >= 1
  {
    if n == 0 then 1 else 2 * Pow2(n - 1)
  }

  lemma WordIsPow2()
    ensures Pow2(MAXCHVEC) == WORD
  {
    assert Pow2(8) == 0x100;
    assert Pow2(16) == 0x1_0000;
    assert Pow2(24) == 0x100_0000;
  }

  /** bitIsSet: bit i of v. */
  predicate BitIsSet(v: Bits, i: nat)
    decreases i
  {
    if i == 0 then v % 2 == 1 else BitIsSet(v / 2, i - 1)
  }

  lemma {:induction false} ZeroHasNoBits()
    ensures forall i: nat :: !BitIsSet(0, i)
  {
    forall i: nat ensures !BitIsSet(0, i) {
      ZeroHasNoBitAt(i);
    }
  }

  lemma {:induction false} ZeroHasNoBitAt(i: nat)
    ensures !BitIsSet(0, i)
  {
    if i > 0 {
      ZeroHasNoBitAt(i - 1);
    }
  }

  /** Two patterns with the same bits are the same pattern. */
  lemma {:induction false} BitsEqual(a: Bits, b: Bits)
    requires forall i: nat :: BitIsSet(a, i) <==> BitIsSet(b, i)
    ensures a == b
    decreases a + b
  {
    assert BitIsSet(a, 0) <==> BitIsSet(b, 0);
    if a != 0 || b != 0 {
      forall i: nat ensures BitIsSet(a / 2, i) <==> BitIsSet(b / 2, i) {
        assert BitIsSet(a, i + 1) <==> BitIsSet(b, i + 1);
      }
      BitsEqual(a / 2, b / 2);
    }
  }

  /** A pattern with no bit at or above w is below 2^w. */
  lemma {:induction false} BitsBelow(v: Bits, w: nat)
    requires forall i: nat :: BitIsSet(v, i) ==> i < w
    ensures v < Pow2(w)
  {
    if w == 0 {
      ZeroHasNoBits();
      BitsEqual(v, 0);
    } else {
      forall i: nat | BitIsSet(v / 2, i) ensures i < w - 1 {
        assert BitIsSet(v, i + 1);
      }
      BitsBelow(v / 2, w - 1);
    }
  }

  /** A pattern below 2^w has no bit at or above w. */
  lemma {:induction false} NoBitsAbove(v: Bits, w: nat, i: nat)
    requires v < Pow2(w) && w <= i
    ensures !BitIsSet(v, i)
  {
    if w == 0 {
      assert v == 0;
      ZeroHasNoBitAt(i);
    } else {
      NoBitsAbove(v / 2, w - 1, i - 1);
    }
  }

  /** 1 << i has bit i and no other. */
  lemma {:induction false} OneBitWord(i: nat)
    ensures forall j: nat :: BitIsSet(Pow2(i), j) <==> j == i
  {
    if i == 0 {
      forall j: nat ensures BitIsSet(1, j) <==> j == 0 {
        if j > 0 {
          ZeroHasNoBitAt(j - 1);
        }
      }
    } else {
      OneBitWord(i - 1);
      forall j: nat ensures BitIsSet(Pow2(i), j) <==> j == i {
        if j > 0 {
          assert BitIsSet(Pow2(i), j) == BitIsSet(Pow2(i - 1), j - 1);
        }
      }
    }
  }

  /** bitIsSet as the C tests it: v & (1 << i) is non-zero exactly when
    * bit i of v is set. */
  lemma BitIsSetMasks(v: Bits, i: nat)
    ensures BitIsSet(v, i) <==> And(v, Pow2(i)) != 0
  {
    OneBitWord(i);
    ZeroHasNoBits();
    if !BitIsSet(v, i) {
      BitsEqual(And(v, Pow2(i)), 0);
    }
  }

  /** getLower: the low n bits of v (for n >= MAXCHVEC every bit of a word). */
  function GetLower(v: Bits, n: nat): (r: Bits)
    ensures r < Pow2(n) && r <= v
    ensures forall i: nat :: BitIsSet(r, i) <==> i < n && BitIsSet(v, i)
  {
    if n == 0 then ZeroHasNoBits(); 0 else 2 * GetLower(v / 2, n - 1) + v % 2
  }

  /** One more low bit adds bit n's weight. */
  lemma {:induction false} GetLowerStep(v: Bits, n: nat)
    ensures GetLower(v, n + 1) == GetLower(v, n) + (if BitIsSet(v, n) then Pow2(n) else 0)
  {
    if n > 0 {
      GetLowerStep(v / 2, n - 1);
    }
  }

  /** setBit: v with bit i set. */
  function SetBit(v: Bits, i: nat): (r: Bits)
    ensures forall j: nat :: BitIsSet(r, j) <==> j == i || BitIsSet(v, j)
  {
    if i == 0 then v - v % 2 + 1 else 2 * SetBit(v / 2, i - 1) + v % 2
  }

  /** Bitwise and (the C operator &). */
  function And(a: Bits, b: Bits): (r: Bits)
    ensures r <= a && r <= b
    ensures forall i: nat :: BitIsSet(r, i) <==> BitIsSet(a, i) && BitIsSet(b, i)
    decreases a
  {
    if a == 0 then ZeroHasNoBits(); 0
    else 2 * And(a / 2, b / 2) + (if a % 2 == 1 && b % 2 == 1 then 1 else 0)
  }

  /** Bitwise complement within a w-bit word (the C operator ~ on a 32-bit word). */
  function Complement(v: Bits, w: nat): (r: Bits)
    ensures forall i: nat :: BitIsSet(r, i) <==> i < w && !BitIsSet(v, i)
  {
    if w == 0 then ZeroHasNoBits(); 0 else 2 * Complement(v / 2, w - 1) + (1 - v % 2)
  }
}
