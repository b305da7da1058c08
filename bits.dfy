// Integer bit arithmetic used by the SEC-DED encoder: powers of two, the
// power-of-two test, bit selection and the bitwise AND of the source's
// `i & (i - 1)` and `j & idx_bit` tests, all over unbounded naturals.

module Bits {

  /** 2^k, the value of the source's `1 << k` without 32-bit wrap-around. */
  function Pow2(k: nat): (r: nat)
    ensures r >= 1
  {
    if k == 0 then 1 else 2 * Pow2(k - 1)
  }

  /** p is an exact power of two (1, 2, 4, ...). */
  predicate IsPowerOfTwo(p: nat)
  {
    p == 1 || (p >= 2 && p % 2 == 0 && IsPowerOfTwo(p / 2))
  }

  /** floor(log2 p) for p >= 1 (0 for p = 0). */
  function Log2(p: nat): nat
  {
    if p <= 1 then 0 else 1 + Log2(p / 2)
  }

  /** Bit i of j (bit 0 is the least significant). */
  predicate Bit(j: nat, i: nat)
    decreases i
  {
    if i == 0 then j % 2 == 1 else Bit(j / 2, i - 1)
  }

  /** Bitwise AND of two naturals, bit by bit from the least significant end. */
  function And(a: nat, b: nat): nat
    decreases a
  {
    if a == 0 || b == 0 then 0
    else 2 * And(a / 2, b / 2) + (if a % 2 == 1 && b % 2 == 1 then 1 else 0)
  }

  /** The number whose binary digits are bits 0..k-1 of p: sum of Bit(p, i) * 2^i. */
  function BitsValue(p: nat, k: nat): nat
  {
    if k == 0 then 0
    else BitsValue(p, k - 1) + (if Bit(p, k - 1) then Pow2(k - 1) else 0)
  }

  lemma {:induction false} Pow2Monotone(a: nat, b: nat)
    requires a < b
    ensures Pow2(a) < Pow2(b)
  {
    if b > a + 1 {
      Pow2Monotone(a, b - 1);
    }
  }

  /** 2^(k+1) >= 2(k+1): the exponential side outgrows the linear side. */
  lemma {:induction false} Pow2AtLeastDouble(k: nat)
    ensures Pow2(k + 1) >= 2 * (k + 1)
  {
    if k > 0 {
      Pow2AtLeastDouble(k - 1);
    }
  }

  lemma {:induction false} Pow2IsPowerOfTwo(k: nat)
    ensures IsPowerOfTwo(Pow2(k))
    ensures Log2(Pow2(k)) == k
  {
    if k > 0 {
      Pow2IsPowerOfTwo(k - 1);
      assert Pow2(k) / 2 == Pow2(k - 1);
    }
  }

  lemma {:induction false} PowerOfTwoIsPow2(p: nat)
    requires IsPowerOfTwo(p)
    ensures Pow2(Log2(p)) == p
  {
    if p != 1 {
      PowerOfTwoIsPow2(p / 2);
    }
  }

  lemma {:induction false} BitOfZero(i: nat)
    ensures !Bit(0, i)
  {
    if i > 0 {
      BitOfZero(i - 1);
    }
  }

  /** The only bit set in 2^k is bit k. */
  lemma {:induction false} BitOfPow2(k: nat, i: nat)
    ensures Bit(Pow2(k), i) <==> k == i
  {
    if i > 0 {
      if k == 0 {
        BitOfZero(i - 1);
      } else {
        assert Pow2(k) / 2 == Pow2(k - 1);
        BitOfPow2(k - 1, i - 1);
      }
    }
  }

  /** A number with bit i set is at least 2^i. */
  lemma {:induction false} BitImpliesAtLeast(j: nat, i: nat)
    requires Bit(j, i)
    ensures j >= Pow2(i)
  {
    if i > 0 {
      BitImpliesAtLeast(j / 2, i - 1);
    }
  }

  /** The source's `(j & idx_bit) != 0` with idx_bit = 2^i is exactly "bit i of j is set". */
  lemma {:induction false} AndPow2(j: nat, i: nat)
    ensures And(j, Pow2(i)) != 0 <==> Bit(j, i)
  {
    if j == 0 {
      BitOfZero(i);
    } else if i > 0 {
      assert Pow2(i) % 2 == 0 && Pow2(i) / 2 == Pow2(i - 1);
      AndPow2(j / 2, i - 1);
    }
  }

  lemma {:induction false} AndSelf(h: nat)
    ensures And(h, h) == h
  {
    if h > 0 {
      AndSelf(h / 2);
    }
  }

  /** The source's test `(p & (p - 1)) == 0` for p >= 1 holds exactly at the powers of two. */
  lemma {:induction false} PowerOfTwoTest(p: nat)
    requires p >= 1
    ensures And(p, p - 1) == 0 <==> IsPowerOfTwo(p)
  {
    if p >= 2 {
      if p % 2 == 0 {
        assert (p - 1) / 2 == p / 2 - 1;
        PowerOfTwoTest(p / 2);
      } else {
        assert (p - 1) / 2 == p / 2;
        AndSelf(p / 2);
      }
    }
  }

  /**
   * The exclusion `j != idx_bit - 1` of the parity loop never removes a
   * position the `(j & idx_bit)` test admits: 2^i - 1 has bit i clear.
   */
  lemma {:induction false} ExclusionIsVacuous(j: nat, i: nat)
    requires And(j, Pow2(i)) != 0
    ensures j != Pow2(i) - 1
  {
    AndPow2(j, i);
    BitImpliesAtLeast(j, i);
  }

  lemma {:induction false} BitsValueShift(p: nat, k: nat)
    ensures BitsValue(p, k + 1) == p % 2 + 2 * BitsValue(p / 2, k)
  {
    if k > 0 {
      BitsValueShift(p, k - 1);
    }
  }

  /** Reading bits 0..k-1 of a number below 2^k gives the number back. */
  lemma {:induction false} BitsValueOfSmall(p: nat, k: nat)
    requires p < Pow2(k)
    ensures BitsValue(p, k) == p
  {
    if k > 0 {
      BitsValueShift(p, k - 1);
      BitsValueOfSmall(p / 2, k - 1);
    }
  }

  lemma {:induction false} BitsValueAgree(p: nat, q: nat, k: nat)
    requires forall i :: 0 <= i < k ==> (Bit(p, i) <==> Bit(q, i))
    ensures BitsValue(p, k) == BitsValue(q, k)
  {
    if k > 0 {
      BitsValueAgree(p, q, k - 1);
    }
  }

  /** Two different numbers below 2^k differ in one of bits 0..k-1. */
  lemma {:induction false} DistinctDifferInLowBit(p: nat, q: nat, k: nat)
    requires p < Pow2(k) && q < Pow2(k) && p != q
    ensures exists i :: 0 <= i < k && Bit(p, i) != Bit(q, i)
  {
    if forall i :: 0 <= i < k ==> (Bit(p, i) <==> Bit(q, i)) {
      BitsValueAgree(p, q, k);
      BitsValueOfSmall(p, k);
      BitsValueOfSmall(q, k);
      assert false;
    }
  }
}
