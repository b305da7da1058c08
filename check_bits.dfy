// The parameters of the SEC-DED code: the validity test on the message
// width, the number of check bits r chosen for an m-bit message, and the
// count of parity and data positions among the codeword positions 1..m+r.

module CheckBits {
  import opened Bits

  /**
   * What `parseInt(widthStr, 10)` yields, as the width test sees it: NaN and
   * Infinity (a digit string beyond double range) both fail
   * `Number.isInteger` and are represented by NotANumber; otherwise an integer.
   */
  datatype ParsedWidth = NotANumber | Integer(value: int)

  datatype WidthResult = Width(width: nat) | InvalidWidthError

  /** A message width the encoder accepts: a positive integer. */
  predicate IsValidWidth(m: int)
  {
    m > 0
  }

  /** The gate of the width prompt: an integer greater than zero, else an error. */
  function ValidateWidth(x: ParsedWidth): (res: WidthResult)
    ensures res.Width? <==> x.Integer? && IsValidWidth(x.value)
    ensures res.Width? ==> res.width == x.value && res.width >= 1
  {
    if x.Integer? && x.value > 0 then Width(x.value) else InvalidWidthError
  }

  /**
   * r is the number of check bits for an m-bit message: 2^r >= m + r + 1,
   * and r - 1 (when r > 0) fails that test, as the search's last step sees.
   */
  ghost predicate IsCheckBitCount(m: nat, r: nat)
  {
    Pow2(r) >= m + r + 1 && (r == 0 || Pow2(r - 1) < m + r)
  }

  /** The counting search for the number of check bits: the smallest r with 2^r >= m + r + 1. */
  method ComputeCheckBits(m: nat) returns (r: nat)
    ensures Pow2(r) >= m + r + 1
    ensures forall k :: 0 <= k < r ==> Pow2(k) < m + k + 1
    ensures IsCheckBitCount(m, r)
    ensures r <= m + 1
  {
    r := 0;
    while Pow2(r) < m + r + 1
      invariant r <= m + 1
      invariant forall k :: 0 <= k < r ==> Pow2(k) < m + k + 1
      decreases m + 1 - r
    {
      Pow2AtLeastDouble(m);
      r := r + 1;
    }
  }

  /** 2^k - k never decreases as k grows. */
  lemma {:induction false} Pow2MinusIndexMonotone(a: nat, b: nat)
    requires a <= b
    ensures Pow2(a) + b <= Pow2(b) + a
  {
    if a < b {
      Pow2MinusIndexMonotone(a, b - 1);
    }
  }

  /**
   * Checking the last step of the search is enough: when r - 1 fails the
   * inequality, so does every smaller count, so r is the smallest.
   */
  lemma {:induction false} CheckBitCountIsSmallest(m: nat, r: nat, k: nat)
    requires IsCheckBitCount(m, r)
    requires k < r
    ensures Pow2(k) < m + k + 1
  {
    Pow2MinusIndexMonotone(k, r - 1);
  }

  /** Each message width has one check-bit count. */
  lemma {:induction false} CheckBitCountUnique(m: nat, r1: nat, r2: nat)
    requires IsCheckBitCount(m, r1) && IsCheckBitCount(m, r2)
    ensures r1 == r2
  {
    if r1 < r2 {
      CheckBitCountIsSmallest(m, r2, r1);
    } else if r2 < r1 {
      CheckBitCountIsSmallest(m, r1, r2);
    }
  }

  /** computeCheckBits(1) = 2, computeCheckBits(4) = 3, computeCheckBits(8) = 4. */
  lemma {:induction false} CheckBitsExamples(m: nat, r: nat)
    requires IsCheckBitCount(m, r)
    ensures m == 1 ==> r == 2
    ensures m == 4 ==> r == 3
    ensures m == 8 ==> r == 4
  {
    assert Pow2(1) == 2 && Pow2(2) == 4 && Pow2(3) == 8 && Pow2(4) == 16;
    if m == 1 {
      CheckBitCountUnique(1, r, 2);
    } else if m == 4 {
      CheckBitCountUnique(4, r, 3);
    } else if m == 8 {
      CheckBitCountUnique(8, r, 4);
    }
  }

  /**
   * The check-bit count stays at or below 30, the largest shift for which
   * JavaScript's 32-bit `1 << r` equals 2^r, exactly for widths m <= 2^30 - 31.
   */
  lemma {:induction false} CheckBitsWithinShiftRange(m: nat, r: nat)
    requires IsCheckBitCount(m, r)
    ensures r <= 30 <==> m + 31 <= Pow2(30)
  {
    if r <= 30 {
      Pow2MinusIndexMonotone(r, 30);
    } else {
      CheckBitCountIsSmallest(m, r, 30);
    }
  }

  /** The number of powers of two among the positions 1..k. */
  function PowCount(k: nat): (c: nat)
    ensures c <= k
  {
    if k == 0 then 0 else PowCount(k - 1) + (if IsPowerOfTwo(k) then 1 else 0)
  }

  /** The number of data (non-power-of-two) positions among 1..k. */
  function DataCount(k: nat): nat
  {
    k - PowCount(k)
  }

  /** With c powers of two in 1..k, k lies in [2^(c-1), 2^c). */
  lemma {:induction false} PowCountBracket(k: nat)
    requires k >= 1
    ensures PowCount(k) >= 1
    ensures Pow2(PowCount(k) - 1) <= k < Pow2(PowCount(k))
  {
    if k > 1 {
      PowCountBracket(k - 1);
      var c := PowCount(k - 1);
      if IsPowerOfTwo(k) {
        PowerOfTwoIsPow2(k);
        var e := Log2(k);
        if e < c {
          if e < c - 1 { Pow2Monotone(e, c - 1); }
          assert false;
        } else if e > c {
          Pow2Monotone(c, e);
          assert false;
        }
        assert Pow2(c) == k;
      } else {
        Pow2IsPowerOfTwo(c);
      }
    }
  }

  /**
   * With the minimal r, exactly r of the positions 1..m+r are powers of
   * two, so exactly m are data positions.
   */
  lemma {:induction false} PositionCounts(m: nat, r: nat)
    requires IsCheckBitCount(m, r)
    ensures PowCount(m + r) == r
    ensures DataCount(m + r) == m
  {
    if m == 0 {
      if r > 0 {
        CheckBitCountIsSmallest(m, r, 0);
        assert false;
      }
    } else {
      assert r != 0;
      var n := m + r;
      PowCountBracket(n);
      var c := PowCount(n);
      if c < r {
        if c < r - 1 { Pow2Monotone(c, r - 1); }
        assert false;
      } else if c > r {
        if c - 1 > r { Pow2Monotone(r, c - 1); }
        assert false;
      }
    }
  }

  lemma {:induction false} DataCountMonotone(a: nat, b: nat)
    requires a <= b
    ensures DataCount(a) <= DataCount(b)
  {
    if a < b {
      DataCountMonotone(a, b - 1);
    }
  }

  /**
   * The message-bit cursor m - 1 - DataCount(p - 1) at a data position p
   * of the codeword is a valid index into the message.
   */
  lemma {:induction false} CursorInRange(m: nat, r: nat, p: nat)
    requires IsCheckBitCount(m, r)
    requires 1 <= p <= m + r && !IsPowerOfTwo(p)
    ensures DataCount(p - 1) < m
  {
    PositionCounts(m, r);
    DataCountMonotone(p, m + r);
  }

  /** Every rank k below DataCount(K) is the rank of some data position in 1..K. */
  lemma {:induction false} DataRankAttained(k: nat, bound: nat)
    requires k < DataCount(bound)
    ensures exists p :: 1 <= p <= bound && !IsPowerOfTwo(p) && DataCount(p - 1) == k
  {
    if k < DataCount(bound - 1) {
      DataRankAttained(k, bound - 1);
    } else {
      assert !IsPowerOfTwo(bound) && DataCount(bound - 1) == k;
    }
  }

  /** Every parity position 2^i, i < r, lies inside the codeword 1..m+r. */
  lemma {:induction false} ParityPositionInRange(m: nat, r: nat, i: nat)
    requires IsCheckBitCount(m, r)
    requires i < r
    ensures 1 <= Pow2(i) < m + r
  {
    if i < r - 1 {
      Pow2Monotone(i, r - 1);
    }
  }

  /** Every power of two in 1..m+r is 2^i for some i < r. */
  lemma {:induction false} PowerPositionIndex(m: nat, r: nat, p: nat)
    requires IsCheckBitCount(m, r)
    requires 1 <= p <= m + r && IsPowerOfTwo(p)
    ensures Pow2(Log2(p)) == p && Log2(p) < r
  {
    PowerOfTwoIsPow2(p);
    if Log2(p) >= r {
      if Log2(p) > r { Pow2Monotone(r, Log2(p)); }
      assert false;
    }
  }
}
