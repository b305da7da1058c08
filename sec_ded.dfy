// What the encoder guarantees about its output: the message bits sit in the
// data positions most-significant-first, every parity group has even
// parity, and the extended word corrects any single flipped bit and
// detects any two flipped bits (the SEC-DED property). Decoding is not
// part of the encoder; the syndrome below is the reference reading of a
// received word against which these guarantees are stated.

module SecDed {
  import opened Bits
  import opened CheckBits
  import opened Encoder

  /** w with codeword position p (1-based) inverted. */
  function Flip(w: seq<bool>, p: nat): seq<bool>
    requires 1 <= p <= |w|
  {
    w[p - 1 := !w[p - 1]]
  }

  /** The syndrome of w: bit i is the XOR of parity group i, for i < k. */
  function Syndrome(w: seq<bool>, k: nat): nat
  {
    if k == 0 then 0
    else Syndrome(w, k - 1) + (if GroupXor(w, k - 1, |w|) then Pow2(k - 1) else 0)
  }

  /**
   * c is a Hamming codeword for r check bits: its positions 1..|c| fit in
   * r bits and every parity group i < r has even parity.
   */
  ghost predicate IsHammingCodeword(c: seq<bool>, r: nat)
  {
    |c| < Pow2(r) && forall i :: 0 <= i < r ==> !GroupXor(c, i, |c|)
  }

  /** The codeword part of an extended word (its inverse of Extended on the bits after index 0). */
  function CodewordOf(word: seq<bool>): seq<bool>
    requires |word| >= 1
  {
    Reversed(word[1..])
  }

  /** Every message bit in_bits[m - 1 - k] lands in the data position of rank k. */
  lemma {:induction false} LayoutPlacesEveryBit(inBits: seq<bool>, r: nat, k: nat)
    requires IsCheckBitCount(|inBits|, r)
    requires k < |inBits|
    ensures exists p :: (1 <= p <= |inBits| + r && !IsPowerOfTwo(p) && DataCount(p - 1) == k &&
      Layout(inBits, r)[p - 1] == inBits[|inBits| - 1 - k])
  {
    assert exists p :: 1 <= p <= |inBits| + r && !IsPowerOfTwo(p) && DataCount(p - 1) == k by {
      PositionCounts(|inBits|, r);
      DataRankAttained(k, |inBits| + r);
    }
    var p :| 1 <= p <= |inBits| + r && !IsPowerOfTwo(p) && DataCount(p - 1) == k;
    LayoutAt(inBits, r, p);
  }

  /**
   * Data positions in ascending order hold the message from its most
   * significant bit down: an earlier data position holds a higher bit.
   */
  lemma {:induction false} LayoutIsMostSignificantFirst(inBits: seq<bool>, r: nat, p: nat, q: nat)
    requires IsCheckBitCount(|inBits|, r)
    requires 1 <= p < q <= |inBits| + r && !IsPowerOfTwo(p) && !IsPowerOfTwo(q)
    ensures DataCount(p - 1) < DataCount(q - 1)
    ensures DataCount(q - 1) < |inBits|
    ensures Layout(inBits, r)[p - 1] == inBits[|inBits| - 1 - DataCount(p - 1)]
    ensures Layout(inBits, r)[q - 1] == inBits[|inBits| - 1 - DataCount(q - 1)]
  {
    assert DataCount(p - 1) < DataCount(q - 1) by {
      DataCountMonotone(p, q - 1);
    }
    LayoutAt(inBits, r, p);
    LayoutAt(inBits, r, q);
  }

  /** Before the parity loop every parity position 2^i, i < r, holds 0. */
  lemma {:induction false} LayoutParityPositionsZero(inBits: seq<bool>, r: nat, i: nat)
    requires IsCheckBitCount(|inBits|, r)
    requires i < r
    ensures Pow2(i) <= |inBits| + r && !Layout(inBits, r)[Pow2(i) - 1]
  {
    ParityPositionInRange(|inBits|, r, i);
    Pow2IsPowerOfTwo(i);
    LayoutAt(inBits, r, Pow2(i));
  }

  /**
   * Writing the XOR g of group i of w into the group's own parity position
   * q = 2^i, which held 0, leaves group i with even parity.
   */
  lemma {:induction false} ParityBitEvensGroup(w: seq<bool>, c: seq<bool>, i: nat)
    requires |c| == |w| && 1 <= Pow2(i) <= |w| && !w[Pow2(i) - 1]
    requires c[Pow2(i) - 1] == GroupXor(w, i, |w|)
    requires forall j :: 1 <= j <= |w| && j != Pow2(i) && Bit(j, i) ==> c[j - 1] == w[j - 1]
    ensures !GroupXor(c, i, |c|)
  {
    var q := Pow2(i);
    var g := GroupXor(w, i, |w|);
    BitOfPow2(i, i);
    GroupXorUpdate(w, q, g, i, |w|);
    GroupXorFrame(c, w[q - 1 := g], i, |c|);
  }

  /**
   * Each parity group of the finished codeword has even parity: position
   * 2^i was still 0 when group i was summed, and no other parity position
   * is in group i.
   */
  lemma {:induction false} GroupEvenParity(inBits: seq<bool>, r: nat, i: nat)
    requires IsCheckBitCount(|inBits|, r)
    requires i < r
    ensures !GroupXor(Codeword(inBits, r), i, |inBits| + r)
  {
    var n := |inBits| + r;
    var layout := Layout(inBits, r);
    var c := Codeword(inBits, r);
    var q := Pow2(i);
    ParityPositionInRange(|inBits|, r, i);
    Pow2IsPowerOfTwo(i);
    LayoutAt(inBits, r, q);
    CodewordAt(inBits, r, q);
    forall j | 1 <= j <= n && j != q && Bit(j, i)
      ensures c[j - 1] == layout[j - 1]
    {
      CodewordAt(inBits, r, j);
      if IsPowerOfTwo(j) {
        PowerOfTwoIsPow2(j);
        BitOfPow2(Log2(j), i);
      }
    }
    ParityBitEvensGroup(layout, c, i);
  }

  /** The finished codeword is a Hamming codeword for its r check bits. */
  lemma {:induction false} CodewordIsHamming(inBits: seq<bool>, r: nat)
    requires IsCheckBitCount(|inBits|, r)
    ensures IsHammingCodeword(Codeword(inBits, r), r)
  {
    var c := Codeword(inBits, r);
    forall i | 0 <= i < r
      ensures !GroupXor(c, i, |c|)
    {
      GroupEvenParity(inBits, r, i);
    }
  }

  /** A syndrome reads its groups as the bits of a number. */
  lemma {:induction false} SyndromeReadsGroups(w: seq<bool>, k: nat, p: nat)
    requires forall i :: 0 <= i < k ==> (GroupXor(w, i, |w|) <==> Bit(p, i))
    ensures Syndrome(w, k) == BitsValue(p, k)
  {
    if k > 0 {
      SyndromeReadsGroups(w, k - 1, p);
    }
  }

  lemma {:induction false} SyndromePositive(w: seq<bool>, k: nat, i: nat)
    requires i < k && GroupXor(w, i, |w|)
    ensures Syndrome(w, k) > 0
  {
    if i < k - 1 {
      SyndromePositive(w, k - 1, i);
    }
  }

  /** An unchanged codeword has syndrome 0. */
  lemma {:induction false} CleanSyndrome(c: seq<bool>, r: nat)
    requires IsHammingCodeword(c, r)
    ensures Syndrome(c, r) == 0
  {
    forall i | 0 <= i < r
      ensures !Bit(0, i)
    {
      BitOfZero(i);
    }
    SyndromeReadsGroups(c, r, 0);
    BitsValueOfSmall(0, r);
  }

  /** Flipping position p of a codeword makes group i's XOR equal bit i of p. */
  lemma {:induction false} FlipGroups(c: seq<bool>, r: nat, p: nat, i: nat)
    requires IsHammingCodeword(c, r)
    requires 1 <= p <= |c| && i < r
    ensures GroupXor(Flip(c, p), i, |c|) == Bit(p, i)
  {
    GroupXorUpdate(c, p, !c[p - 1], i, |c|);
  }

  /** Flipping any single codeword position p makes the syndrome equal p. */
  lemma {:induction false} SingleFlipSyndrome(c: seq<bool>, r: nat, p: nat)
    requires IsHammingCodeword(c, r)
    requires 1 <= p <= |c|
    ensures Syndrome(Flip(c, p), r) == p
  {
    var bad := Flip(c, p);
    forall i | 0 <= i < r
      ensures GroupXor(bad, i, |bad|) == Bit(p, i)
    {
      FlipGroups(c, r, p, i);
    }
    SyndromeReadsGroups(bad, r, p);
    BitsValueOfSmall(p, r);
  }

  /** Flipping two different codeword positions leaves a nonzero syndrome. */
  lemma {:induction false} DoubleFlipSyndrome(c: seq<bool>, r: nat, p: nat, q: nat)
    requires IsHammingCodeword(c, r)
    requires 1 <= p <= |c| && 1 <= q <= |c| && p != q
    ensures Syndrome(Flip(Flip(c, p), q), r) != 0
  {
    DistinctDifferInLowBit(p, q, r);
    var i :| 0 <= i < r && Bit(p, i) != Bit(q, i);
    FlipGroups(c, r, p, i);
    var c1 := Flip(c, p);
    GroupXorUpdate(c1, q, !c1[q - 1], i, |c|);
    SyndromePositive(Flip(c1, q), r, i);
  }

  /** The codeword is recovered from the extended word. */
  lemma {:induction false} CodewordOfExtended(c: seq<bool>)
    ensures CodewordOf(Extended(c)) == c
  {
    assert Extended(c)[1..] == Reversed(c);
    ReversedTwice(c);
  }

  /** Inverting bit t >= 1 of the extended word inverts codeword position n + 1 - t. */
  lemma {:induction false} FlipInExtended(c: seq<bool>, t: nat)
    requires 1 <= t <= |c|
    ensures var w := Extended(c);
      CodewordOf(w[t := !w[t]]) == Flip(c, |c| + 1 - t)
  {
    var w := Extended(c);
    assert w[t := !w[t]][1..] == Reversed(c)[t - 1 := !w[t]];
    ReversedUpdate(Reversed(c), t - 1, !w[t]);
    ReversedTwice(c);
    ReversedAt(c, t - 1);
  }

  /** Inverting bits 1 <= t1 < t2 of the extended word inverts codeword positions n + 1 - t1 and n + 1 - t2. */
  lemma {:induction false} DoubleFlipInExtended(c: seq<bool>, t1: nat, t2: nat)
    requires 1 <= t1 < t2 <= |c|
    ensures var w := Extended(c);
      CodewordOf(w[t1 := !w[t1]][t2 := !w[t2]]) == Flip(Flip(c, |c| + 1 - t1), |c| + 1 - t2)
  {
    var w := Extended(c);
    var w1 := w[t1 := !w[t1]];
    var bad := w1[t2 := !w[t2]];
    FlipInExtended(c, t1);
    assert bad[1..] == w1[1..][t2 - 1 := !w[t2]];
    ReversedUpdate(w1[1..], t2 - 1, !w[t2]);
    assert w[t2] == Reversed(c)[t2 - 1];
    ReversedAt(c, t2 - 1);
  }

  /**
   * A single inverted bit of an extended Hamming word is corrected: the
   * overall parity turns odd and the syndrome names the inverted codeword
   * position (0 when the inverted bit is the overall parity bit itself).
   */
  lemma {:induction false} SingleErrorCorrected(c: seq<bool>, r: nat, t: nat)
    requires IsHammingCodeword(c, r)
    requires t <= |c|
    ensures var w := Extended(c);
      XorAll(w[t := !w[t]]) &&
      Syndrome(CodewordOf(w[t := !w[t]]), r) == (if t == 0 then 0 else |c| + 1 - t)
  {
    var w := Extended(c);
    ExtendedParityIsZero(c);
    XorAllFlip(w, t);
    if t == 0 {
      assert w[t := !w[t]][1..] == w[1..];
      CodewordOfExtended(c);
      CleanSyndrome(c, r);
    } else {
      FlipInExtended(c, t);
      SingleFlipSyndrome(c, r, |c| + 1 - t);
    }
  }

  /**
   * Two inverted bits of an extended Hamming word are detected: the
   * overall parity stays even while the syndrome is nonzero, which neither
   * an intact word nor a single error produces.
   */
  lemma {:induction false} DoubleErrorDetected(c: seq<bool>, r: nat, t1: nat, t2: nat)
    requires IsHammingCodeword(c, r)
    requires t1 < t2 <= |c|
    ensures var w := Extended(c);
      var bad := w[t1 := !w[t1]][t2 := !w[t2]];
      !XorAll(bad) && Syndrome(CodewordOf(bad), r) != 0
  {
    var n := |c|;
    var w := Extended(c);
    var w1 := w[t1 := !w[t1]];
    var bad := w1[t2 := !w[t2]];
    assert !XorAll(bad) by {
      assert bad == w1[t2 := !w1[t2]];
      ExtendedParityIsZero(c);
      XorAllFlip(w, t1);
      XorAllFlip(w1, t2);
    }
    if t1 == 0 {
      assert CodewordOf(bad) == Flip(c, n + 1 - t2) by {
        assert bad[1..] == w[t2 := !w[t2]][1..];
        FlipInExtended(c, t2);
      }
      SingleFlipSyndrome(c, r, n + 1 - t2);
    } else {
      DoubleFlipInExtended(c, t1, t2);
      DoubleFlipSyndrome(c, r, n + 1 - t1, n + 1 - t2);
    }
  }

  /** The encoder's answer for every valid message corrects one error and detects two. */
  lemma {:induction false} EncodedIsSecDed(inBits: seq<bool>, r: nat, t1: nat, t2: nat)
    requires IsCheckBitCount(|inBits|, r)
    requires t1 < t2 <= |inBits| + r
    ensures var w := Encoded(inBits, r);
      !XorAll(w) &&
      CodewordOf(w) == Codeword(inBits, r) &&
      Syndrome(CodewordOf(w), r) == 0 &&
      XorAll(w[t2 := !w[t2]]) &&
      Syndrome(CodewordOf(w[t2 := !w[t2]]), r) == |inBits| + r + 1 - t2 &&
      !XorAll(w[t1 := !w[t1]][t2 := !w[t2]]) &&
      Syndrome(CodewordOf(w[t1 := !w[t1]][t2 := !w[t2]]), r) != 0
  {
    var c := Codeword(inBits, r);
    CodewordIsHamming(inBits, r);
    ExtendedParityIsZero(c);
    CodewordOfExtended(c);
    CleanSyndrome(c, r);
    SingleErrorCorrected(c, r, t2);
    DoubleErrorDetected(c, r, t1, t2);
  }
}
