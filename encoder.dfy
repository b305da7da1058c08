// The SEC-DED encoder body of the `pow2_detect` module: the layout walk
// that places the message bits around the parity positions, the parity
// loop that fills each parity position with the XOR of its group, and the
// output pass that reverses the codeword and prepends the overall parity.
//
// Codeword positions are 1-based: position p lives in outBits[p - 1], and
// n = m + r is the codeword length for an m-bit message and r check bits.
// The extended word is indexed like the hardware vector r_out_bits: index 0
// is its least significant bit, the overall parity.

module Encoder {
  import opened Bits
  import opened CheckBits

  /** XOR of all bits of s (false for the empty sequence). */
  function XorAll(s: seq<bool>): bool
  {
    if s == [] then false else XorAll(s[..|s| - 1]) != s[|s| - 1]
  }

  /** XOR of the bits at the positions 1..k of w whose index has bit i set. */
  function GroupXor(w: seq<bool>, i: nat, k: nat): bool
    requires k <= |w|
  {
    if k == 0 then false else GroupXor(w, i, k - 1) != (Bit(k, i) && w[k - 1])
  }

  function Reversed(s: seq<bool>): (t: seq<bool>)
    ensures |t| == |s|
  {
    if s == [] then [] else Reversed(s[1..]) + [s[0]]
  }

  /**
   * The value the layout walk puts at codeword position p: 0 at a power of
   * two, otherwise the message bit under the cursor, which starts at the
   * most significant bit m - 1 and has moved past one bit for each data
   * position before p.
   */
  ghost function Slot(inBits: seq<bool>, r: nat, p: nat): bool
    requires IsCheckBitCount(|inBits|, r)
    requires 1 <= p <= |inBits| + r
  {
    if IsPowerOfTwo(p) then false
    else
      CursorInRange(|inBits|, r, p);
      inBits[|inBits| - 1 - DataCount(p - 1)]
  }

  /** The codeword after the layout walk, parity positions still 0. */
  ghost function Layout(inBits: seq<bool>, r: nat): (w: seq<bool>)
    requires IsCheckBitCount(|inBits|, r)
    ensures |w| == |inBits| + r
  {
    seq(|inBits| + r, k requires 0 <= k < |inBits| + r => Slot(inBits, r, k + 1))
  }

  /** What position p of the layout holds. */
  lemma {:induction false} LayoutAt(inBits: seq<bool>, r: nat, p: nat)
    requires IsCheckBitCount(|inBits|, r)
    requires 1 <= p <= |inBits| + r
    ensures IsPowerOfTwo(p) ==> !Layout(inBits, r)[p - 1]
    ensures !IsPowerOfTwo(p) ==>
      DataCount(p - 1) < |inBits| && Layout(inBits, r)[p - 1] == inBits[|inBits| - 1 - DataCount(p - 1)]
  {
    if !IsPowerOfTwo(p) {
      CursorInRange(|inBits|, r, p);
    }
  }

  /**
   * The codeword after the parity loop: the parity position 2^i holds the
   * XOR of group i of the layout, every data position its layout bit.
   */
  ghost function Codeword(inBits: seq<bool>, r: nat): (c: seq<bool>)
    requires IsCheckBitCount(|inBits|, r)
    ensures |c| == |inBits| + r
  {
    var n := |inBits| + r;
    var layout := Layout(inBits, r);
    seq(n, k requires 0 <= k < n =>
      if IsPowerOfTwo(k + 1) then GroupXor(layout, Log2(k + 1), n) else layout[k])
  }

  /** Unfolds the definition of `Codeword` at one position p, for the parity lemmas. */
  lemma {:induction false} CodewordAt(inBits: seq<bool>, r: nat, p: nat)
    requires IsCheckBitCount(|inBits|, r)
    requires 1 <= p <= |inBits| + r
    ensures Codeword(inBits, r)[p - 1] ==
      if IsPowerOfTwo(p) then GroupXor(Layout(inBits, r), Log2(p), |inBits| + r) else Layout(inBits, r)[p - 1]
  {
  }

  /** The extended word: the overall parity at index 0, then the codeword from position n down to 1. */
  function Extended(codeword: seq<bool>): (word: seq<bool>)
    ensures |word| == |codeword| + 1
  {
    [XorAll(codeword)] + Reversed(codeword)
  }

  /** The encoder's answer for the message inBits with r check bits. */
  ghost function Encoded(inBits: seq<bool>, r: nat): (word: seq<bool>)
    requires IsCheckBitCount(|inBits|, r)
    ensures |word| == |inBits| + r + 1
  {
    Extended(Codeword(inBits, r))
  }

  lemma {:induction false} ReversedAt(s: seq<bool>, k: nat)
    requires k < |s|
    ensures Reversed(s)[k] == s[|s| - 1 - k]
  {
    if k < |s| - 1 {
      ReversedAt(s[1..], k);
    }
  }

  lemma {:induction false} ReversedTwice(s: seq<bool>)
    ensures Reversed(Reversed(s)) == s
  {
    forall k | 0 <= k < |s|
      ensures Reversed(Reversed(s))[k] == s[k]
    {
      ReversedAt(Reversed(s), k);
      ReversedAt(s, |s| - 1 - k);
    }
  }

  /** Changing index t of s changes index |s| - 1 - t of its reversal. */
  lemma {:induction false} ReversedUpdate(s: seq<bool>, t: nat, v: bool)
    requires t < |s|
    ensures Reversed(s[t := v]) == Reversed(s)[|s| - 1 - t := v]
  {
    var updated := Reversed(s)[|s| - 1 - t := v];
    forall k | 0 <= k < |s|
      ensures Reversed(s[t := v])[k] == updated[k]
    {
      ReversedAt(s[t := v], k);
      ReversedAt(s, k);
    }
  }

  lemma {:induction false} XorAllAppend(a: seq<bool>, b: seq<bool>)
    ensures XorAll(a + b) == (XorAll(a) != XorAll(b))
  {
    if b != [] {
      assert (a + b)[..|a + b| - 1] == a + b[..|b| - 1];
      XorAllAppend(a, b[..|b| - 1]);
    } else {
      assert a + b == a;
    }
  }

  lemma {:induction false} XorAllReversed(s: seq<bool>)
    ensures XorAll(Reversed(s)) == XorAll(s)
  {
    if s != [] {
      XorAllReversed(s[1..]);
      XorAllAppend(Reversed(s[1..]), [s[0]]);
      assert s == [s[0]] + s[1..];
      XorAllAppend([s[0]], s[1..]);
      assert [s[0]][..0] == [];
    }
  }

  /** Flipping one bit flips the XOR of the whole sequence. */
  lemma {:induction false} XorAllFlip(s: seq<bool>, t: nat)
    requires t < |s|
    ensures XorAll(s[t := !s[t]]) == !XorAll(s)
  {
    var s' := s[t := !s[t]];
    if t == |s| - 1 {
      assert s'[..|s'| - 1] == s[..|s| - 1];
    } else {
      assert s'[..|s'| - 1] == s[..|s| - 1][t := !s[t]];
      XorAllFlip(s[..|s| - 1], t);
    }
  }

  /** A word with the overall parity at index 0 and codeword index i at n - i is the extended word. */
  lemma {:induction false} ReversedIntoExtended(c: seq<bool>, word: seq<bool>)
    requires |word| == |c| + 1 && word[0] == XorAll(c)
    requires forall i :: 0 <= i < |c| ==> word[|c| - i] == c[i]
    ensures word == Extended(c)
  {
    forall k | 0 <= k < |c|
      ensures Reversed(c)[k] == word[k + 1]
    {
      ReversedAt(c, k);
      assert word[|c| - (|c| - 1 - k)] == c[|c| - 1 - k];
    }
  }

  /** The overall parity bit makes the XOR of all n + 1 bits of the extended word 0. */
  lemma {:induction false} ExtendedParityIsZero(codeword: seq<bool>)
    ensures !XorAll(Extended(codeword))
  {
    XorAllAppend([XorAll(codeword)], Reversed(codeword));
    assert [XorAll(codeword)][..0] == [];
    XorAllReversed(codeword);
  }

  /** Group XORs only look at the positions of the group. */
  lemma {:induction false} GroupXorFrame(w1: seq<bool>, w2: seq<bool>, i: nat, k: nat)
    requires k <= |w1| && k <= |w2|
    requires forall j :: 1 <= j <= k && Bit(j, i) ==> w1[j - 1] == w2[j - 1]
    ensures GroupXor(w1, i, k) == GroupXor(w2, i, k)
  {
    if k > 0 {
      GroupXorFrame(w1, w2, i, k - 1);
    }
  }

  /** Changing position p to v changes group i's XOR exactly when p is in the group and the bit changes. */
  lemma {:induction false} GroupXorUpdate(w: seq<bool>, p: nat, v: bool, i: nat, k: nat)
    requires 1 <= p <= |w| && k <= |w|
    ensures GroupXor(w[p - 1 := v], i, k) == (GroupXor(w, i, k) != (p <= k && Bit(p, i) && w[p - 1] != v))
  {
    if k > 0 {
      GroupXorUpdate(w, p, v, i, k - 1);
    }
  }

  /**
   * The layout walk (out_bits = '0, then positions 1..n in ascending order).
   * Every read of the message is in range and the cursor ends at -1, so
   * the walk consumes exactly the m message bits.
   */
  method LayoutWalk(inBits: seq<bool>, r: nat, outBits: array<bool>) returns (cursor: int)
    requires IsCheckBitCount(|inBits|, r)
    requires outBits.Length == |inBits| + r
    modifies outBits
    ensures outBits[..] == Layout(inBits, r)
    ensures cursor == -1
  {
    var m := |inBits|;
    var n := outBits.Length;
    ghost var layout := Layout(inBits, r);
    cursor := m - 1;
    forall k | 0 <= k < n {
      outBits[k] := false;
    }
    var i := 1;
    while i <= n
      invariant 1 <= i <= n + 1
      invariant cursor == m - 1 - DataCount(i - 1)
      invariant forall k :: 0 <= k < i - 1 ==> outBits[k] == layout[k]
    {
      PowerOfTwoTest(i);
      LayoutAt(inBits, r, i);
      if And(i, i - 1) == 0 {
        outBits[i - 1] := false;
      } else if cursor < m {
        outBits[i - 1] := inBits[cursor];
        cursor := cursor - 1;
      }
      i := i + 1;
    }
    PositionCounts(m, r);
  }

  /**
   * The codeword part-way through the parity loop: the parity positions
   * 2^k with k < i hold the XOR of group k of the layout, all others their
   * layout bit.
   */
  ghost predicate ParitiesUpTo(cur: seq<bool>, layout: seq<bool>, i: nat)
    requires |cur| == |layout|
  {
    forall k :: 0 <= k < |cur| ==>
      cur[k] == if IsPowerOfTwo(k + 1) && Log2(k + 1) < i then GroupXor(layout, Log2(k + 1), |cur|) else layout[k]
  }

  /**
   * The parity loop: for each i < r, position 2^i receives the XOR of all
   * positions j in 1..n with `(j & 2^i) != 0 && j != 2^i - 1`. Only the
   * parity positions change.
   */
  method ParityLoop(ghost inBits: seq<bool>, r: nat, outBits: array<bool>)
    requires IsCheckBitCount(|inBits|, r)
    requires outBits[..] == Layout(inBits, r)
    modifies outBits
    ensures outBits[..] == Codeword(inBits, r)
    ensures forall k :: 0 <= k < outBits.Length && !IsPowerOfTwo(k + 1) ==> outBits[k] == old(outBits[k])
  {
    ghost var layout := outBits[..];
    var n := outBits.Length;
    var i := 0;
    while i < r
      invariant 0 <= i <= r
      invariant |outBits[..]| == |layout|
      invariant ParitiesUpTo(outBits[..], layout, i)
    {
      var idxBit := Pow2(i);
      ParityPositionInRange(|inBits|, r, i);
      ghost var cur := outBits[..];
      var xorVal := false;
      var j := 1;
      while j <= n
        invariant 1 <= j <= n + 1
        invariant outBits[..] == cur
        invariant xorVal == GroupXor(cur, i, j - 1)
      {
        AndPow2(j, i);
        if And(j, idxBit) != 0 {
          ExclusionIsVacuous(j, i);
        }
        if And(j, idxBit) != 0 && j != idxBit - 1 {
          xorVal := xorVal != outBits[j - 1];
        }
        j := j + 1;
      }
      ParityStep(inBits, r, outBits[..], layout, i, xorVal);
      outBits[idxBit - 1] := xorVal;
      i := i + 1;
    }
    ParitiesComplete(inBits, r, outBits[..], layout);
  }

  /**
   * One round of the parity loop keeps ParitiesUpTo: while group i is
   * summed, its XOR is that of the layout, because the parity positions
   * written so far, 2^k with k < i, are not in group i.
   */
  lemma {:induction false} ParityStep(inBits: seq<bool>, r: nat, cur: seq<bool>, layout: seq<bool>, i: nat, xorVal: bool)
    requires IsCheckBitCount(|inBits|, r)
    requires |cur| == |layout| == |inBits| + r && i < r
    requires ParitiesUpTo(cur, layout, i)
    requires xorVal == GroupXor(cur, i, |cur|)
    ensures 1 <= Pow2(i) <= |cur|
    ensures xorVal == GroupXor(layout, i, |cur|)
    ensures ParitiesUpTo(cur[Pow2(i) - 1 := xorVal], layout, i + 1)
  {
    ParityPositionInRange(|inBits|, r, i);
    forall j | 1 <= j <= |cur| && Bit(j, i)
      ensures cur[j - 1] == layout[j - 1]
    {
      if IsPowerOfTwo(j) && Log2(j) < i {
        PowerOfTwoIsPow2(j);
        BitOfPow2(Log2(j), i);
      }
    }
    GroupXorFrame(cur, layout, i, |cur|);
    Pow2IsPowerOfTwo(i);
    forall p | 1 <= p <= |cur| && p != Pow2(i) && IsPowerOfTwo(p)
      ensures Log2(p) != i
    {
      PowerOfTwoIsPow2(p);
    }
  }

  /** After r rounds every parity position of 1..n has been written. */
  lemma {:induction false} ParitiesComplete(inBits: seq<bool>, r: nat, cur: seq<bool>, layout: seq<bool>)
    requires IsCheckBitCount(|inBits|, r)
    requires layout == Layout(inBits, r) && |cur| == |layout|
    requires ParitiesUpTo(cur, layout, r)
    ensures cur == Codeword(inBits, r)
  {
    forall p | 1 <= p <= |cur| && IsPowerOfTwo(p)
      ensures Log2(p) < r
    {
      PowerPositionIndex(|inBits|, r, p);
    }
  }

  /**
   * The output pass: r_out_bits[n - i] = out_bits[i] for i < n and
   * r_out_bits[0] = XOR of out_bits, so the XOR of the whole word is 0.
   */
  method OutputPass(outBits: array<bool>) returns (word: seq<bool>)
    ensures |word| == outBits.Length + 1
    ensures word[0] == XorAll(outBits[..])
    ensures forall i :: 0 <= i < outBits.Length ==> word[outBits.Length - i] == outBits[i]
    ensures word == Extended(outBits[..])
    ensures !XorAll(word)
  {
    var n := outBits.Length;
    var rOutBits := new bool[n + 1];
    var xorVal := false;
    var i := 0;
    while i < n
      invariant 0 <= i <= n
      invariant xorVal == XorAll(outBits[..i])
      invariant forall k :: 0 <= k < i ==> rOutBits[n - k] == outBits[k]
    {
      assert outBits[..i + 1][..i] == outBits[..i];
      xorVal := xorVal != outBits[i];
      rOutBits[n - i] := outBits[i];
      i := i + 1;
    }
    rOutBits[0] := xorVal;
    word := rOutBits[..];
    assert outBits[..n] == outBits[..];
    ReversedIntoExtended(outBits[..], word);
    ExtendedParityIsZero(outBits[..]);
  }

  /**
   * The whole `always_comb` body for a validated width m = |inBits|:
   * r check bits, the layout walk, the parity loop and the output pass.
   */
  method Encode(inBits: seq<bool>) returns (r: nat, word: seq<bool>)
    requires IsValidWidth(|inBits|)
    ensures IsCheckBitCount(|inBits|, r)
    ensures |word| == |inBits| + r + 1
    ensures word == Encoded(inBits, r)
  {
    r := ComputeCheckBits(|inBits|);
    var outBits := new bool[|inBits| + r];
    var cursor := LayoutWalk(inBits, r, outBits);
    ParityLoop(inBits, r, outBits);
    word := OutputPass(outBits);
  }
}
