/**
 Rounding a 32-bit word up to a power of two: the shift-or form of ring.h, the
 doubling loop of test2.c, and the one number-theoretic meaning both have.
 */
module Alignment {
  import opened Bits

  /** The least power of two that is at least x. */
  function CeilPow2(x: nat): nat {
    if x <= 1 then 1 else Pow2(BitLength(x - 1))
  }

  lemma {:induction false} CeilPow2IsLeast(x: nat)
    ensures IsPow2(CeilPow2(x)) && x <= CeilPow2(x)
    ensures forall p: nat :: IsPow2(p) && x <= p ==> CeilPow2(x) <= p
    ensures x >= 1 ==> CeilPow2(x) < 2 * x
  {
    if x <= 1 {
      assert Pow2(0) == 1;
    } else {
      BitLengthBounds(x - 1);
      forall p: nat | IsPow2(p) && x <= p ensures CeilPow2(x) <= p {
        var k: nat :| p == Pow2(k);
        BitLengthIs(x - 1, k);
        Pow2Monotone(BitLength(x - 1), k);
      }
    }
  }

  lemma {:induction false} CeilPow2Range(x: nat)
    ensures x <= TWO_31 <==> CeilPow2(x) <= TWO_31
    ensures TWO_31 < x <= TWO_32 ==> CeilPow2(x) == TWO_32
  {
    Pow2Values();
    CeilPow2IsLeast(x);
    assert IsPow2(TWO_31) && IsPow2(TWO_32);
    var k: nat :| CeilPow2(x) == Pow2(k);
    Pow2Order(31, k);
  }

  /** What rte_align32pow2 computes on every 32-bit argument, including the two ways it wraps to zero. */
  function Align32(x: nat): nat
    requires x < TWO_32
  {
    if x == 0 || x > TWO_31 then 0 else CeilPow2(x)
  }

  /** Smearing by k when the leading ones already number k, or all of the bits. */
  lemma {:induction false} Smear(x: nat, len: nat, k: nat)
    requires 1 <= k && 1 <= len && TopOnes(x, len, if k <= len then k else len)
    ensures TopOnes(Or(x, Shr(x, k)), len, if 2 * k <= len then 2 * k else len)
  {
    if k <= len {
      SmearStep(x, len, k);
    } else {
      Pow2Monotone(len, k);
      ShiftBelow(x, k, 1);
      assert Or(x, 0) == x;
    }
  }

  /** Sets every bit below the most significant one. */
  method CombineMs1b(word: nat) returns (x: nat)
    requires word < TWO_32
    ensures x == Pow2(BitLength(word)) - 1
  {
    x := word;
    ghost var len := BitLength(word);
    if word == 0 {
      assert Shr(0, 1) == Shr(0, 2) == Shr(0, 4) == Shr(0, 8) == Shr(0, 16) == 0;
      assert Or(0, 0) == 0;
      assert Pow2(0) == 1;
    } else {
      Pow2Values();
      BitLengthBounds(word);
      BitLengthIs(word, 32);
      Smear(word, len, 1);
    }
    x := Or(x, Shr(x, 1));
    if word != 0 { Smear(x, len, 2); }
    x := Or(x, Shr(x, 2));
    if word != 0 { Smear(x, len, 4); }
    x := Or(x, Shr(x, 4));
    if word != 0 { Smear(x, len, 8); }
    x := Or(x, Shr(x, 8));
    if word != 0 { Smear(x, len, 16); }
    x := Or(x, Shr(x, 16));
    assert Pow2(0) == 1;
  }

  method Align32Pow2(word: nat) returns (x: nat)
    requires word < TWO_32
    ensures x == Align32(word)
  {
    x := Word32(word - 1);
    x := CombineMs1b(x);
    SmearedPlusOne(word);
    x := Word32(x + 1);
  }

  lemma {:induction false} SmearedPlusOne(word: nat)
    requires word < TWO_32
    ensures Word32(Pow2(BitLength(Word32(word - 1)))) == Align32(word)
  {
    if word == 0 {
      AllOnes();
      Pow2Values();
      assert Word32(0 - 1) == TWO_32 - 1;
    } else {
      BitLengthOfLess(word);
      assert Word32(word - 1) == word - 1;
      WrappedCeil(word);
    }
  }

  lemma {:induction false} WrappedCeil(word: nat)
    requires 0 < word < TWO_32
    ensures Word32(CeilPow2(word)) == Align32(word)
  {
    CeilPow2Range(word);
  }

  lemma {:induction false} BitLengthOfLess(word: nat)
    requires word > 0
    ensures Pow2(BitLength(word - 1)) == CeilPow2(word)
  {
    if word == 1 {
      assert BitLength(0) == 0;
      assert Pow2(0) == 1;
    }
  }

  lemma {:induction false} AllOnes()
    ensures BitLength(TWO_32 - 1) == 32
  {
    Pow2Values();
    BitLengthIs(TWO_32 - 1, 32);
    BitLengthIs(TWO_32 - 1, 31);
  }

  /** A round of the loop that is still needed does not wrap. */
  lemma {:induction false} DoubleOnce(k: nat, result: nat, n: nat)
    requires result == Pow2(k) == Doubled(k) && k <= 31 && result < n <= TWO_31
    ensures Word32(result * 2) == Pow2(k + 1) == Doubled(k + 1) && k + 1 <= 31
    ensures result < Word32(result * 2) < 2 * n
  {
    Pow2Values();
    Pow2Order(k, 31);
    assert Doubled(k + 1) == Word32(Doubled(k) * 2);
  }

  /** The doubling form, on the arguments for which the loop ends; LoopEndsIff has the others. */
  method AlignToPowerOfTwoLoop(n: nat) returns (result: nat)
    requires n <= TWO_31
    ensures result == CeilPow2(n)
    ensures exists k: nat :: result == Doubled(k) && forall j: nat :: j < k ==> Doubled(j) < n
  {
    result := 1;
    ghost var k := 0;
    Pow2Values();
    CeilPow2IsLeast(n);
    while result < n
      invariant result == Pow2(k) == Doubled(k) && k <= 31
      invariant forall j: nat :: j < k ==> Doubled(j) < n
      invariant result == 1 || result < 2 * n
      decreases n - result
    {
      DoubleOnce(k, result, n);
      result := Word32(result * 2);
      k := k + 1;
    }
    assert IsPow2(result);
    LeastIsUnique(n, result);
  }

  /** The word after k rounds of the doubling loop. */
  function Doubled(k: nat): (r: nat)
    ensures r < TWO_32
  {
    if k == 0 then 1 else Word32(Doubled(k - 1) * 2)
  }

  lemma {:induction false} PowerFits(k: nat)
    requires k <= 31
    ensures Pow2(k) <= TWO_31
  {
    Pow2Values();
    Pow2Monotone(k, 31);
  }

  /** The doublings are the powers of two up to 2^31. */
  lemma {:induction false} DoubledLow(k: nat)
    requires k <= 31
    ensures Doubled(k) == Pow2(k)
  {
    if k > 0 {
      DoubledLow(k - 1);
      PowerFits(k);
    }
  }

  /** The top bit falls out at the thirty-second doubling, and zero stays zero. */
  lemma {:induction false} DoubledHigh(k: nat)
    requires k >= 32
    ensures Doubled(k) == 0
  {
    if k == 32 {
      DoubledLow(31);
      Pow2Values();
      assert Doubled(32) == Word32(Doubled(31) * 2);
    } else {
      DoubledHigh(k - 1);
    }
  }

  /** The loop comes to a word that is not below n, and so ends, exactly for n up to 2^31. */
  lemma {:induction false} LoopEndsIff(n: nat)
    ensures (exists k: nat :: Doubled(k) >= n) <==> n <= TWO_31
    ensures n > TWO_31 ==> forall k: nat :: Doubled(k) < n
  {
    forall k: nat ensures Doubled(k) <= TWO_31 {
      if k <= 31 {
        DoubledLow(k);
        PowerFits(k);
      } else {
        DoubledHigh(k);
      }
    }
    DoubledLow(31);
    Pow2Values();
    assert Doubled(31) == TWO_31;
  }

  lemma {:induction false} LeastIsUnique(n: nat, p: nat)
    requires IsPow2(p) && n <= p && (p == 1 || p < 2 * n)
    ensures p == CeilPow2(n)
  {
    CeilPow2IsLeast(n);
    var a: nat :| p == Pow2(a);
    var b: nat :| CeilPow2(n) == Pow2(b);
    Pow2Order(b, a);
  }

  /** The two forms agree on every argument the loop terminates on, except zero. */
  method CompareForms(n: nat) returns (bitwise: nat, loop: nat)
    requires n <= TWO_31
    ensures bitwise == loop <==> n != 0
    ensures n != 0 ==> IsPow2(loop) && n <= loop <= TWO_31
    ensures forall p: nat :: IsPow2(p) && n <= p ==> loop <= p
  {
    bitwise := Align32Pow2(n);
    loop := AlignToPowerOfTwoLoop(n);
    CeilPow2IsLeast(n);
    CeilPow2Range(n);
  }
}
