/**
 Bitwise operations on unsigned machine words, written as recursive functions
 on the naturals they denote, and the facts about powers of two and masks that
 the ring and the heap rely on.
 */
module Bits {

  const TWO_31: nat := 0x8000_0000
  const TWO_32: nat := 0x1_0000_0000
  const TWO_64: nat := 0x1_0000_0000_0000_0000

  function Pow2(k: nat): (r: nat)
    ensures r >= 1
  {
    if k == 0 then 1 else 2 * Pow2(k - 1)
  }

  ghost predicate IsPow2(x: nat) {
    exists k: nat :: x == Pow2(k)
  }

  /** x & y */
  function And(x: nat, y: nat): nat
    decreases x
  {
    if x == 0 || y == 0 then 0
    else (if x % 2 == 1 && y % 2 == 1 then 1 else 0) + 2 * And(x / 2, y / 2)
  }

  /** x | y */
  function Or(x: nat, y: nat): nat
    decreases x + y
  {
    if x == 0 then y
    else if y == 0 then x
    else (if x % 2 == 1 || y % 2 == 1 then 1 else 0) + 2 * Or(x / 2, y / 2)
  }

  /** x & ~y */
  function AndNot(x: nat, y: nat): nat
    decreases x
  {
    if x == 0 then 0
    else (if x % 2 == 1 && y % 2 == 0 then 1 else 0) + 2 * AndNot(x / 2, y / 2)
  }

  /** x >> k */
  function Shr(x: nat, k: nat): nat {
    Quotient(x, Pow2(k))
  }

  function Quotient(x: nat, d: nat): nat
    requires d > 0
  {
    x / d
  }

  /** The number of bits needed to write x: 0 for 0, otherwise one more than the index of the top bit. */
  function BitLength(x: nat): nat {
    if x == 0 then 0 else 1 + BitLength(x / 2)
  }

  /** x reduced to an unsigned 32-bit word. */
  function Word32(x: int): (r: nat)
    ensures r < TWO_32
  {
    x % TWO_32
  }

  /** x reduced to an unsigned 64-bit word. */
  function Word64(x: int): (r: nat)
    ensures r < TWO_64
  {
    x % TWO_64
  }

  /** Bytes in a cache line, the same for both components. */
  const RTE_CACHE_LINE_SIZE: nat := 64

  // ----- powers of two

  lemma {:induction false} Pow2Adds(a: nat, b: nat)
    ensures Pow2(a + b) == Pow2(a) * Pow2(b)
  {
    if a > 0 {
      Pow2Adds(a - 1, b);
      assert Pow2(a + b) == 2 * Pow2(a - 1 + b);
      assert 2 * (Pow2(a - 1) * Pow2(b)) == (2 * Pow2(a - 1)) * Pow2(b);
    }
  }

  lemma {:induction false} Pow2Monotone(a: nat, b: nat)
    requires a <= b
    ensures Pow2(a) <= Pow2(b)
    ensures a < b ==> 2 * Pow2(a) <= Pow2(b)
  {
    if a < b {
      Pow2Monotone(a, b - 1);
    }
  }

  lemma {:induction false} Pow2Values()
    ensures Pow2(1) == 2 && Pow2(2) == 4 && Pow2(4) == 16 && Pow2(6) == 64 && Pow2(8) == 256
    ensures Pow2(16) == 0x1_0000 && Pow2(30) == 0x4000_0000 && Pow2(31) == TWO_31 && Pow2(32) == TWO_32
  {
    assert Pow2(4) == 16;
    assert Pow2(8) == 256 by { assert Pow2(6) == 64; }
    Pow2Adds(8, 8);
    Pow2Adds(14, 16);
    Pow2Adds(8, 6);
    assert Pow2(14) == 0x4000;
    assert Pow2(31) == 2 * Pow2(30);
    assert Pow2(32) == 2 * Pow2(31);
  }

  /** Powers of two are ordered like their exponents, so one strictly below another is at most half of it. */
  lemma {:induction false} Pow2Order(a: nat, b: nat)
    ensures Pow2(a) < Pow2(b) <==> a < b
    ensures Pow2(a) < Pow2(b) ==> 2 * Pow2(a) <= Pow2(b)
  {
    if a < b {
      Pow2Monotone(a, b);
    } else {
      Pow2Monotone(b, a);
    }
  }

  /** A power of two up to 2^32 divides 2^32. */
  lemma {:induction false} Pow2Divides32(size: nat) returns (q: nat)
    requires IsPow2(size) && size <= TWO_32
    ensures q >= 1 && size * q == TWO_32
  {
    var k: nat :| size == Pow2(k);
    Pow2Values();
    Pow2Order(32, k);
    Pow2Adds(k, 32 - k);
    q := Pow2(32 - k);
  }

  // ----- masks

  lemma {:induction false} HalfMod(h: nat, b: nat, m: nat)
    requires b < 2 && m > 0
    ensures (2 * h + b) % (2 * m) == 2 * (h % m) + b
    ensures (2 * h + b) / (2 * m) == h / m
  {
    var q, r := h / m, h % m;
    assert h == m * q + r;
    DivModUnique(2 * h + b, 2 * m, q, 2 * r + b);
  }

  lemma {:induction false} DivModUnique(x: int, m: int, q: int, r: int)
    requires m > 0 && 0 <= r < m && x == m * q + r
    ensures x / m == q && x % m == r
  {
    var d := x / m - q;
    assert x == m * (x / m) + x % m;
    assert m * d == r - x % m by { assert m * d == m * (x / m) - m * q; }
    if d != 0 {
      DivisionGap(m, d, r - x % m);
    }
    assert d == 0;
  }

  /** Multiplying by a positive number keeps strict order, by at least that number. */
  lemma {:induction false} MulGap(m: int, a: int, b: int)
    requires m > 0 && a < b
    ensures m * a + m <= m * b
  {
    var d := b - a - 1;
    assert b == a + d + 1;
    assert m * b == m * a + m * d + m;
    MulNonNegative(m, d);
  }

  lemma {:induction false} MulNonNegative(m: int, d: int)
    requires m >= 0 && d >= 0
    ensures m * d >= 0
  {
  }

  lemma {:induction false} MulOrder(m: int, a: int, b: int)
    requires m > 0
    ensures a < b <==> m * a < m * b
    ensures a <= b <==> m * a <= m * b
  {
    if a < b {
      MulGap(m, a, b);
    } else if b < a {
      MulGap(m, b, a);
    }
  }

  lemma {:induction false} DivisionGap(m: int, d: int, e: int)
    requires m > 0 && d != 0 && m * d == e
    ensures e >= m || e <= -m
  {
    if d > 0 {
      MulGap(m, 0, d);
    } else {
      MulGap(m, d, 0);
    }
  }

  lemma {:induction false} MaskStep(h: nat, b: nat, g: nat)
    requires b < 2
    ensures And(2 * h + b, 2 * g + 1) == b + 2 * And(h, g)
    ensures AndNot(2 * h + b, 2 * g + 1) == 2 * AndNot(h, g)
  {
    assert (2 * h + b) / 2 == h && (2 * h + b) % 2 == b;
    assert (2 * g + 1) / 2 == g;
  }

  /** Masking with 2^k - 1 keeps the remainder modulo 2^k; masking it out rounds down to a multiple of 2^k. */
  lemma {:induction false} LowMask(x: nat, k: nat)
    ensures And(x, Pow2(k) - 1) == x % Pow2(k)
    ensures AndNot(x, Pow2(k) - 1) == x - x % Pow2(k)
    decreases k
  {
    if k == 0 {
      AndNotZero(x);
    } else {
      var h, b, m := x / 2, x % 2, Pow2(k - 1);
      LowMask(h, k - 1);
      HalfMod(h, b, m);
      MaskStep(h, b, m - 1);
      assert Pow2(k) - 1 == 2 * (m - 1) + 1 && x == 2 * h + b;
    }
  }

  lemma {:induction false} AndNotZero(x: nat)
    ensures AndNot(x, 0) == x
  {
    if x > 0 {
      AndNotZero(x / 2);
    }
  }

  lemma {:induction false} AndSelf(x: nat)
    ensures And(x, x) == x
  {
    if x > 0 {
      AndSelf(x / 2);
    }
  }

  /** The test (x - 1) & x == 0 accepts exactly the powers of two, and zero is excluded here. */
  lemma {:induction false} PowerTest(x: nat)
    requires x > 0
    ensures And(x - 1, x) == 0 <==> IsPow2(x)
  {
    var h := x / 2;
    if x == 1 {
      assert x == Pow2(0);
    } else if x % 2 == 0 {
      PowerTest(h);
      assert And(x - 1, x) == 2 * And(h - 1, h) by { assert (x - 1) / 2 == h - 1; }
      EvenPower(h);
    } else {
      AndSelf(h);
      assert And(x - 1, x) == 2 * h by { assert (x - 1) / 2 == h; }
      OddNotPower(x);
    }
  }

  lemma {:induction false} EvenPower(h: nat)
    requires h > 0
    ensures IsPow2(2 * h) <==> IsPow2(h)
  {
    if IsPow2(h) {
      var k: nat :| h == Pow2(k);
      assert 2 * h == Pow2(k + 1);
    }
    if IsPow2(2 * h) {
      var k: nat :| 2 * h == Pow2(k);
      assert h == Pow2(k - 1);
    }
  }

  lemma {:induction false} OddNotPower(x: nat)
    requires x % 2 == 1 && x > 1
    ensures !IsPow2(x)
  {
    forall k: nat ensures Pow2(k) != x {
      if k > 0 {
        assert Pow2(k) == 2 * Pow2(k - 1);
      }
    }
  }

  // ----- 32-bit counters and unbounded positions

  /** bias + low(a) - low(b) modulo 2^32 is the true bias + a - b whenever that fits in a word. */
  lemma {:induction false} WordDifference(bias: int, a: nat, b: nat)
    ensures 0 <= bias + a - b < TWO_32 ==> Word32(bias + Word32(a) - Word32(b)) == bias + a - b
  {
  }

  lemma {:induction false} WordSum(a: nat, n: nat)
    ensures Word32(Word32(a) + n) == Word32(a + n)
  {
  }

  /** Masking survives the wrap of the counter: size divides 2^32. */
  lemma {:induction false} LowBits(position: nat, size: nat)
    requires IsPow2(size) && size <= TWO_32
    ensures Word32(position) % size == position % size
  {
    var q := Pow2Divides32(size);
    var laps := position / TWO_32;
    assert position == TWO_32 * laps + Word32(position);
    assert TWO_32 * laps == size * (q * laps);
    var a := Word32(position) / size;
    assert Word32(position) == size * a + Word32(position) % size;
    MulSub(size, q * laps, -a);
    DivModUnique(position, size, q * laps + a, Word32(position) % size);
  }

  // ----- smearing the top bit

  /** Or of numbers with at most k bits has at most k bits and is no smaller than either. */
  lemma {:induction false} OrBounds(x: nat, y: nat, k: nat)
    requires x < Pow2(k) && y < Pow2(k)
    ensures x <= Or(x, y) < Pow2(k) && y <= Or(x, y)
    decreases k
  {
    if x > 0 && y > 0 {
      OrBounds(x / 2, y / 2, k - 1);
    }
  }

  /** High bits that only the left operand has pass through Or untouched. */
  lemma {:induction false} OrHigh(a: nat, r: nat, y: nat, k: nat)
    requires r < Pow2(k) && y < Pow2(k)
    ensures Or(Pow2(k) * a + r, y) == Pow2(k) * a + Or(r, y)
    decreases k
  {
    if a > 0 && k > 0 && y > 0 {
      var high := Pow2(k - 1) * a;
      MulNonNegative(Pow2(k - 1), a);
      DoublePow(k, a);
      OrHigh(a, r / 2, y / 2, k - 1);
      OrStep(high + r / 2, r % 2, y);
      OrStep(r / 2, r % 2, y);
      assert 2 * (high + r / 2) + r % 2 == 2 * high + r;
    }
  }

  lemma {:induction false} DoublePow(k: nat, a: nat)
    requires k > 0
    ensures Pow2(k) * a == 2 * (Pow2(k - 1) * a)
  {
  }

  /** One bit of Or; with nothing on the left the right operand shows. */
  lemma {:induction false} OrStep(h: nat, b: nat, y: nat)
    requires b < 2 && y > 0
    ensures Or(2 * h + b, y) == (if b == 1 || y % 2 == 1 then 1 else 0) + 2 * Or(h, y / 2)
  {
    var x := 2 * h + b;
    assert x / 2 == h && x % 2 == b;
    assert Or(0, y / 2) == y / 2;
  }

  /** The top `ones` of the bits below 2^len are all set in x. */
  predicate TopOnes(x: nat, len: nat, ones: nat)
    requires ones <= len
  {
    Pow2(len) - Pow2(len - ones) <= x < Pow2(len)
  }

  /** One smearing step x |= x >> ones doubles the number of leading ones. */
  lemma {:induction false} SmearStep(x: nat, len: nat, ones: nat)
    requires 1 <= ones <= len && TopOnes(x, len, ones)
    ensures TopOnes(Or(x, Shr(x, ones)), len, if 2 * ones <= len then 2 * ones else len)
  {
    LeadingOnes(x, len, ones);
    OrBelowOnes(x, len, ones, Shr(x, ones));
    SmearedCopy(x, len, ones);
  }

  /** An operand below the leading ones leaves them, and shows in the rest. */
  lemma {:induction false} OrBelowOnes(x: nat, len: nat, ones: nat, y: nat)
    requires 1 <= ones <= len && TopOnes(x, len, ones) && y < Pow2(len - ones)
    requires Pow2(len - ones) * (Pow2(ones) - 1) == Pow2(len) - Pow2(len - ones)
    ensures Pow2(len) - Pow2(len - ones) + y <= Or(x, y) < Pow2(len)
  {
    var r := x - (Pow2(len) - Pow2(len - ones));
    OrHigh(Pow2(ones) - 1, r, y, len - ones);
    OrBounds(r, y, len - ones);
  }

  lemma {:induction false} LeadingOnes(x: nat, len: nat, ones: nat)
    requires 1 <= ones <= len && TopOnes(x, len, ones)
    ensures Pow2(len - ones) * (Pow2(ones) - 1) == Pow2(len) - Pow2(len - ones)
    ensures Shr(x, ones) < Pow2(len - ones)
  {
    Pow2Adds(ones, len - ones);
    MulSub(Pow2(len - ones), Pow2(ones), 1);
    ShiftBelow(x, ones, Pow2(len - ones));
  }

  /** What the shifted copy contributes: its own leading ones, just below those of the original. */
  lemma {:induction false} SmearedCopy(x: nat, len: nat, ones: nat)
    requires 1 <= ones <= len && TopOnes(x, len, ones)
    ensures Shr(x, ones) >= Pow2(len - ones) - if 2 * ones <= len then Pow2(len - 2 * ones) else 1
  {
    var hi, low := Pow2(ones), Pow2(len - ones);
    var rest := if 2 * ones <= len then Pow2(len - 2 * ones) else 1;
    Pow2Adds(ones, len - ones);
    if low > rest {
      SmearedRest(len, ones, rest);
      MulSub(hi, low, rest);
      ShiftAbove(x, ones, low - rest);
    }
  }

  lemma {:induction false} SmearedRest(len: nat, ones: nat, rest: nat)
    requires 1 <= ones <= len
    requires rest == if 2 * ones <= len then Pow2(len - 2 * ones) else 1
    ensures Pow2(len - ones) <= Pow2(ones) * rest
  {
    if 2 * ones <= len {
      Pow2Adds(ones, len - 2 * ones);
    } else {
      Pow2Monotone(len - ones, ones);
    }
  }

  lemma {:induction false} MulSub(m: int, a: int, b: int)
    ensures m * (a - b) == m * a - m * b
  {
  }

  lemma {:induction false} ShiftBelow(x: nat, k: nat, bound: nat)
    requires x < Pow2(k) * bound
    ensures Shr(x, k) < bound
  {
    var p := Pow2(k);
    assert x == p * (x / p) + x % p;
    MulOrder(p, bound, x / p);
  }

  lemma {:induction false} ShiftAbove(x: nat, k: nat, bound: nat)
    requires Pow2(k) * bound <= x
    ensures bound <= Shr(x, k)
  {
    var p := Pow2(k);
    assert x == p * (x / p) + x % p;
    if x / p < bound {
      MulGap(p, x / p, bound);
    }
  }

  /** A nonzero number has its top bit where its bit length says. */
  lemma {:induction false} BitLengthBounds(x: nat)
    requires x > 0
    ensures BitLength(x) >= 1 && Pow2(BitLength(x) - 1) <= x < Pow2(BitLength(x))
  {
    if x > 1 {
      BitLengthBounds(x / 2);
    }
  }

  /** Bit length is the only exponent that brackets x from above and below. */
  lemma {:induction false} BitLengthIs(x: nat, k: nat)
    requires x > 0
    ensures x < Pow2(k) <==> BitLength(x) <= k
  {
    BitLengthBounds(x);
    if BitLength(x) <= k {
      Pow2Monotone(BitLength(x), k);
    } else {
      Pow2Monotone(k, BitLength(x) - 1);
    }
  }

  // ----- bit by bit

  /** Bit k of x, counting from the lowest. */
  predicate Bit(x: nat, k: nat) {
    Quotient(x, Pow2(k)) % 2 == 1
  }

  lemma {:induction false} LowBit(x: nat)
    ensures Bit(x, 0) <==> x % 2 == 1
  {
  }

  /** Bit k + 1 is bit k of the half. */
  lemma {:induction false} HigherBit(x: nat, k: nat)
    ensures Bit(x, k + 1) <==> Bit(x / 2, k)
  {
    QuotientHalf(x, Pow2(k));
  }

  lemma {:induction false} QuotientHalf(x: nat, m: nat)
    requires m > 0
    ensures Quotient(x, 2 * m) == Quotient(x / 2, m)
  {
    HalfMod(x / 2, x % 2, m);
  }

  lemma {:induction false} NoBits(k: nat)
    ensures !Bit(0, k)
    decreases k
  {
    if k == 0 {
      LowBit(0);
    } else {
      HigherBit(0, k - 1);
      NoBits(k - 1);
    }
  }

  /** x & y has the bits that both have. */
  lemma {:induction false} AndBits(x: nat, y: nat, k: nat)
    ensures Bit(And(x, y), k) <==> Bit(x, k) && Bit(y, k)
    decreases k
  {
    if x == 0 || y == 0 {
      NoBits(k);
    } else if k == 0 {
      LowBit(x);
      LowBit(y);
      LowBit(And(x, y));
    } else {
      HigherBit(x, k - 1);
      HigherBit(y, k - 1);
      HigherBit(And(x, y), k - 1);
      AndBits(x / 2, y / 2, k - 1);
    }
  }

  /** x | y has the bits that either has. */
  lemma {:induction false} OrBits(x: nat, y: nat, k: nat)
    ensures Bit(Or(x, y), k) <==> Bit(x, k) || Bit(y, k)
    decreases k
  {
    if x == 0 || y == 0 {
      NoBits(k);
    } else if k == 0 {
      LowBit(x);
      LowBit(y);
      LowBit(Or(x, y));
    } else {
      HigherBit(x, k - 1);
      HigherBit(y, k - 1);
      HigherBit(Or(x, y), k - 1);
      OrBits(x / 2, y / 2, k - 1);
    }
  }

  /** x & ~y has the bits of x that y has not. */
  lemma {:induction false} AndNotBits(x: nat, y: nat, k: nat)
    ensures Bit(AndNot(x, y), k) <==> Bit(x, k) && !Bit(y, k)
    decreases k
  {
    if x == 0 {
      NoBits(k);
    } else if k == 0 {
      LowBit(x);
      LowBit(y);
      LowBit(AndNot(x, y));
    } else {
      HigherBit(x, k - 1);
      HigherBit(y, k - 1);
      HigherBit(AndNot(x, y), k - 1);
      AndNotBits(x / 2, y / 2, k - 1);
    }
  }

  /** x >> n moves the bits down. */
  lemma {:induction false} ShrBits(x: nat, n: nat, k: nat)
    ensures Bit(Shr(x, n), k) <==> Bit(x, n + k)
    decreases n
  {
    if n == 0 {
      assert Pow2(0) == 1;
    } else {
      QuotientHalf(x, Pow2(n - 1));
      ShrBits(x / 2, n - 1, k);
      HigherBit(x, n - 1 + k);
    }
  }

  /** A number is determined by its bits. */
  lemma {:induction false} SameBits(x: nat, y: nat)
    requires forall k: nat :: Bit(x, k) <==> Bit(y, k)
    ensures x == y
    decreases x + y
  {
    if x + y > 0 {
      LowBit(x);
      LowBit(y);
      assert Bit(x, 0) <==> Bit(y, 0);
      forall k: nat ensures Bit(x / 2, k) <==> Bit(y / 2, k) {
        HigherBit(x, k);
        HigherBit(y, k);
        assert Bit(x, k + 1) <==> Bit(y, k + 1);
      }
      SameBits(x / 2, y / 2);
    }
  }

  /** Masking with a single bit asks for that bit. */
  lemma {:induction false} SingleBit(x: nat, k: nat)
    ensures And(x, Pow2(k)) == if Bit(x, k) then Pow2(k) else 0
    decreases k
  {
    if x == 0 {
      NoBits(k);
    } else if k == 0 {
      LowBit(x);
      assert And(x / 2, 0) == 0;
    } else {
      HigherBit(x, k - 1);
      SingleBit(x / 2, k - 1);
    }
  }
}
