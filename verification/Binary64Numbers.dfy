/** Finite binary64 numbers by their bits (IEEE 754), what they are worth, and which integers
    are among them. */
module Binary64Numbers {

  const MINIMUM_INTEGER := -0x8000_0000_0000_0000
  const MAXIMUM_INTEGER := 0xFFFF_FFFF_FFFF_FFFF
  const SIGN_BIT := 0x8000_0000_0000_0000
  const HIDDEN_BIT := 0x10_0000_0000_0000
  const LEAST_EXPONENT := 1074

  /** What a signed or an unsigned 64-bit integer holds. */
  type Integer64 = i: int | MINIMUM_INTEGER <= i <= MAXIMUM_INTEGER

  /** The bits of a finite number other than negative zero. */
  predicate FiniteBits(b: nat) {
    b < 2 * SIGN_BIT && b / HIDDEN_BIT % 0x800 != 0x7FF && b != SIGN_BIT
  }

  type Bits = b: nat | FiniteBits(b)

  // ---- Powers of two ----

  function Pow2(n: nat): (p: nat)
    ensures p >= 1
  {
    if n == 0 then 1 else 2 * Pow2(n - 1)
  }

  function BitWidth(n: nat): (w: nat) {
    if n == 0 then 0 else 1 + BitWidth(n / 2)
  }

  lemma {:induction false} Pow2Adds(a: nat, b: nat)
    ensures Pow2(a + b) == Pow2(a) * Pow2(b)
  {
    if a > 0 {
      Pow2Adds(a - 1, b);
      DoublesLeft(Pow2(a - 1), Pow2(b));
    }
  }

  lemma DoublesLeft(p: nat, q: nat)
    ensures 2 * p * q == 2 * (p * q)
  {
  }

  lemma Doubles(m: nat, p: nat)
    ensures m * (2 * p) == 2 * (m * p)
  {
  }

  lemma Eight()
    ensures Pow2(8) == 0x100
  {
    assert Pow2(8) == 2 * Pow2(7) && Pow2(7) == 2 * Pow2(6) && Pow2(6) == 2 * Pow2(5) && Pow2(5) == 2 * Pow2(4);
    assert Pow2(4) == 2 * Pow2(3) && Pow2(3) == 2 * Pow2(2) && Pow2(2) == 2 * Pow2(1) && Pow2(1) == 2 * Pow2(0);
  }

  lemma SixtyFour()
    ensures Pow2(64) == 2 * SIGN_BIT
  {
    hide Pow2;
    Eight();
    Pow2Adds(8, 8);
    Pow2Adds(16, 16);
    Pow2Adds(32, 32);
  }

  lemma FiftyThree()
    ensures Pow2(52) == HIDDEN_BIT && Pow2(53) == 2 * HIDDEN_BIT
  {
    hide Pow2;
    Eight();
    Pow2Adds(8, 8);
    Pow2Adds(16, 16);
    Pow2Adds(32, 16);
    Four();
    Pow2Adds(48, 4);
    Pow2Adds(52, 1);
  }

  lemma Four()
    ensures Pow2(4) == 16 && Pow2(1) == 2
  {
    assert Pow2(4) == 2 * Pow2(3) && Pow2(3) == 2 * Pow2(2) && Pow2(2) == 2 * Pow2(1) && Pow2(1) == 2 * Pow2(0);
  }

  lemma {:induction false} WidthBelow(n: nat, w: nat)
    ensures n < Pow2(w) <==> BitWidth(n) <= w
  {
    if w > 0 && n > 0 {
      WidthBelow(n / 2, w - 1);
    }
  }

  // ---- What bits are worth ----

  function BiasedExponent(b: Bits): nat {
    b / HIDDEN_BIT % 0x800
  }

  /** The significand with its hidden bit; subnormal numbers have none. */
  ghost function Significand(b: Bits): (s: nat) {
    b % HIDDEN_BIT + if BiasedExponent(b) == 0 then 0 else HIDDEN_BIT
  }

  function Exponent(b: Bits): nat {
    if BiasedExponent(b) == 0 then 0 else BiasedExponent(b) - 1
  }

  /** The number in units of the least positive one. */
  ghost function Scaled(b: Bits): int {
    if b >= SIGN_BIT then -(Significand(b) * Pow2(Exponent(b)) as int) else Significand(b) * Pow2(Exponent(b))
  }

  /** The number that bits stand for. */
  ghost function ValueOf(b: Bits): real {
    Scaled(b) as real / Pow2(LEAST_EXPONENT) as real
  }

  lemma SignificandBounds(b: Bits)
    ensures Significand(b) < 2 * HIDDEN_BIT && (Exponent(b) > 0 ==> Significand(b) >= HIDDEN_BIT)
    ensures b % SIGN_BIT == Exponent(b) * HIDDEN_BIT + Significand(b)
  {
  }

  /** A significand and an exponent are known by their product. */
  lemma ProductDecides(s: nat, e: nat, s': nat, e': nat)
    requires s < 2 * HIDDEN_BIT && s' < 2 * HIDDEN_BIT
    requires (e > 0 ==> s >= HIDDEN_BIT) && (e' > 0 ==> s' >= HIDDEN_BIT)
    requires s * Pow2(e) == s' * Pow2(e')
    ensures s == s' && e == e'
  {
    hide Pow2;
    if e < e' {
      LargerExponent(s, e, s', e');
    } else if e' < e {
      LargerExponent(s', e', s, e);
    } else {
      CancelFactor(s, s', Pow2(e));
    }
  }

  lemma LargerExponent(s: nat, e: nat, s': nat, e': nat)
    requires s < 2 * HIDDEN_BIT && s' >= HIDDEN_BIT && e < e'
    ensures s * Pow2(e) != s' * Pow2(e')
  {
    if s * Pow2(e) == s' * Pow2(e') {
      Pow2Adds(e' - e, e);
      Reassociates(s', Pow2(e' - e), Pow2(e));
      CancelFactor(s, s' * Pow2(e' - e), Pow2(e));
      AtLeastDoubled(s', e' - e);
      assert false;
    }
  }

  lemma Reassociates(x: nat, y: nat, z: nat)
    ensures x * (y * z) == (x * y) * z
  {
  }

  lemma CancelFactor(x: nat, y: nat, p: nat)
    requires p > 0 && x * p == y * p
    ensures x == y
  {
    assert (x - y) * p == 0;
    if x != y {
      FactorsAreZero(x - y, p);
    }
  }

  lemma FactorsAreZero(x: int, p: int)
    requires x != 0 && p != 0
    ensures x * p != 0
  {
  }

  lemma AtLeastDoubled(s: nat, d: nat)
    requires d > 0
    ensures s * Pow2(d) >= 2 * s
  {
    Doubles(s, Pow2(d - 1));
    AtLeast(s, Pow2(d - 1));
  }

  lemma AtLeast(s: nat, p: nat)
    requires p >= 1
    ensures s * p >= s
  {
  }

  /** Different bits are different numbers. */
  lemma ValueIsInjective(a: Bits, b: Bits)
    requires ValueOf(a) == ValueOf(b)
    ensures a == b
  {
    hide Pow2, Significand, Exponent;
    SameQuotient(Scaled(a), Scaled(b), Pow2(LEAST_EXPONENT));
    SignificandBounds(a);
    SignificandBounds(b);
    SignOf(a);
    SignOf(b);
    ProductDecides(Significand(a), Exponent(a), Significand(b), Exponent(b));
  }

  lemma SameQuotient(x: int, y: int, p: nat)
    requires p > 0 && x as real / p as real == y as real / p as real
    ensures x == y
  {
    assert x as real == x as real / p as real * p as real;
    assert y as real == y as real / p as real * p as real;
  }

  lemma SignOf(b: Bits)
    ensures Scaled(b) < 0 <==> b >= SIGN_BIT
    ensures b == b % SIGN_BIT + if b >= SIGN_BIT then SIGN_BIT else 0
    ensures Significand(b) * Pow2(Exponent(b)) == if Scaled(b) < 0 then -Scaled(b) else Scaled(b)
  {
    hide Pow2, Significand, Exponent;
    SignBit(b);
    SignificandBounds(b);
    if b >= SIGN_BIT {
      AtLeast(Significand(b), Pow2(Exponent(b)));
    } else {
      Positive(Significand(b), Pow2(Exponent(b)));
    }
  }

  lemma SignBit(b: Bits)
    ensures b == b % SIGN_BIT + if b >= SIGN_BIT then SIGN_BIT else 0
    ensures b >= SIGN_BIT ==> b % SIGN_BIT > 0
    ensures b >= SIGN_BIT ==> Significand(b) > 0
  {
    assert FiniteBits(b);
    if b >= SIGN_BIT {
      assert b % SIGN_BIT == b - SIGN_BIT;
      SignificandBounds(b);
    }
  }

  lemma Positive(x: nat, y: nat)
    ensures x * y >= 0
  {
  }

  // ---- Integers ----

  /** The `d` lowest bits of `n` are all zero. */
  predicate LowBitsZero(n: nat, d: nat) {
    d == 0 || (n % 2 == 0 && LowBitsZero(n / 2, d - 1))
  }

  /** `exactlyRepresentableAsBinary64`: the bits below the 53 leading ones are masked off. */
  predicate ExactlyRepresentable(magnitude: nat) {
    var width := BitWidth(magnitude);
    width <= 53 || LowBitsZero(magnitude, width - 53)
  }

  function ShiftRight(n: nat, d: nat): nat {
    if d == 0 then n else ShiftRight(n / 2, d - 1)
  }

  lemma {:induction false} ShiftOut(n: nat, d: nat)
    requires d <= BitWidth(n)
    ensures BitWidth(ShiftRight(n, d)) == BitWidth(n) - d
    ensures LowBitsZero(n, d) ==> n == ShiftRight(n, d) * Pow2(d)
  {
    if d > 0 {
      ShiftOut(n / 2, d - 1);
      Doubles(ShiftRight(n / 2, d - 1), Pow2(d - 1));
    }
  }

  lemma {:induction false} ShiftIn(m: nat, e: nat, d: nat)
    requires d <= e
    ensures BitWidth(m * Pow2(e)) == (if m == 0 then 0 else BitWidth(m) + e) && LowBitsZero(m * Pow2(e), d)
  {
    if e > 0 {
      ShiftIn(m, e - 1, if d > 0 then d - 1 else 0);
      Doubles(m, Pow2(e - 1));
      assert m > 0 ==> m * Pow2(e) > 0 by { AtLeast(m, Pow2(e)); }
    }
  }

  ghost predicate ScaledSignificand(n: nat, significand: nat, exponent: nat) {
    significand < Pow2(53) && n == significand * Pow2(exponent)
  }

  /** The mask test decides whether an integer is a 53-bit significand times a power of two. */
  lemma ExactlyRepresentableDecides(n: nat)
    ensures ExactlyRepresentable(n) <==> exists m: nat, e: nat :: ScaledSignificand(n, m, e)
  {
    var w := BitWidth(n);
    if ExactlyRepresentable(n) {
      if w <= 53 {
        WidthBelow(n, 53);
        assert ScaledSignificand(n, n, 0);
      } else {
        ShiftOut(n, w - 53);
        WidthBelow(ShiftRight(n, w - 53), 53);
        assert ScaledSignificand(n, ShiftRight(n, w - 53), w - 53);
      }
    }
    if m: nat, e: nat :| ScaledSignificand(n, m, e) {
      WidthBelow(m, 53);
      ShiftIn(m, e, 0);
      if w > 53 {
        ShiftIn(m, e, w - 53);
      }
    }
  }

  /** The 53 leading bits of a positive integer, with zeros behind them where it has fewer. */
  function Leading(n: nat): nat
    requires n > 0
  {
    var w := BitWidth(n);
    if w <= 53 then n * Pow2(53 - w) else ShiftRight(n, w - 53)
  }

  lemma LeadingBounds(n: nat)
    requires n > 0
    ensures HIDDEN_BIT <= Leading(n) < 2 * HIDDEN_BIT
  {
    hide Pow2, BitWidth;
    var w := BitWidth(n);
    FiftyThree();
    if w <= 53 {
      ShiftIn(n, 53 - w, 0);
    } else {
      ShiftOut(n, w - 53);
    }
    WidthBelow(Leading(n), 53);
    WidthBelow(Leading(n), 52);
  }

  lemma WidthOfMagnitude(n: nat)
    requires n <= MAXIMUM_INTEGER
    ensures BitWidth(n) <= 64 && (n > 0 ==> BitWidth(n) > 0)
  {
    SixtyFour();
    WidthBelow(n, 64);
  }

  lemma Assembled(width: nat, leading: nat)
    requires 0 < width <= 64 && HIDDEN_BIT <= leading < 2 * HIDDEN_BIT
    ensures
      var b := (width + 1021) * HIDDEN_BIT + leading;
      0 < b < SIGN_BIT && FiniteBits(b) && FiniteBits(b + SIGN_BIT)
  {
  }

  /** The cast of a 64-bit magnitude to binary64; it is used for exact ones only. */
  function OfMagnitude(n: nat): (b: Bits)
    requires n <= MAXIMUM_INTEGER
    ensures b < SIGN_BIT && (b == 0 <==> n == 0) && (n > 0 ==> FiniteBits(b + SIGN_BIT))
  {
    if n == 0 then 0
    else
      LeadingBounds(n);
      WidthOfMagnitude(n);
      Assembled(BitWidth(n), Leading(n));
      (BitWidth(n) + 1021) * HIDDEN_BIT + Leading(n)
  }

  function OfInteger(i: Integer64): Bits {
    if i >= 0 then OfMagnitude(i) else OfMagnitude(-i) + SIGN_BIT
  }

  /** The finite numbers end where the exponent is full, and negative zero is none of them. */
  lemma FiniteBitsEnd()
    ensures FiniteBits(0x7FEF_FFFF_FFFF_FFFF) && !FiniteBits(0x7FF0_0000_0000_0000)
    ensures !FiniteBits(0x7FFF_FFFF_FFFF_FFFF) && !FiniteBits(0xFFFF_FFFF_FFFF_FFFF)
    ensures FiniteBits(0xFFEF_FFFF_FFFF_FFFF) && !FiniteBits(0xFFF0_0000_0000_0000)
    ensures FiniteBits(0) && !FiniteBits(0x8000_0000_0000_0000) && FiniteBits(0x8000_0000_0000_0001)
    ensures !FiniteBits(0x1_0000_0000_0000_0000)
  {
  }

  /** The interchange format of IEEE 754: a sign bit, eleven exponent bits with bias 1023, and
      52 of the significand. */
  lemma BitsOfSmallIntegers()
    ensures OfInteger(0) == 0 && OfInteger(1) == 0x3FF0_0000_0000_0000 && OfInteger(-1) == 0xBFF0_0000_0000_0000
    ensures OfInteger(2) == 0x4000_0000_0000_0000 && OfInteger(3) == 0x4008_0000_0000_0000
  {
    FiftyThree();
    assert BitWidth(1) == 1 && BitWidth(2) == 2 && BitWidth(3) == 2;
    assert Pow2(52) == 2 * Pow2(51);
  }

  lemma PartsOfMagnitude(n: nat)
    requires 0 < n <= MAXIMUM_INTEGER
    ensures Significand(OfMagnitude(n)) == Leading(n) && Exponent(OfMagnitude(n)) == BitWidth(n) + 1021
    ensures Significand(OfMagnitude(n) + SIGN_BIT) == Leading(n)
    ensures Exponent(OfMagnitude(n) + SIGN_BIT) == BitWidth(n) + 1021
  {
    hide BitWidth, Leading;
    LeadingBounds(n);
    WidthOfMagnitude(n);
  }

  lemma LeadingIsScaled(n: nat)
    requires 0 < n && ExactlyRepresentable(n)
    ensures Leading(n) * Pow2(BitWidth(n) + 1021) == n * Pow2(LEAST_EXPONENT)
  {
    hide Pow2, BitWidth, LowBitsZero, ShiftRight;
    var w := BitWidth(n);
    if w <= 53 {
      Pow2Adds(53 - w, w + 1021);
      Reassociates(n, Pow2(53 - w), Pow2(w + 1021));
    } else {
      ShiftOut(n, w - 53);
      Pow2Adds(w - 53, LEAST_EXPONENT);
      Reassociates(Leading(n), Pow2(w - 53), Pow2(LEAST_EXPONENT));
    }
  }

  /** An integer that passes the mask test is cast to the number it is. */
  lemma CastIsExact(i: Integer64)
    requires ExactlyRepresentable(if i >= 0 then i else -i)
    ensures ValueOf(OfInteger(i)) == i as real
  {
    hide Pow2, BitWidth, Leading, ExactlyRepresentable, Significand, Exponent;
    var n := if i >= 0 then i else -i;
    if n > 0 {
      PartsOfMagnitude(n);
      LeadingIsScaled(n);
      Negated(n, Pow2(LEAST_EXPONENT));
    } else {
      ZeroIsZero();
    }
    assert Scaled(OfInteger(i)) == i * Pow2(LEAST_EXPONENT);
    Unscaled(i, Pow2(LEAST_EXPONENT));
  }

  lemma ZeroIsZero()
    ensures Scaled(0) == 0
  {
  }

  lemma Negated(n: int, p: int)
    ensures -n * p == -(n * p)
  {
  }

  lemma Unscaled(i: int, p: nat)
    requires p > 0
    ensures (i * p) as real / p as real == i as real
  {
    assert (i * p) as real == i as real * p as real;
  }

  /** The mask test refuses exactly the integers that no binary64 number equals. */
  lemma MaskIsExact(i: Integer64)
    ensures ExactlyRepresentable(if i >= 0 then i else -i) <==> exists b: Bits :: ValueOf(b) == i as real
  {
    hide ExactlyRepresentable, ValueOf;
    if ExactlyRepresentable(if i >= 0 then i else -i) {
      CastIsExact(i);
    }
    if b: Bits :| ValueOf(b) == i as real {
      OnlyExactIntegers(i, b);
    }
  }

  lemma OnlyExactIntegers(i: int, b: Bits)
    requires ValueOf(b) == i as real
    ensures ExactlyRepresentable(if i >= 0 then i else -i)
  {
    hide Pow2, ExactlyRepresentable, Significand, Exponent, Scaled;
    var n := if i >= 0 then i else -i;
    var p := Pow2(LEAST_EXPONENT);
    Unscaled(i, p);
    SameQuotient(Scaled(b), i * p, p);
    SignOf(b);
    SignificandBounds(b);
    Negated(i, p);
    SameSign(i, p);
    assert Significand(b) * Pow2(Exponent(b)) == n * p;
    ProductIsExact(Significand(b), Exponent(b), n);
  }

  lemma SameSign(i: int, p: nat)
    requires p > 0
    ensures i * p < 0 <==> i < 0
  {
  }

  lemma ProductIsExact(s: nat, e: nat, n: nat)
    requires s < 2 * HIDDEN_BIT && s * Pow2(e) == n * Pow2(LEAST_EXPONENT)
    ensures ExactlyRepresentable(n)
  {
    hide Pow2, ExactlyRepresentable;
    FiftyThree();
    if e >= LEAST_EXPONENT {
      Pow2Adds(e - LEAST_EXPONENT, LEAST_EXPONENT);
      Reassociates(s, Pow2(e - LEAST_EXPONENT), Pow2(LEAST_EXPONENT));
      CancelFactor(n, s * Pow2(e - LEAST_EXPONENT), Pow2(LEAST_EXPONENT));
      assert ScaledSignificand(n, s, e - LEAST_EXPONENT);
    } else {
      Pow2Adds(LEAST_EXPONENT - e, e);
      Reassociates(n, Pow2(LEAST_EXPONENT - e), Pow2(e));
      CancelFactor(s, n * Pow2(LEAST_EXPONENT - e), Pow2(e));
      AtLeast(n, Pow2(LEAST_EXPONENT - e));
      ByOne(n);
      assert ScaledSignificand(n, n, 0);
    }
    ExactlyRepresentableDecides(n);
  }

  lemma ByOne(n: nat)
    ensures n * Pow2(0) == n
  {
  }
}
