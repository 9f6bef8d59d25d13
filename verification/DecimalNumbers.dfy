/** Reading strict JSON numbers: the scan for a token, and the exact decimal comparison behind
    it, a normal form that keeps a token's value and is the same for the same value. */
module DecimalNumbers {
  import opened Options
  import opened UnicodeText

  const MINIMUM_INT64 := -0x8000_0000_0000_0000
  const MAXIMUM_INT64 := 0x7FFF_FFFF_FFFF_FFFF

  newtype Int64 = x: int | MINIMUM_INT64 <= x <= MAXIMUM_INT64

  const ZERO: Digit := 0x30
  const PLUS: Unit := 0x2B
  const MINUS: Unit := 0x2D
  const POINT: Unit := 0x2E
  const UPPER_E: Unit := 0x45
  const LOWER_E: Unit := 0x65

  type Digit = u: Unit | 0x30 <= u <= 0x39 witness 0x30
  type Digits = seq<Digit>

  // ---- Number tokens (RFC 8259 section 6) ----

  datatype Exponent = Exponent(mark: Unit, sign: Text, digits: Digits)

  datatype Literal = Literal(negative: bool, whole: Digits, fraction: Option<Digits>, exponent: Option<Exponent>)

  ghost predicate Grammatical(l: Literal) {
    && l.whole != [] && (l.whole[0] == ZERO ==> |l.whole| == 1)
    && (l.fraction.Some? ==> l.fraction.value != [])
    && (l.exponent.Some? ==>
          && l.exponent.value.mark in {LOWER_E, UPPER_E} && l.exponent.value.sign in {[], [PLUS], [MINUS]}
          && l.exponent.value.digits != [])
  }

  function FractionOf(l: Literal): Digits {
    if l.fraction.Some? then l.fraction.value else []
  }

  function SignificandText(l: Literal): Text {
    l.whole + (if l.fraction.Some? then [POINT] + l.fraction.value else [])
  }

  function ExponentText(e: Exponent): Text {
    e.sign + e.digits
  }

  function TextOf(l: Literal): Text {
    (if l.negative then [MINUS] else []) + SignificandText(l)
    + (if l.exponent.Some? then [l.exponent.value.mark] + ExponentText(l.exponent.value) else [])
  }

  // ---- Values ----

  function Worth(d: Digit): nat {
    d - 0x30
  }

  ghost function Nat(s: Digits): nat {
    if s == [] then 0 else Nat(s[..|s| - 1]) * 10 + Worth(s[|s| - 1])
  }

  ghost function Pow10(e: int): (p: real)
    ensures p > 0.0
    decreases if e < 0 then -e else e
  {
    if e == 0 then 1.0 else if e > 0 then 10.0 * Pow10(e - 1) else Pow10(e + 1) / 10.0
  }

  ghost function ExponentOf(l: Literal): int {
    match l.exponent
    case None => 0
    case Some(e) => if e.sign == [MINUS] then -(Nat(e.digits) as int) else Nat(e.digits)
  }

  ghost function Signed(negative: bool, magnitude: real): real {
    if negative then -magnitude else magnitude
  }

  /** The number a token denotes. */
  ghost function ValueOf(l: Literal): real {
    Signed(l.negative,
           (Nat(l.whole) as real + Nat(FractionOf(l)) as real * Pow10(-|FractionOf(l)|)) * Pow10(ExponentOf(l)))
  }

  // ---- Normal forms ----

  datatype Normal = Normal(negative: bool, digits: Digits, exponent: int)

  ghost function NormalValue(n: Normal): real {
    Signed(n.negative, Nat(n.digits) as real * Pow10(n.exponent))
  }

  ghost predicate IsNormal(n: Normal) {
    if n.digits == [ZERO] then !n.negative && n.exponent == 0
    else n.digits != [] && n.digits[0] != ZERO && n.digits[|n.digits| - 1] != ZERO
  }

  ghost function StripLeading(s: Digits): (r: Digits)
    ensures |r| <= |s| && (r != [] ==> r[0] != ZERO)
  {
    if s != [] && s[0] == ZERO then StripLeading(s[1..]) else s
  }

  ghost function StripTrailing(s: Digits): (r: Digits)
    ensures |r| <= |s| && (s != [] ==> r != [])
    ensures |r| > 1 ==> r[|r| - 1] != ZERO
    ensures r <= s
  {
    if |s| > 1 && s[|s| - 1] == ZERO then StripTrailing(s[..|s| - 1]) else s
  }

  predicate InInt64(x: int) {
    MINIMUM_INT64 <= x <= MAXIMUM_INT64
  }

  /** The normal form of a token, where one exists: only exponents can be out of range. */
  ghost function NormalForm(l: Literal): Option<Normal> {
    var digits := StripLeading(l.whole + FractionOf(l));
    if digits == [] then Some(Normal(false, [ZERO], 0))
    else
      var stripped := StripTrailing(digits);
      var e := ExponentOf(l);
      var shifted := e - |FractionOf(l)|;
      var exponent := shifted + (|digits| - |stripped|);
      if InInt64(e) && InInt64(shifted) && InInt64(exponent) then Some(Normal(l.negative, stripped, exponent)) else None
  }

  // ---- Tokens by example ----

  lemma SmallPowers()
    ensures Pow10(0) == 1.0 && Pow10(1) == 10.0 && Pow10(2) == 100.0 && Pow10(3) == 1000.0
    ensures Pow10(-1) == 0.1 && Pow10(-2) == 0.01
  {
    assert Pow10(2) == 10.0 * Pow10(1);
  }

  /** -12.50E+3 is a token worth -12500, and 0.5e-1 one worth a twentieth. */
  lemma TokensAreWorth()
    ensures
      var l := Literal(true, [0x31, 0x32], Some([0x35, 0x30]), Some(Exponent(0x45, [0x2B], [0x33])));
      && Grammatical(l) && TextOf(l) == [0x2D, 0x31, 0x32, 0x2E, 0x35, 0x30, 0x45, 0x2B, 0x33]
      && ValueOf(l) == -12500.0
    ensures
      var l := Literal(false, [0x30], Some([0x35]), Some(Exponent(0x65, [0x2D], [0x31])));
      && Grammatical(l) && TextOf(l) == [0x30, 0x2E, 0x35, 0x65, 0x2D, 0x31] && ValueOf(l) == 0.05
  {
    SmallPowers();
    SmallNats();
  }

  lemma SmallNats()
    ensures Nat([0x31, 0x32]) == 12 && Nat([0x35, 0x30]) == 50 && Nat([0x33]) == 3 && Nat([0x30]) == 0
    ensures Nat([0x35]) == 5 && Nat([0x31]) == 1
  {
    var twelve: Digits, fifty: Digits := [0x31, 0x32], [0x35, 0x30];
    assert twelve[..1] == [0x31] && fifty[..1] == [0x35];
    var one: Digits, five: Digits, three: Digits, zero: Digits := [0x31], [0x35], [0x33], [0x30];
    assert one[..0] == [] && five[..0] == [] && three[..0] == [] && zero[..0] == [];
  }

  /** Needless zeros, and a point, a mark or a whole part with nothing to it, are no tokens. */
  lemma WhatIsNoToken(l: Literal)
    requires || l.whole == [] || (|l.whole| > 1 && l.whole[0] == 0x30)
             || l.fraction == Some([]) || (l.exponent.Some? && l.exponent.value.digits == [])
             || (l.exponent.Some? && l.exponent.value.mark !in {0x65, 0x45})
             || (l.exponent.Some? && l.exponent.value.sign !in {[], [0x2B], [0x2D]})
    ensures !Grammatical(l)
  {
  }

  /** Only an exponent can be out of range: that of the token, or less its places behind the
      point, or with the zeros at its end. */
  lemma WhatHasNoNormalForm(l: Literal)
    ensures NormalForm(l) == None ==>
        Nat(l.whole + FractionOf(l)) > 0
    ensures NormalForm(l) == None <==>
        StripLeading(l.whole + FractionOf(l)) != []
        && var zeros := |StripLeading(l.whole + FractionOf(l))|
                        - |StripTrailing(StripLeading(l.whole + FractionOf(l)))|;
        !(&& -0x8000_0000_0000_0000 <= ExponentOf(l) < 0x8000_0000_0000_0000
          && -0x8000_0000_0000_0000 <= ExponentOf(l) - |FractionOf(l)| < 0x8000_0000_0000_0000
          && -0x8000_0000_0000_0000 <= ExponentOf(l) - |FractionOf(l)| + zeros < 0x8000_0000_0000_0000)
  {
    StripLeadingKeeps(l.whole + FractionOf(l));
    if StripLeading(l.whole + FractionOf(l)) != [] {
      NatIsPositive(StripLeading(l.whole + FractionOf(l)));
    }
  }

  // ---- Digit strings ----

  ghost function IntPow10(n: nat): (p: nat)
    ensures p >= 1
  {
    if n == 0 then 1 else 10 * IntPow10(n - 1)
  }

  lemma AppendArithmetic(a: nat, p: nat, b: nat, last: nat)
    ensures (a * p + b) * 10 + last == a * (10 * p) + (b * 10 + last)
  {
  }

  lemma {:induction false} NatAppend(a: Digits, b: Digits)
    ensures Nat(a + b) == Nat(a) * IntPow10(|b|) + Nat(b)
  {
    if b == [] {
      assert a + b == a;
    } else {
      var front, last := b[..|b| - 1], b[|b| - 1];
      NatAppend(a, front);
      assert (a + b)[..|a + b| - 1] == a + front;
      AppendArithmetic(Nat(a), IntPow10(|front|), Nat(front), Worth(last));
    }
  }

  lemma {:induction false} StripLeadingKeeps(s: Digits)
    ensures Nat(StripLeading(s)) == Nat(s)
  {
    if s != [] && s[0] == ZERO {
      StripLeadingKeeps(s[1..]);
      NatAppend(s[..1], s[1..]);
      assert s == s[..1] + s[1..] && s[..1][..0] == [];
      assert Nat(s[..1]) == 0;
    }
  }

  lemma TimesTen(m: nat, p: nat)
    ensures m * p * 10 == m * (10 * p)
  {
  }

  lemma {:induction false} StripTrailingScales(s: Digits)
    ensures Nat(s) == Nat(StripTrailing(s)) * IntPow10(|s| - |StripTrailing(s)|)
  {
    if |s| > 1 && s[|s| - 1] == ZERO {
      var front := s[..|s| - 1];
      StripTrailingScales(front);
      TimesTen(Nat(StripTrailing(front)), IntPow10(|front| - |StripTrailing(front)|));
    }
  }

  lemma {:induction false} NatIsPositive(s: Digits)
    requires s != [] && s[0] != ZERO
    ensures Nat(s) > 0
  {
    if |s| > 1 {
      NatIsPositive(s[..|s| - 1]);
    } else {
      assert s[..0] == [];
    }
  }

  lemma {:induction false} NatDecides(a: Digits, b: Digits)
    requires Nat(a) == Nat(b)
    requires (a != [] ==> a[0] != ZERO) && (b != [] ==> b[0] != ZERO)
    ensures a == b
  {
    if a == [] || b == [] {
      if a != [] {
        NatIsPositive(a);
      }
      if b != [] {
        NatIsPositive(b);
      }
    } else {
      var p, q := a[..|a| - 1], b[..|b| - 1];
      NatDecides(p, q);
      assert a == p + [a[|a| - 1]] && b == q + [b[|b| - 1]];
    }
  }

  // ---- Powers of ten ----

  lemma {:induction false} Pow10Step(e: int)
    ensures Pow10(e + 1) == 10.0 * Pow10(e)
  {
  }

  lemma {:induction false} Pow10Adds(a: int, b: nat)
    ensures Pow10(a + b) == Pow10(a) * Pow10(b)
  {
    if b > 0 {
      Pow10Adds(a, b - 1);
      Pow10Step(a + b - 1);
      Pow10Step(b - 1);
      var x, y := Pow10(a), Pow10(b - 1);
      assert 10.0 * (x * y) == x * (10.0 * y);
    }
  }

  lemma {:induction false} Pow10IsWhole(n: nat)
    ensures Pow10(n) == IntPow10(n) as real
  {
    if n > 0 {
      Pow10IsWhole(n - 1);
    }
  }

  lemma Reassociate(x: real, y: real, z: real)
    ensures x * y * z == x * (z * y)
  {
  }

  lemma WholeProduct(m: nat, n: nat)
    ensures (m * n) as real == m as real * n as real
  {
  }

  /** Moving whole powers of ten between a coefficient and its exponent. */
  lemma Rescale(m: nat, n: nat, e: int)
    ensures (m * IntPow10(n)) as real * Pow10(e) == m as real * Pow10(e + n)
  {
    hide Pow10, IntPow10;
    Pow10Adds(e, n);
    Pow10IsWhole(n);
    WholeProduct(m, IntPow10(n));
    Reassociate(m as real, Pow10(n), Pow10(e));
  }

  // ---- The value is kept ----

  lemma WholeAndFraction(l: Literal)
    ensures ValueOf(l)
         == Signed(l.negative, Nat(l.whole + FractionOf(l)) as real * Pow10(ExponentOf(l) - |FractionOf(l)|))
  {
    hide Pow10, IntPow10, Nat, ExponentOf;
    var f := FractionOf(l);
    var w, n := Nat(l.whole), Nat(f);
    var e, k := ExponentOf(l) - |f|, |f|;
    NatAppend(l.whole, f);
    Rescale(w, k, e);
    Pow10Adds(-k, k);
    Pow10Adds(e, k);
    PowerOfNothing();
    FractionShifts(w as real, n as real, Pow10(-k), Pow10(e), Pow10(k));
    Distribute((w * IntPow10(k)) as real, n as real, Pow10(e));
  }

  lemma PowerOfNothing()
    ensures Pow10(0) == 1.0
  {
  }

  /** `(w + n r)` scaled by `p q`, where `r` undoes `q`. */
  lemma FractionShifts(w: real, n: real, r: real, p: real, q: real)
    requires r * q == 1.0
    ensures (w + n * r) * (p * q) == w * (p * q) + n * p
  {
    Distribute(w, n * r, p * q);
    Exchange(n, r, p, q);
  }

  lemma Exchange(n: real, r: real, p: real, q: real)
    requires r * q == 1.0
    ensures n * r * (p * q) == n * p
  {
    calc {
      n * r * (p * q);
      n * p * (r * q);
      n * p;
    }
  }

  lemma Distribute(a: real, b: real, c: real)
    ensures (a + b) * c == a * c + b * c
  {
  }

  /** A normal form denotes exactly what its token denotes. */
  lemma NormalFormKeepsValue(l: Literal)
    requires NormalForm(l).Some?
    ensures IsNormal(NormalForm(l).value) && NormalValue(NormalForm(l).value) == ValueOf(l)
  {
    hide Pow10, IntPow10, Nat, ExponentOf, FractionOf, ValueOf;
    WholeAndFraction(l);
    var all := l.whole + FractionOf(l);
    var digits := StripLeading(all);
    StripLeadingKeeps(all);
    if digits == [] {
      NothingIsZero();
      ZeroTimes(Pow10(ExponentOf(l) - |FractionOf(l)|));
      ZeroTimes(Pow10(0));
    } else {
      StrippedIsNormal(digits);
      var stripped := StripTrailing(digits);
      StripTrailingScales(digits);
      Rescale(Nat(stripped), |digits| - |stripped|, ExponentOf(l) - |FractionOf(l)|);
    }
  }

  lemma NothingIsZero()
    ensures Nat([]) == 0 && Nat([ZERO]) == 0
  {
    assert [ZERO][..0] == [];
  }

  lemma ZeroTimes(x: real)
    ensures 0.0 * x == 0.0
  {
  }

  lemma StrippedIsNormal(digits: Digits)
    requires digits != [] && digits[0] != ZERO
    ensures var s := StripTrailing(digits); s != [] && s[0] != ZERO && s[|s| - 1] != ZERO
  {
  }

  // ---- The normal form is unique ----

  lemma NotByTen(n: Normal, k: nat, d: nat)
    requires IsNormal(n) && n.digits != [ZERO] && d > 0
    ensures Nat(n.digits) != k * IntPow10(d)
  {
    TimesTen(k, IntPow10(d - 1));
    var front, last := Nat(n.digits[..|n.digits| - 1]), Worth(n.digits[|n.digits| - 1]);
    TenDoesNotDivide(front, last, k * IntPow10(d - 1));
  }

  lemma TenDoesNotDivide(front: nat, last: nat, m: nat)
    requires 0 < last < 10
    ensures front * 10 + last != m * 10
  {
  }

  lemma SameMagnitude(a: Normal, b: Normal)
    requires IsNormal(a) && IsNormal(b) && a.digits != [ZERO] && b.digits != [ZERO]
    requires Nat(a.digits) as real * Pow10(a.exponent) == Nat(b.digits) as real * Pow10(b.exponent)
    ensures a.exponent >= b.exponent
  {
    hide Pow10, IntPow10, Nat, IsNormal;
    if a.exponent < b.exponent {
      var d: nat := b.exponent - a.exponent;
      NotByTen(a, Nat(b.digits), d);
      SameCoefficient(Nat(a.digits), Nat(b.digits), d, a.exponent);
    }
  }

  lemma SameCoefficient(m: nat, n: nat, d: nat, e: int)
    requires m as real * Pow10(e) == n as real * Pow10(e + d)
    ensures m == n * IntPow10(d)
  {
    hide Pow10, IntPow10;
    Rescale(n, d, e);
    CancelFactor(m as real, (n * IntPow10(d)) as real, Pow10(e));
  }

  lemma CancelFactor(x: real, y: real, p: real)
    requires p > 0.0 && x * p == y * p
    ensures x == y
  {
    Distribute(x - y, y, p);
    if x != y {
      ProductIsNotZero(x - y, p);
    }
  }

  lemma ProductIsNotZero(x: real, p: real)
    requires p > 0.0 && x != 0.0
    ensures x * p != 0.0
  {
    if x > 0.0 {
      assert x * p > 0.0;
    } else {
      assert (-x) * p > 0.0;
    }
  }

  lemma ZeroOrSigned(n: Normal)
    requires IsNormal(n)
    ensures NormalValue(n) == 0.0 <==> n == Normal(false, [ZERO], 0)
    ensures n.digits != [ZERO] ==> (NormalValue(n) < 0.0 <==> n.negative) && NormalValue(n) != 0.0
  {
    hide Pow10, Nat;
    if n.digits == [ZERO] {
      NothingIsZero();
      ZeroTimes(Pow10(n.exponent));
    } else {
      NatIsPositive(n.digits);
      Positive(Nat(n.digits) as real, Pow10(n.exponent));
    }
  }

  lemma Positive(x: real, y: real)
    requires x > 0.0 && y > 0.0
    ensures x * y > 0.0
  {
  }

  /** Two normal forms are equal exactly when their values are. */
  lemma NormalFormsDecide(a: Normal, b: Normal)
    requires IsNormal(a) && IsNormal(b)
    ensures a == b <==> NormalValue(a) == NormalValue(b)
  {
    hide Pow10, Nat;
    if NormalValue(a) == NormalValue(b) {
      ZeroOrSigned(a);
      ZeroOrSigned(b);
      if a.digits != [ZERO] && b.digits != [ZERO] {
        SameMagnitude(a, b);
        SameMagnitude(b, a);
        CancelFactor(Nat(a.digits) as real, Nat(b.digits) as real, Pow10(a.exponent));
        NatDecides(a.digits, b.digits);
      }
    }
  }

  /** For tokens that normalise, comparing normal forms is comparing values. */
  lemma ComparingIsExact(l: Literal, m: Literal)
    requires NormalForm(l).Some? && NormalForm(m).Some?
    ensures NormalForm(l) == NormalForm(m) <==> ValueOf(l) == ValueOf(m)
  {
    NormalFormKeepsValue(l);
    NormalFormKeepsValue(m);
    NormalFormsDecide(NormalForm(l).value, NormalForm(m).value);
  }

  // ---- The loops ----

  ghost predicate Plain(u: Unit) {
    0x30 <= u <= 0x39 || u == POINT
  }

  method IndexOf(text: Text, u: Unit, from: nat) returns (index: int)
    requires from <= |text|
    ensures index == -1 || from <= index < |text|
    ensures index >= 0 ==> text[index] == u && u !in text[from..index]
    ensures index == -1 ==> u !in text[from..]
  {
    index := from;
    while index < |text|
      invariant from <= index <= |text| && u !in text[from..index]
    {
      if text[index] == u {
        return;
      }
      assert text[from..index + 1] == text[from..index] + [text[index]];
      index := index + 1;
    }
    assert text[from..index] == text[from..];
    index := -1;
  }

  /** Where the exponent mark stands: behind the sign and the significand. */
  ghost function MarkPosition(l: Literal): int {
    if l.exponent.None? then -1 else (if l.negative then 1 else 0) + |SignificandText(l)|
  }

  lemma SignificandIsPlain(l: Literal)
    ensures forall u <- SignificandText(l) :: Plain(u)
  {
  }

  method FindMark(lexeme: Text, position: nat, ghost l: Literal) returns (mark: int)
    requires Grammatical(l) && lexeme == TextOf(l) && position == if l.negative then 1 else 0
    ensures mark == MarkPosition(l)
  {
    mark := IndexOf(lexeme, LOWER_E, position);
    if mark < 0 {
      mark := IndexOf(lexeme, UPPER_E, position);
    }
    assert forall i | position <= i < |lexeme| :: lexeme[i] == lexeme[position..][i - position];
    MarkIsFound(lexeme, position, mark, l);
  }

  ghost predicate IsMark(u: Unit) {
    u == LOWER_E || u == UPPER_E
  }

  lemma TokenMarks(lexeme: Text, l: Literal)
    requires Grammatical(l) && lexeme == TextOf(l)
    ensures var from, at := if l.negative then 1 else 0, MarkPosition(l);
      && (at == -1 || (from <= at < |lexeme| && IsMark(lexeme[at])))
      && forall i | from <= i < |lexeme| :: IsMark(lexeme[i]) <==> i == at
  {
    SignificandIsPlain(l);
    hide SignificandText;
    var from, at := if l.negative then 1 else 0, MarkPosition(l);
    var s := SignificandText(l);
    forall i | from <= i < from + |s|
      ensures !IsMark(lexeme[i])
    {
      assert lexeme[i] == s[i - from] && Plain(s[i - from]);
    }
    if l.exponent.Some? {
      var text := ExponentText(l.exponent.value);
      assert lexeme[at] == l.exponent.value.mark;
      forall i | at < i < |lexeme|
        ensures !IsMark(lexeme[i])
      {
        assert lexeme[i] == text[i - at - 1];
      }
    }
  }

  lemma MarkIsFound(lexeme: Text, position: nat, mark: int, l: Literal)
    requires Grammatical(l) && lexeme == TextOf(l) && position == if l.negative then 1 else 0
    requires position <= |lexeme| && (mark == -1 || position <= mark < |lexeme|)
    requires mark == -1 ==> forall i | position <= i < |lexeme| :: !IsMark(lexeme[i])
    requires mark >= 0 ==> IsMark(lexeme[mark])
    ensures mark == MarkPosition(l)
  {
    TokenMarks(lexeme, l);
  }

  /** The digits of a significand without its point, and how many follow the point. */
  method GatherDigits(significand: Text, ghost l: Literal) returns (digits: Digits, fractional: nat)
    requires significand == SignificandText(l)
    ensures digits == l.whole + FractionOf(l) && fractional == |FractionOf(l)|
  {
    SignificandIsPlain(l);
    digits, fractional := [], 0;
    var afterPoint := false;
    ghost var w := |l.whole|;
    for position := 0 to |significand|
      invariant afterPoint <==> position > w
      invariant position <= w ==> digits == l.whole[..position] && fractional == 0
      invariant position > w ==>
          fractional == position - w - 1 <= |FractionOf(l)| && digits == l.whole + FractionOf(l)[..fractional]
    {
      var u := significand[position];
      if position < w {
        assert u == l.whole[position];
      } else if position > w {
        assert u == FractionOf(l)[position - w - 1];
      }
      if u == POINT {
        afterPoint := true;
      } else {
        digits := digits + [u];
        if afterPoint {
          fractional := fractional + 1;
        }
      }
    }
    assert digits == l.whole + FractionOf(l);
  }

  method TrimLeading(s: Digits) returns (r: Digits)
    ensures r == StripLeading(s)
  {
    var first := 0;
    while first < |s| && s[first] == ZERO
      invariant 0 <= first <= |s| && StripLeading(s[first..]) == StripLeading(s)
    {
      assert s[first..][1..] == s[first + 1..];
      first := first + 1;
    }
    r := s[first..];
  }

  method TrimTrailing(s: Digits) returns (r: Digits, zeros: nat)
    ensures r == StripTrailing(s) && zeros == |s| - |r|
  {
    r, zeros := s, 0;
    while |r| > 1 && r[|r| - 1] == ZERO
      invariant zeros == |s| - |r| && StripTrailing(r) == StripTrailing(s)
      decreases |r|
    {
      r := r[..|r| - 1];
      zeros := zeros + 1;
    }
  }

  lemma NatNone(s: Digits)
    ensures Nat(s[..0]) == 0
  {
  }

  lemma NatStep(s: Digits, k: nat)
    requires k < |s|
    ensures Nat(s[..k + 1]) == Nat(s[..k]) * 10 + Worth(s[k])
  {
    assert s[..k + 1][..k] == s[..k];
  }

  /** `QString::toLongLong` on an exponent: its value, if 64 bits hold it. */
  method ToLongLong(text: Text, ghost e: Exponent) returns (value: Option<Int64>)
    requires e.sign in {[], [PLUS], [MINUS]} && e.digits != [] && text == ExponentText(e)
    ensures var v := if e.sign == [MINUS] then -(Nat(e.digits) as int) else Nat(e.digits);
      value == if InInt64(v) then Some(v as Int64) else None
  {
    var negative := text[0] == MINUS;
    hide Nat;
    var digits := text[if negative || text[0] == PLUS then 1 else 0..];
    assert digits == e.digits;
    NatNone(e.digits);
    var magnitude: nat := 0;
    for i := 0 to |digits|
      invariant magnitude == Nat(e.digits[..i])
    {
      NatStep(e.digits, i);
      magnitude := magnitude * 10 + Worth(digits[i]);
    }
    assert e.digits[..|digits|] == e.digits;
    var v: int := if negative then -(magnitude as int) else magnitude;
    value := if InInt64(v) then Some(v as Int64) else None;
  }

  /** `normalizeJsonNumber`: no step of its 64-bit exponent arithmetic overflows. */
  method Normalize(lexeme: Text, ghost l: Literal) returns (r: Option<Normal>)
    requires Grammatical(l) && lexeme == TextOf(l) && |lexeme| <= MAXIMUM_INT64
    ensures r == NormalForm(l)
  {
    hide Nat, StripLeading, StripTrailing, SignificandText, ExponentText;
    var negative := lexeme != [] && lexeme[0] == MINUS;
    TokenStarts(l);
    var position := if negative then 1 else 0;
    var mark := FindMark(lexeme, position, l);
    TokenSplits(l);
    var end := if mark < 0 then |lexeme| else mark;
    var digits, fractional := GatherDigits(lexeme[position..end], l);
    digits := TrimLeading(digits);
    if digits == [] {
      return Some(Normal(false, [ZERO], 0));
    }
    var explicit: Int64 := 0;
    if mark >= 0 {
      var converted := ToLongLong(lexeme[mark + 1..], l.exponent.value);
      if converted.None? {
        return None;
      }
      explicit := converted.value;
    }
    if explicit < MINIMUM_INT64 as Int64 + fractional as Int64 {
      return None;
    }
    var exponent: Int64 := explicit - fractional as Int64;
    var stripped, zeros := TrimTrailing(digits);
    if exponent > MAXIMUM_INT64 as Int64 - zeros as Int64 {
      return None;
    }
    exponent := exponent + zeros as Int64;
    r := Some(Normal(negative, stripped, exponent as int));
  }

  lemma TokenStarts(l: Literal)
    requires Grammatical(l)
    ensures TextOf(l) != [] && (TextOf(l)[0] == MINUS <==> l.negative)
  {
    SignificandIsPlain(l);
  }

  lemma TokenSplits(l: Literal)
    ensures var t, position, mark := TextOf(l), if l.negative then 1 else 0, MarkPosition(l);
      && position <= (if mark < 0 then |t| else mark) <= |t|
      && t[position..if mark < 0 then |t| else mark] == SignificandText(l)
      && (l.exponent.Some? ==> mark < |t| && t[mark + 1..] == ExponentText(l.exponent.value))
      && |FractionOf(l)| <= |t| && |l.whole + FractionOf(l)| <= |t|
  {
  }

  // ---- Finding the token ----

  predicate IsDigit(u: Unit) {
    0x30 <= u <= 0x39
  }

  /** All the digits from `from` on, up to `to`. */
  predicate Run(text: Text, from: nat, to: nat) {
    && from <= to <= |text|
    && (forall i | from <= i < to :: IsDigit(text[i]))
    && (to < |text| ==> !IsDigit(text[to]))
  }

  lemma RunIsUnique(text: Text, from: nat, a: nat, b: nat)
    requires Run(text, from, a) && Run(text, from, b)
    ensures a == b
  {
    var behindA, behindB := if a < |text| then text[a] else ZERO, if b < |text| then text[b] else ZERO;
  }

  /** A whole token stands there, and what follows does not go on with it. */
  ghost predicate Token(text: Text, start: nat, end: nat, l: Literal) {
    && start <= end <= |text| && Grammatical(l) && text[start..end] == TextOf(l)
    && (end < |text| ==>
          && !IsDigit(text[end])
          && (l.exponent.None? ==> text[end] !in {LOWER_E, UPPER_E})
          && (l.exponent.None? && l.fraction.None? ==> text[end] != POINT))
  }

  function AfterSign(text: Text, start: nat): nat {
    if start < |text| && text[start] == MINUS then start + 1 else start
  }

  ghost predicate WholeAt(text: Text, p: nat, q: nat) {
    p < q && Run(text, p, q) && (text[p] == ZERO ==> q == p + 1)
  }

  ghost predicate FractionAt(text: Text, q: nat, r: nat) {
    if q < |text| && text[q] == POINT then q + 1 < r && Run(text, q + 1, r) else q == r
  }

  ghost predicate MarkAt(text: Text, r: nat) {
    r < |text| && text[r] in {LOWER_E, UPPER_E}
  }

  function AfterExponentSign(text: Text, x: nat): nat {
    if x < |text| && text[x] in {PLUS, MINUS} then x + 1 else x
  }

  ghost predicate ExponentAt(text: Text, r: nat, end: nat) {
    if MarkAt(text, r) then
      AfterExponentSign(text, r + 1) < end && Run(text, AfterExponentSign(text, r + 1), end)
    else r == end
  }

  /** Where the parts of a token lie. */
  ghost predicate PartsAt(text: Text, start: nat, q: nat, r: nat, end: nat) {
    && start <= |text| && WholeAt(text, AfterSign(text, start), q) && FractionAt(text, q, r) && ExponentAt(text, r, end)
  }

  function DigitsAt(text: Text, from: nat, to: nat): Digits
    requires Run(text, from, to)
  {
    seq(to - from, i requires 0 <= i < to - from => assert IsDigit(text[from + i]); text[from + i])
  }

  function LiteralAt(text: Text, start: nat, q: nat, r: nat, end: nat): Literal
    requires PartsAt(text, start, q, r, end)
  {
    var p, s := AfterSign(text, start), AfterExponentSign(text, r + 1);
    Literal(
      p != start,
      DigitsAt(text, p, q),
      if q == r then None else Some(DigitsAt(text, q + 1, r)),
      if r == end then None else Some(Exponent(text[r], text[r + 1..s], DigitsAt(text, s, end))))
  }

  lemma DigitsAtSlice(text: Text, from: nat, to: nat)
    requires Run(text, from, to)
    ensures DigitsAt(text, from, to) == text[from..to]
  {
  }

  lemma Joins<T>(text: seq<T>, a: nat, b: nat, c: nat)
    requires a <= b <= c <= |text|
    ensures text[a..c] == text[a..b] + text[b..c]
  {
  }

  lemma SignificandReads(text: Text, p: nat, q: nat, r: nat)
    requires WholeAt(text, p, q) && FractionAt(text, q, r)
    ensures p < q <= r <= |text|
    ensures text[p..r] == text[p..q] + if q == r then [] else [POINT] + text[q + 1..r]
  {
    if q != r {
      Joins(text, p, q, r);
      Joins(text, q, q + 1, r);
      assert text[q..q + 1] == [POINT];
    }
  }

  lemma ExponentReads(text: Text, r: nat, end: nat)
    requires r <= |text| && ExponentAt(text, r, end)
    ensures r <= end <= |text| && (r == end <==> !MarkAt(text, r)) && (end < |text| && r < end ==> !IsDigit(text[end]))
    ensures
      var s := AfterExponentSign(text, r + 1);
      && (r != end ==> s < end && text[r + 1..s] in {[], [PLUS], [MINUS]})
      && text[r..end] == if r == end then [] else [text[r]] + (text[r + 1..s] + text[s..end])
  {
    if r != end {
      var s := AfterExponentSign(text, r + 1);
      Joins(text, r, r + 1, end);
      Joins(text, r + 1, s, end);
      assert text[r..r + 1] == [text[r]];
      assert s == r + 2 ==> text[r + 1..s] == [text[r + 1]];
    }
  }

  lemma SignificandMatches(text: Text, start: nat, q: nat, r: nat, end: nat)
    requires PartsAt(text, start, q, r, end)
    ensures AfterSign(text, start) < q <= r <= |text|
    ensures SignificandText(LiteralAt(text, start, q, r, end)) == text[AfterSign(text, start)..r]
  {
    hide DigitsAt, ExponentAt;
    var p := AfterSign(text, start);
    SignificandReads(text, p, q, r);
    DigitsAtSlice(text, p, q);
    if q != r {
      DigitsAtSlice(text, q + 1, r);
    }
  }

  ghost function TailText(l: Literal): Text {
    if l.exponent.Some? then [l.exponent.value.mark] + ExponentText(l.exponent.value) else []
  }

  lemma TailMatches(text: Text, start: nat, q: nat, r: nat, end: nat)
    requires PartsAt(text, start, q, r, end) && r <= |text|
    ensures r <= end <= |text| && TailText(LiteralAt(text, start, q, r, end)) == text[r..end]
  {
    hide DigitsAt, WholeAt, FractionAt, ExponentAt;
    var s := AfterExponentSign(text, r + 1);
    ExponentReads(text, r, end);
    if r != end {
      RunOfExponent(text, r, end);
      DigitsAtSlice(text, s, end);
    }
  }

  lemma PartsAreGrammatical(text: Text, start: nat, q: nat, r: nat, end: nat)
    requires PartsAt(text, start, q, r, end) && r <= |text|
    ensures Grammatical(LiteralAt(text, start, q, r, end))
  {
    ExponentReads(text, r, end);
  }

  lemma NothingFollows(text: Text, start: nat, q: nat, r: nat, end: nat)
    requires PartsAt(text, start, q, r, end) && end < |text|
    ensures !IsDigit(text[end]) && (r == end ==> text[end] !in {LOWER_E, UPPER_E})
    ensures q == r == end ==> text[end] != POINT
  {
    hide DigitsAt;
  }

  lemma PartsAreToken(text: Text, start: nat, q: nat, r: nat, end: nat)
    requires PartsAt(text, start, q, r, end)
    ensures Token(text, start, end, LiteralAt(text, start, q, r, end))
  {
    hide DigitsAt, PartsAt, SignificandText, TailText, Grammatical, IsDigit;
    var l, p := LiteralAt(text, start, q, r, end), AfterSign(text, start);
    SignificandMatches(text, start, q, r, end);
    TailMatches(text, start, q, r, end);
    PartsAreGrammatical(text, start, q, r, end);
    if end < |text| {
      NothingFollows(text, start, q, r, end);
    }
    Joins(text, start, p, r);
    Joins(text, start, r, end);
    TextInParts(l);
    assert text[start..p] == if l.negative then [MINUS] else [];
  }

  lemma TextInParts(l: Literal)
    ensures TextOf(l) == (if l.negative then [MINUS] else []) + SignificandText(l) + TailText(l)
  {
    hide SignificandText, ExponentText;
  }

  lemma RunOfExponent(text: Text, r: nat, end: nat)
    requires r != end && ExponentAt(text, r, end)
    ensures MarkAt(text, r) && Run(text, AfterExponentSign(text, r + 1), end)
  {
  }

  lemma SlicesOf<T>(text: seq<T>, start: nat, a: seq<T>, b: seq<T>)
    requires start + |a| + |b| <= |text| && text[start..start + |a| + |b|] == a + b
    ensures text[start..start + |a|] == a && text[start + |a|..start + |a| + |b|] == b
  {
    assert (a + b)[..|a|] == a && (a + b)[|a|..] == b;
  }

  lemma RunOf(text: Text, from: nat, digits: Digits)
    requires from + |digits| <= |text| && text[from..from + |digits|] == digits
    requires from + |digits| < |text| ==> !IsDigit(text[from + |digits|])
    ensures Run(text, from, from + |digits|) && DigitsAt(text, from, from + |digits|) == digits
    ensures digits != [] ==> text[from] == digits[0]
  {
    assert forall i | from <= i < from + |digits| :: text[i] == text[from..from + |digits|][i - from];
  }

  /** The significand of a token, where the scan looks for it. */
  lemma SignificandIsThere(text: Text, p: nat, l: Literal, q: nat, r: nat)
    requires Grammatical(l) && q == p + |l.whole| && r == p + |SignificandText(l)| <= |text|
    requires text[p..r] == SignificandText(l)
    requires r < |text| ==> !IsDigit(text[r]) && (l.fraction.None? ==> text[r] != POINT)
    ensures WholeAt(text, p, q) && DigitsAt(text, p, q) == l.whole
    ensures FractionAt(text, q, r) && (q == r <==> l.fraction.None?)
    ensures q != r ==> DigitsAt(text, q + 1, r) == l.fraction.value
  {
    hide DigitsAt, Run;
    SlicesOf(text, p, l.whole, if l.fraction.Some? then [POINT] + l.fraction.value else []);
    if l.fraction.Some? {
      SlicesOf(text, q, [POINT], l.fraction.value);
      assert text[q] == text[q..q + 1][0];
      RunOf(text, q + 1, l.fraction.value);
    }
    RunOf(text, p, l.whole);
  }

  lemma ExponentIsThere(text: Text, r: nat, e: Exponent, end: nat)
    requires e.mark in {LOWER_E, UPPER_E} && e.sign in {[], [PLUS], [MINUS]} && e.digits != []
    requires end == r + 1 + |ExponentText(e)| <= |text| && text[r..end] == [e.mark] + ExponentText(e)
    requires end < |text| ==> !IsDigit(text[end])
    ensures MarkAt(text, r) && ExponentAt(text, r, end) && text[r] == e.mark
    ensures
      var s := AfterExponentSign(text, r + 1);
      s < end && text[r + 1..s] == e.sign && DigitsAt(text, s, end) == e.digits
  {
    hide DigitsAt, Run;
    SlicesOf(text, r, [e.mark], ExponentText(e));
    SlicesOf(text, r + 1, e.sign, e.digits);
    assert text[r] == text[r..r + 1][0];
    RunOf(text, r + 1 + |e.sign|, e.digits);
    ExponentSignIsThere(text, r + 1, e.sign, e.digits[0]);
  }

  lemma ExponentSignIsThere(text: Text, x: nat, sign: Text, digit: Digit)
    requires x + |sign| < |text| && text[x..x + |sign|] == sign && sign in {[], [PLUS], [MINUS]}
    requires text[x + |sign|] == digit
    ensures AfterExponentSign(text, x) == x + |sign|
  {
    if sign != [] {
      assert text[x] == text[x..x + 1][0];
    }
  }

  /** The parts of a token are found where the scan looks for them. */
  lemma TokenHasParts(text: Text, start: nat, end: nat, l: Literal) returns (q: nat, r: nat)
    requires Token(text, start, end, l)
    ensures PartsAt(text, start, q, r, end) && LiteralAt(text, start, q, r, end) == l
  {
    hide DigitsAt, WholeAt, FractionAt, ExponentAt, SignificandText, ExponentText, TextOf, IsDigit;
    var sign: Text := if l.negative then [MINUS] else [];
    var p := start + |sign|;
    q := p + |l.whole|;
    r := p + |SignificandText(l)|;
    TokenSlices(text, start, end, l, sign);
    if l.exponent.Some? {
      ExponentIsThere(text, r, l.exponent.value, end);
    }
    NoPointThere(text, r, end, l);
    SignificandIsThere(text, p, l, q, r);
    SignIsThere(text, start, p, q, sign);
    PartsAreThere(text, start, q, r, end, l);
  }

  lemma TokenSlices(text: Text, start: nat, end: nat, l: Literal, sign: Text)
    requires start <= end <= |text| && text[start..end] == TextOf(l) && sign == if l.negative then [MINUS] else []
    ensures
      var p := start + |sign|;
      var r := p + |SignificandText(l)|;
      && r + |TailText(l)| == end <= |text|
      && text[start..p] == sign && text[p..r] == SignificandText(l) && text[r..end] == TailText(l)
  {
    hide *;
    TextInParts(l);
    SlicesOf(text, start, sign + SignificandText(l), TailText(l));
    SlicesOf(text, start, sign, SignificandText(l));
  }

  lemma NoPointThere(text: Text, r: nat, end: nat, l: Literal)
    requires r <= end <= |text| && (l.exponent.Some? ==> MarkAt(text, r)) && (l.exponent.None? ==> r == end)
    requires end < |text| && l.exponent.None? ==> !IsDigit(text[end])
    requires end < |text| && l.exponent.None? && l.fraction.None? ==> text[end] != POINT
    ensures r < |text| ==> !IsDigit(text[r]) && (l.fraction.None? ==> text[r] != POINT)
  {
  }

  lemma PartsAreThere(text: Text, start: nat, q: nat, r: nat, end: nat, l: Literal)
    requires start <= |text| && WholeAt(text, AfterSign(text, start), q)
    requires l.negative == (AfterSign(text, start) != start)
    requires DigitsAt(text, AfterSign(text, start), q) == l.whole
    requires FractionAt(text, q, r) && (q == r <==> l.fraction.None?)
    requires q != r ==> DigitsAt(text, q + 1, r) == l.fraction.value
    requires r <= end <= |text| && (r == end <==> l.exponent.None?) && (r == end ==> !MarkAt(text, r))
    requires r != end ==> ExponentAt(text, r, end) && MarkAt(text, r) && text[r] == l.exponent.value.mark
    requires r != end ==>
        var s := AfterExponentSign(text, r + 1);
        s < end && text[r + 1..s] == l.exponent.value.sign && DigitsAt(text, s, end) == l.exponent.value.digits
    ensures PartsAt(text, start, q, r, end) && LiteralAt(text, start, q, r, end) == l
  {
    hide DigitsAt;
  }

  lemma SignIsThere(text: Text, start: nat, p: nat, q: nat, sign: Text)
    requires p == start + |sign| && WholeAt(text, p, q) && text[start..p] == sign && sign in {[], [MINUS]}
    ensures AfterSign(text, start) == p
  {
    assert IsDigit(text[p]);
    if sign != [] {
      assert text[start] == text[start..p][0];
    }
  }

  lemma PartsAreUnique(text: Text, start: nat, q: nat, r: nat, end: nat, q': nat, r': nat, end': nat)
    requires PartsAt(text, start, q, r, end) && PartsAt(text, start, q', r', end')
    ensures q == q' && r == r' && end == end'
  {
    hide Run;
    RunIsUnique(text, AfterSign(text, start), q, q');
    if q < |text| && text[q] == POINT {
      RunIsUnique(text, q + 1, r, r');
    }
    if MarkAt(text, r) {
      RunIsUnique(text, AfterExponentSign(text, r + 1), end, end');
    }
  }

  /** At most one token stands at a place. */
  lemma TokenIsUnique(text: Text, start: nat, end: nat, l: Literal, end': nat, l': Literal)
    requires Token(text, start, end, l) && Token(text, start, end', l')
    ensures end == end' && l == l'
  {
    hide Token, PartsAt, LiteralAt;
    var q, r := TokenHasParts(text, start, end, l);
    var q', r' := TokenHasParts(text, start, end', l');
    PartsAreUnique(text, start, q, r, end, q', r', end');
  }

  method SkipDigits(text: Text, from: nat) returns (to: nat)
    requires from <= |text|
    ensures Run(text, from, to)
  {
    to := from;
    while to < |text| && IsDigit(text[to])
      invariant from <= to <= |text| && forall i | from <= i < to :: IsDigit(text[i])
    {
      to := to + 1;
    }
  }

  method ScanWhole(text: Text, p: nat) returns (q: Option<nat>)
    requires p <= |text|
    ensures q.Some? ==> WholeAt(text, p, q.value)
    ensures q.None? ==> forall z: nat :: !WholeAt(text, p, z)
  {
    if p == |text| {
      return None;
    }
    if text[p] == ZERO {
      if p + 1 < |text| && IsDigit(text[p + 1]) {
        return None;
      }
      return Some(p + 1);
    }
    if !IsDigit(text[p]) {
      return None;
    }
    var to := SkipDigits(text, p);
    return Some(to);
  }

  method ScanFraction(text: Text, q: nat) returns (r: Option<nat>)
    requires q <= |text|
    ensures r.Some? ==> FractionAt(text, q, r.value)
    ensures r.None? ==> forall z: nat :: !FractionAt(text, q, z)
  {
    if q == |text| || text[q] != POINT {
      return Some(q);
    }
    if q + 1 == |text| || !IsDigit(text[q + 1]) {
      return None;
    }
    var to := SkipDigits(text, q + 1);
    return Some(to);
  }

  method ScanExponent(text: Text, r: nat) returns (end: Option<nat>)
    requires r <= |text|
    ensures end.Some? ==> ExponentAt(text, r, end.value)
    ensures end.None? ==> forall z: nat :: !ExponentAt(text, r, z)
  {
    if r == |text| || (text[r] != LOWER_E && text[r] != UPPER_E) {
      return Some(r);
    }
    var position := r + 1;
    if position < |text| && (text[position] == PLUS || text[position] == MINUS) {
      position := position + 1;
    }
    if position == |text| || !IsDigit(text[position]) {
      return None;
    }
    var to := SkipDigits(text, position);
    return Some(to);
  }

  /** The scan of `readNumber`: the end of the one token that stands there, or none does. */
  method ScanNumber(text: Text, start: nat) returns (end: Option<nat>, ghost l: Literal)
    requires start < |text|
    ensures end.Some? ==> Token(text, start, end.value, l)
    ensures end.None? ==> forall e: nat, m :: !Token(text, start, e, m)
  {
    hide WholeAt, FractionAt, ExponentAt, LiteralAt, Token;
    end, l := None, Literal(false, [ZERO], None, None);
    var position := if text[start] == MINUS then start + 1 else start;
    var q := ScanWhole(text, position);
    var r: Option<nat> := None;
    if q.Some? {
      WholeEnds(text, position, q.value);
      r := ScanFraction(text, q.value);
    }
    if r.Some? {
      FractionEnds(text, q.value, r.value);
      end := ScanExponent(text, r.value);
    }
    if end.Some? {
      PartsAreToken(text, start, q.value, r.value, end.value);
      l := LiteralAt(text, start, q.value, r.value, end.value);
    } else {
      forall e: nat, m
        ensures !Token(text, start, e, m)
      {
        if Token(text, start, e, m) {
          var q', r' := TokenHasParts(text, start, e, m);
          if q.Some? {
            WholeIsUnique(text, position, q.value, q');
            if r.Some? {
              FractionIsUnique(text, q', r.value, r');
            }
          }
        }
      }
    }
  }

  lemma WholeEnds(text: Text, p: nat, q: nat)
    requires WholeAt(text, p, q)
    ensures q <= |text|
  {
  }

  lemma FractionEnds(text: Text, q: nat, r: nat)
    requires q <= |text| && FractionAt(text, q, r)
    ensures r <= |text|
  {
  }

  lemma WholeIsUnique(text: Text, p: nat, q: nat, q': nat)
    requires WholeAt(text, p, q) && WholeAt(text, p, q')
    ensures q == q'
  {
    RunIsUnique(text, p, q, q');
  }

  lemma FractionIsUnique(text: Text, q: nat, r: nat, r': nat)
    requires FractionAt(text, q, r) && FractionAt(text, q, r')
    ensures r == r'
  {
    if q < |text| && text[q] == POINT {
      RunIsUnique(text, q + 1, r, r');
    }
  }

  // ---- Reading a number ----

  /** Conversion to binary64, and the token each finite number is persisted as. */
  datatype Conversion = Conversion(toDouble: Text -> Option<nat>, persisted: nat -> Literal)

  ghost predicate Persistable(c: Conversion) {
    forall number :: Grammatical(c.persisted(number)) && |TextOf(c.persisted(number))| <= MAXIMUM_INT64
  }

  datatype NumberResult = Accepted(number: nat, end: nat) | InvalidNumber | LossyNumber

  /** `readNumber`: invalid exactly when no token stands there that converts; otherwise accepted
      only when what will be persisted denotes the very same number, and always when both can be
      compared. */
  method ReadNumber(c: Conversion, text: Text, start: nat) returns (r: NumberResult, ghost end: nat, ghost l: Literal)
    requires Persistable(c) && start < |text| <= MAXIMUM_INT64
    ensures r.InvalidNumber? <==>
        forall e: nat, m | Token(text, start, e, m) :: c.toDouble(text[start..e]).None?
    ensures !r.InvalidNumber? ==> Token(text, start, end, l) && c.toDouble(text[start..end]).Some?
    ensures r.Accepted? ==>
        && r.end == end && c.toDouble(text[start..end]) == Some(r.number)
        && ValueOf(c.persisted(r.number)) == ValueOf(l)
    ensures r.LossyNumber? ==>
        var p := c.persisted(c.toDouble(text[start..end]).value);
        NormalForm(l).None? || NormalForm(p).None? || ValueOf(p) != ValueOf(l)
  {
    hide NormalForm, ValueOf, Grammatical, TextOf, Token;
    end := start;
    var scanned;
    scanned, l := ScanNumber(text, start);
    if scanned.None? {
      return InvalidNumber, end, l;
    }
    end := scanned.value;
    TokenReads(text, start, end, l);
    var number := c.toDouble(text[start..scanned.value]);
    if number.None? {
      forall e: nat, m | Token(text, start, e, m)
        ensures e == end
      {
        TokenIsUnique(text, start, e, m, end, l);
      }
      return InvalidNumber, end, l;
    }
    var p := c.persisted(number.value);
    var authored := Normalize(text[start..scanned.value], l);
    var serialized := Normalize(TextOf(p), p);
    if authored.None? || serialized.None? {
      return LossyNumber, end, l;
    }
    ComparingIsExact(l, p);
    r := if authored == serialized then Accepted(number.value, scanned.value) else LossyNumber;
  }

  lemma TokenReads(text: Text, start: nat, end: nat, l: Literal)
    requires Token(text, start, end, l)
    ensures start <= end <= |text| && Grammatical(l) && text[start..end] == TextOf(l)
  {
  }
}
