/** The RFC 8785 reader and serializer invert each other: values, up to the representation of
    their numbers, and accepted texts are in bijection. */
module CanonicalJsonInversion {
  import opened Options
  import opened UnicodeText
  import opened Binary64Numbers
  import opened CanonicalJson

  /** The number conversion writes number tokens and reads back what it wrote; only zero is
      written without a nonzero digit before the exponent. */
  ghost predicate Sound(codec: Codec) {
    forall b: Bits ::
      var lexeme := codec.show(b);
      && NumberRest(lexeme) == Some([]) && |lexeme| <= MAXIMUM_LEXEME
      && codec.read(lexeme) == Real(b) && !LosesValue(lexeme, Real(b))
  }

  // ---- A conversion that is sound ----

  function Decimal(n: nat): (s: Text)
    ensures s != [] && forall u <- s :: Digit(u)
  {
    if n < 10 then [ZERO + n] else Decimal(n / 10) + [ZERO + n % 10]
  }

  ghost function FromDecimal(s: Text): nat
    requires forall u <- s :: Digit(u)
  {
    if s == [] then 0
    else
      assert Digit(s[|s| - 1]);
      FromDecimal(s[..|s| - 1]) * 10 + (s[|s| - 1] - ZERO)
  }

  /** The bits themselves, written in decimal. */
  ghost function DecimalBits(s: Text): Number {
    if (forall u <- s :: Digit(u)) && FiniteBits(FromDecimal(s)) then Real(FromDecimal(s)) else NotFinite
  }

  lemma {:induction false} DecimalReadsBack(n: nat)
    ensures FromDecimal(Decimal(n)) == n && (n > 0 ==> Decimal(n)[0] != ZERO)
  {
    if n >= 10 {
      DecimalReadsBack(n / 10);
      assert Decimal(n)[..|Decimal(n)| - 1] == Decimal(n / 10);
    } else {
      assert Decimal(n)[..0] == [];
    }
  }

  lemma {:induction false} DigitsAreSkipped(s: Text)
    requires forall u <- s :: Digit(u)
    ensures SkipDigits(s) == []
  {
    if s != [] {
      DigitsAreSkipped(s[1..]);
    }
  }

  lemma {:induction false} DecimalIsShort(n: nat, width: nat)
    requires n < Pow2(width)
    ensures |Decimal(n)| <= width + 1
    decreases width
  {
    if n >= 10 {
      assert n / 10 < Pow2(width - 1);
      DecimalIsShort(n / 10, width - 1);
    }
  }

  lemma BitsAreShort(b: Bits)
    ensures |Decimal(b)| <= 65
  {
    hide Pow2, Decimal;
    SixtyFour();
    assert FiniteBits(b);
    DecimalIsShort(b, 64);
  }

  lemma DecimalIsToken(n: nat)
    ensures NumberRest(Decimal(n)) == Some([])
    ensures n == 0 ==> !SignificandNonzero(Decimal(n))
  {
    var s := Decimal(n);
    DecimalReadsBack(n);
    if n == 0 {
      assert s == [ZERO] && s[1..] == [];
    } else {
      assert Digit(s[0]);
      DigitsAreSkipped(s[1..]);
    }
  }

  lemma DecimalIsSound(b: Bits)
    ensures NumberRest(Decimal(b)) == Some([]) && |Decimal(b)| <= MAXIMUM_LEXEME
    ensures DecimalBits(Decimal(b)) == Real(b) && !LosesValue(Decimal(b), Real(b))
  {
    hide NumberRest, SignificandNonzero, Decimal, FromDecimal;
    DecimalReadsBack(b);
    DecimalIsToken(b);
    BitsAreShort(b);
  }

  /** Sound conversions exist, so what follows from `Sound` is about something. */
  lemma SoundCodecExists() returns (codec: Codec)
    ensures Sound(codec)
  {
    codec := Codec(b => Decimal(b), s => DecimalBits(s));
    forall b: Bits
      ensures
        var lexeme := codec.show(b);
        && NumberRest(lexeme) == Some([]) && |lexeme| <= MAXIMUM_LEXEME
        && codec.read(lexeme) == Real(b) && !LosesValue(lexeme, Real(b))
    {
      DecimalIsSound(b);
    }
  }

  /** What may follow a value in canonical text. */
  ghost predicate Delimited(rest: Text) {
    rest == [] || rest[0] == COMMA || rest[0] == CLOSE_BRACKET || rest[0] == CLOSE_BRACE
  }

  // ---- Numbers ----

  lemma {:induction false} SkipDigitsAppend(l: Text, rest: Text)
    requires SkipDigits(l) != [] || rest == [] || !Digit(rest[0])
    ensures SkipDigits(l + rest) == SkipDigits(l) + rest
  {
    if l == [] {
      assert l + rest == rest;
    } else if Digit(l[0]) {
      SkipDigitsAppend(l[1..], rest);
      assert (l + rest)[1..] == l[1..] + rest;
    }
  }

  ghost predicate Separate(r: Text, rest: Text) {
    r != [] || Delimited(rest)
  }

  lemma IntegerRestAppend(l: Text, rest: Text)
    requires IntegerRest(l).Some? && Separate(IntegerRest(l).value, rest)
    ensures IntegerRest(l + rest) == Some(IntegerRest(l).value + rest)
  {
    assert (l + rest)[1..] == l[1..] + rest;
    if l[0] != ZERO {
      SkipDigitsAppend(l[1..], rest);
    }
  }

  lemma FractionRestAppend(l: Text, rest: Text)
    requires FractionRest(l).Some? && Separate(FractionRest(l).value, rest)
    ensures FractionRest(l + rest) == Some(FractionRest(l).value + rest)
  {
    if l != [] && l[0] == POINT {
      assert (l + rest)[1..] == l[1..] + rest;
      SkipDigitsAppend(l[1..], rest);
    } else if l == [] {
      assert l + rest == rest;
    }
  }

  lemma ExponentRestAppend(l: Text, rest: Text)
    requires ExponentRest(l) == Some([]) && Delimited(rest)
    ensures ExponentRest(l + rest) == Some(rest)
  {
    if l == [] {
      assert l + rest == rest;
    } else {
      hide SkipDigits;
      var n := if |l| > 1 && (l[1] == PLUS || l[1] == MINUS) then 2 else 1;
      assert (l + rest)[n..] == l[n..] + rest;
      SkipDigitsAppend(l[n..], rest);
      assert [] + rest == rest;
    }
  }

  /** A number token is read to its end and no further. */
  lemma NumberRestAppend(l: Text, rest: Text)
    requires NumberRest(l) == Some([]) && Delimited(rest)
    ensures NumberRest(l + rest) == Some(rest)
  {
    var n := if l[0] == MINUS then 1 else 0;
    assert (l + rest)[n..] == l[n..] + rest;
    var whole := IntegerRest(l[n..]).value;
    IntegerRestAppend(l[n..], rest);
    FractionRestAppend(whole, rest);
    ExponentRestAppend(FractionRest(whole).value, rest);
  }

  lemma NumberReadsBack(c: Settings, b: Bits, rest: Text, count: nat)
    requires Sound(c.codec) && Delimited(rest)
    ensures ReadNumber(c, c.codec.show(b) + rest, count) == Read(Num(Real(b)), rest, count)
  {
    var lexeme := c.codec.show(b);
    NumberRestAppend(lexeme, rest);
    assert (lexeme + rest)[..|lexeme|] == lexeme;
  }

  // ---- Strings ----

  lemma PieceReadsBack(u: Unit, more: Text)
    requires !High(u) && !Low(u)
    ensures EscapedUnit(u) + more != []
    ensures ReadPiece(EscapedUnit(u) + more) == Some(([u], |EscapedUnit(u)|))
    ensures (EscapedUnit(u) + more)[0] != QUOTE
  {
    var s := EscapedUnit(u) + more;
    if ShortEscape(u).None? && u < 0x20 {
      assert s[2..][..4] == [ZERO, ZERO, HexDigit(u / 16), HexDigit(u % 16)];
      assert HexUnit(s[2..]) == Some(u);
    } else {
      assert s[..|EscapedUnit(u)|] == EscapedUnit(u);
    }
  }

  /** Unescaping inverts escaping, and stops at the closing quote. */
  lemma {:induction false} TextReadsBack(policy: TextPolicy, t: Text, rest: Text, done: Text)
    requires WellFormed(t) && ValidText(policy, done + t)
    ensures ReadText(policy, Escaped(t) + [QUOTE] + rest, done) == Read(done + t, rest, 0)
    decreases |t|
  {
    var s := Escaped(t) + [QUOTE] + rest;
    if t == [] {
      assert s[1..] == rest && done + t == done;
    } else if High(t[0]) {
      var more := Escaped(t[2..]) + [QUOTE] + rest;
      assert t[1..][1..] == t[2..];
      assert s == [t[0], t[1]] + more;
      assert s[..2] == t[..2];
      assert done + t[..2] + t[2..] == done + t;
      assert s[2..] == more;
      TextReadsBack(policy, t[2..], rest, done + t[..2]);
    } else {
      var more := Escaped(t[1..]) + [QUOTE] + rest;
      assert s == EscapedUnit(t[0]) + more;
      PieceReadsBack(t[0], more);
      assert done + [t[0]] + t[1..] == done + t;
      assert s[|EscapedUnit(t[0])|..] == more;
      TextReadsBack(policy, t[1..], rest, done + [t[0]]);
    }
  }

  lemma WellFormedText(policy: TextPolicy, t: Text)
    requires ValidText(policy, t)
    ensures WellFormed(t)
  {
  }

  lemma QuotedReadsBack(policy: TextPolicy, t: Text, rest: Text)
    requires ValidText(policy, t)
    ensures var s := Quoted(t) + rest; s[0] == QUOTE && ReadText(policy, s[1..], []) == Read(t, rest, 0)
  {
    hide ReadText, ValidText, Escaped;
    assert [] + t == t;
    assert ValidText(policy, [] + t);
    WellFormedText(policy, t);
    TextReadsBack(policy, t, rest, []);
    assert (Quoted(t) + rest)[1..] == Escaped(t) + [QUOTE] + rest;
  }

  // ---- Values ----

  /** How a rendered value starts: never with white space, and with its own mark. */
  lemma RenderStarts(c: Settings, v: Value, rest: Text)
    requires Sound(c.codec)
    ensures var s := Render(c, v) + rest;
      && s != [] && !Space(s[0]) && SkipSpace(s) == s
      && (v.Num? ==> s[0] == MINUS || Digit(s[0]))
  {
    var s := Render(c, v) + rest;
    if v.Num? {
      var lexeme := c.codec.show(BitsOf(v.n));
      assert NumberRest(lexeme) == Some([]);
      assert s[0] == lexeme[0];
    }
  }

  lemma LiteralReadsBack(literal: Text, v: Value, rest: Text, count: nat)
    requires literal != []
    ensures ReadLiteral(literal + rest, literal, v, count) == Read(v, rest, count)
  {
    assert literal <= literal + rest;
    assert (literal + rest)[|literal|..] == rest;
  }

  /** Reading what was rendered gives the value back, wherever it stands in a larger text. */
  lemma {:induction false} ValueReadsBack(c: Settings, v: Value, rest: Text, depth: nat, count: nat)
    requires Sound(c.codec) && Encodable(c, v, depth) && Delimited(rest)
    requires count + Count(v) <= c.maximumValues
    ensures ReadValue(c, Render(c, v) + rest, depth, count) == Read(Plain(v), rest, count + Count(v))
    decreases v, 2, 0
  {
    hide ReadArray, ReadObject, ReadNumber, ReadLiteral, ReadText, Sound, Escaped;
    RenderStarts(c, v, rest);
    match v {
      case Null => LiteralReadsBack(NULL_TEXT, Null, rest, count + 1);
      case Bool(b) => LiteralReadsBack(if b then TRUE_TEXT else FALSE_TEXT, v, rest, count + 1);
      case Num(n) => NumberReadsBack(c, BitsOf(n), rest, count + 1);
      case Str(t) => QuotedReadsBack(c.policy, t, rest);
      case Arr(items) => ArrayReadsBack(c, v, rest, depth, count + 1);
      case Obj(m) => ObjectReadsBack(c, v, rest, depth, count + 1);
    }
  }

  lemma {:induction false} ArrayReadsBack(c: Settings, v: Value, rest: Text, depth: nat, count: nat)
    requires v.Arr? && Sound(c.codec) && Encodable(c, v, depth)
    requires count + CountItems(v, 0) <= c.maximumValues
    ensures ReadArray(c, Render(c, v) + rest, depth, count)
         == Read(Plain(v), rest, count + CountItems(v, 0))
    decreases v, 1, 0
  {
    var inside := RenderItems(c, v, 0) + [CLOSE_BRACKET] + rest;
    assert (Render(c, v) + rest)[1..] == inside;
    if v.items == [] {
      assert inside == [CLOSE_BRACKET] + rest && inside[1..] == rest;
      assert Plain(v) == Arr([]);
    } else {
      var tail := ItemsTail(c, v, 0, rest);
      assert inside == Render(c, v.items[0]) + tail;
      RenderStarts(c, v.items[0], tail);
      CloseIsNoValue(c, v.items[0], tail);
      ItemsReadBack(c, v, 0, rest, depth, count, []);
    }
  }

  /** What follows item `i` in a rendered array. */
  ghost function ItemsTail(c: Settings, v: Value, i: nat, rest: Text): (tail: Text)
    requires v.Arr? && i < |v.items|
    ensures Delimited(tail)
  {
    (if i + 1 == |v.items| then [] else [COMMA] + RenderItems(c, v, i + 1)) + [CLOSE_BRACKET] + rest
  }

  lemma CloseIsNoValue(c: Settings, v: Value, tail: Text)
    requires Sound(c.codec)
    ensures var s := Render(c, v) + tail; s != [] && s[0] != CLOSE_BRACKET && s[0] != CLOSE_BRACE
  {
    RenderStarts(c, v, tail);
  }

  lemma ItemEncodable(c: Settings, v: Value, i: nat, depth: nat)
    requires v.Arr? && i < |v.items| && Encodable(c, v, depth)
    ensures Encodable(c, v.items[i], depth + 1)
  {
    assert v.items[i] in v.items;
  }

  lemma DepthIsOk(c: Settings, v: Value, depth: nat)
    requires Encodable(c, v, depth)
    ensures v.Arr? || v.Obj? ==> depth <= c.maximumDepth
  {
  }

  lemma MemberEncodable(c: Settings, v: Value, key: Text, depth: nat)
    requires v.Obj? && key in v.members && Encodable(c, v, depth)
    ensures ValidText(c.policy, key) && Encodable(c, v.members[key], depth + 1)
  {
  }

  lemma {:induction false} ItemsReadBack(
      c: Settings, v: Value, i: nat, rest: Text, depth: nat, count: nat, done: seq<Value>)
    requires v.Arr? && i < |v.items| && Sound(c.codec) && Encodable(c, v, depth)
    requires count + CountItems(v, i) <= c.maximumValues
    requires done == Plain(v).items[..i]
    ensures ReadItems(c, RenderItems(c, v, i) + [CLOSE_BRACKET] + rest, depth, count, done)
         == Read(Plain(v), rest, count + CountItems(v, i))
    decreases v, 0, |v.items| - i
  {
    hide ReadValue, Render, Encodable, Count;
    var item, tail := v.items[i], ItemsTail(c, v, i, rest);
    ItemEncodable(c, v, i, depth);
    var s := RenderItems(c, v, i) + [CLOSE_BRACKET] + rest;
    assert s == Render(c, item) + tail;
    ValueReadsBack(c, item, tail, depth + 1, count);
    var next := done + [Plain(item)];
    assert next == Plain(v).items[..i + 1];
    if i + 1 == |v.items| {
      assert tail == [CLOSE_BRACKET] + rest && tail[1..] == rest;
      assert next == Plain(v).items;
    } else {
      assert tail[1..] == RenderItems(c, v, i + 1) + [CLOSE_BRACKET] + rest;
      ItemsReadBack(c, v, i + 1, rest, depth, count + Count(item), next);
    }
  }

  lemma {:induction false} ObjectReadsBack(c: Settings, v: Value, rest: Text, depth: nat, count: nat)
    requires v.Obj? && Sound(c.codec) && Encodable(c, v, depth)
    requires count + CountMembers(v, 0) <= c.maximumValues
    ensures ReadObject(c, Render(c, v) + rest, depth, count)
         == Read(Plain(v), rest, count + CountMembers(v, 0))
    decreases v, 1, 0
  {
    hide ReadValue, Encodable, Count, ReadMembers, ValidText, Keys;
    KeyCount(v);
    var inside := RenderMembers(c, v, 0) + [CLOSE_BRACE] + rest;
    assert (Render(c, v) + rest)[1..] == inside;
    assert depth <= c.maximumDepth by { DepthIsOk(c, v, depth); }
    if Keys(v) == [] {
      assert inside == [CLOSE_BRACE] + rest && inside[1..] == rest;
      assert v.members == map[];
      assert Plain(v) == Obj(map[]);
    } else {
      assert inside[0] == Quoted(Keys(v)[0])[0] == QUOTE;
      assert SkipSpace(inside) == inside;
      MembersReadBack(c, v, 0, rest, depth, count, map[]);
    }
  }

  ghost function MembersTail(c: Settings, v: Value, i: nat, rest: Text): (tail: Text)
    requires v.Obj? && i < |Keys(v)|
    ensures Delimited(tail)
  {
    (if i + 1 == |Keys(v)| then [] else [COMMA] + RenderMembers(c, v, i + 1)) + [CLOSE_BRACE] + rest
  }

  /** The members under the first `i` keys, as the reader has them. */
  ghost predicate ReadSoFar(v: Value, i: nat, done: map<Text, Value>)
    requires v.Obj? && i <= |Keys(v)|
  {
    && (forall k :: k in done <==> k in Keys(v)[..i])
    && forall k | k in done :: done[k] == Plain(v.members[k])
  }

  lemma KeyIsNew(v: Value, i: nat, done: map<Text, Value>)
    requires v.Obj? && i < |Keys(v)| && ReadSoFar(v, i, done)
    ensures Keys(v)[i] !in done
  {
    KeysAreSorted(v);
    LessIsIrreflexive(Keys(v)[i]);
  }

  /** One member of an object, given that its value reads back. */
  lemma MemberStep(c: Settings, key: Text, item: Text, read: Reading<Value>, depth: nat, count: nat,
                   done: map<Text, Value>)
    requires ValidText(c.policy, key) && key !in done
    requires read.Read? && read.rest != [] && !Space(read.rest[0])
    requires ReadValue(c, item, depth + 1, count) == read
    ensures var next := done[key := read.value];
      ReadMembers(c, Quoted(key) + ([COLON] + item), depth, count, done)
      == (if read.rest[0] == CLOSE_BRACE then Read(Obj(next), read.rest[1..], read.count)
          else if read.rest[0] != COMMA then Failed
          else ReadMembers(c, read.rest[1..], depth, read.count, next))
  {
    hide ReadValue, ReadText, ValidText;
    var afterKey := [COLON] + item;
    QuotedReadsBack(c.policy, key, afterKey);
    assert afterKey[1..] == item;
  }

  lemma MembersSplit(c: Settings, v: Value, i: nat, rest: Text)
    requires v.Obj? && i < |Keys(v)|
    ensures RenderMembers(c, v, i) + [CLOSE_BRACE] + rest
         == Quoted(Keys(v)[i]) + ([COLON] + (Render(c, v.members[Keys(v)[i]]) + MembersTail(c, v, i, rest)))
    ensures i + 1 == |Keys(v)| ==> MembersTail(c, v, i, rest)[1..] == rest
    ensures i + 1 < |Keys(v)| ==> MembersTail(c, v, i, rest)[1..] == RenderMembers(c, v, i + 1) + [CLOSE_BRACE] + rest
  {
    hide Render, Keys, Quoted;
  }

  lemma {:induction false} MembersReadBack(
      c: Settings, v: Value, i: nat, rest: Text, depth: nat, count: nat, done: map<Text, Value>)
    requires v.Obj? && i < |Keys(v)| && Sound(c.codec) && Encodable(c, v, depth)
    requires count + CountMembers(v, i) <= c.maximumValues
    requires ReadSoFar(v, i, done)
    ensures ReadMembers(c, RenderMembers(c, v, i) + [CLOSE_BRACE] + rest, depth, count, done)
         == Read(Plain(v), rest, count + CountMembers(v, i))
    decreases v, 0, |Keys(v)| - i
  {
    hide ReadValue, Render, Encodable, Count, ReadMembers, ValidText, Keys, Plain, ReadSoFar;
    var key, tail := Keys(v)[i], MembersTail(c, v, i, rest);
    MemberEncodable(c, v, key, depth);
    var item := v.members[key];
    MembersSplit(c, v, i, rest);
    KeyIsNew(v, i, done);
    ValueReadsBack(c, item, tail, depth + 1, count);
    var read := ReadValue(c, Render(c, item) + tail, depth + 1, count);
    MemberStep(c, key, Render(c, item) + tail, read, depth, count, done);
    var next := done[key := Plain(item)];
    ReadOneMore(v, i, done);
    if i + 1 < |Keys(v)| {
      MembersReadBack(c, v, i + 1, rest, depth, count + Count(item), next);
    }
  }

  lemma ReadOneMore(v: Value, i: nat, done: map<Text, Value>)
    requires v.Obj? && i < |Keys(v)| && ReadSoFar(v, i, done)
    ensures var next := done[Keys(v)[i] := Plain(v.members[Keys(v)[i]])];
      && ReadSoFar(v, i + 1, next)
      && (i + 1 == |Keys(v)| ==> Obj(next) == Plain(v))
  {
    hide Keys;
    var next := done[Keys(v)[i] := Plain(v.members[Keys(v)[i]])];
    assert Keys(v)[..i + 1] == Keys(v)[..i] + [Keys(v)[i]];
    if i + 1 == |Keys(v)| {
      assert Keys(v)[..i + 1] == Keys(v);
      AllKeys(v, next);
      assert Plain(v).members == next;
    }
  }

  lemma AllKeys(v: Value, done: map<Text, Value>)
    requires v.Obj? && forall k :: k in done <==> k in Keys(v)
    ensures done.Keys == v.members.Keys
  {
    KeysAreSorted(v);
  }

  lemma KeyCount(v: Value)
    requires v.Obj?
    ensures |Keys(v)| == |v.members|
  {
    KeysAreSorted(v);
  }

  // ---- The rendered text is well-formed ----

  /** `r` is what is left of `s` behind characters below 0x80. */
  ghost predicate Took(s: Text, r: Text) {
    |r| <= |s| && s[|s| - |r|..] == r && forall i | 0 <= i < |s| - |r| :: s[i] < 0x80
  }

  lemma TookMore(s: Text, r: Text, q: Text)
    requires Took(s, r) && Took(r, q)
    ensures Took(s, q)
  {
    forall i | 0 <= i < |s| - |q|
      ensures s[i] < 0x80
    {
      if i >= |s| - |r| {
        assert s[i] == r[i - (|s| - |r|)];
      }
    }
  }

  lemma FirstTook(s: Text)
    requires s != [] && s[0] < 0x80
    ensures Took(s, s[1..])
  {
  }

  lemma {:induction false} SkipDigitsTook(s: Text)
    ensures Took(s, SkipDigits(s))
  {
    if s != [] && Digit(s[0]) {
      SkipDigitsTook(s[1..]);
      TookMore(s, s[1..], SkipDigits(s));
    }
  }

  lemma IntegerTook(s: Text)
    requires IntegerRest(s).Some?
    ensures Took(s, IntegerRest(s).value)
  {
    hide SkipDigits, Took;
    SkipDigitsTook(s[1..]);
    FirstTook(s);
    if s[0] != ZERO {
      TookMore(s, s[1..], SkipDigits(s[1..]));
    }
  }

  lemma FractionTook(s: Text)
    requires FractionRest(s).Some?
    ensures Took(s, FractionRest(s).value)
  {
    if s != [] && s[0] == POINT {
      hide SkipDigits, Took;
      SkipDigitsTook(s[1..]);
      FirstTook(s);
      TookMore(s, s[1..], SkipDigits(s[1..]));
    } else {
      assert s[0..] == s;
    }
  }

  lemma NumberTook(s: Text)
    requires NumberRest(s).Some?
    ensures Took(s, NumberRest(s).value)
  {
    hide Took, IntegerRest, FractionRest, ExponentRest;
    var unsigned := if s != [] && s[0] == MINUS then s[1..] else s;
    SignTook(s);
    var whole := IntegerRest(unsigned).value;
    IntegerTook(unsigned);
    TookMore(s, unsigned, whole);
    var fraction := FractionRest(whole).value;
    FractionTook(whole);
    TookMore(s, whole, fraction);
    ExponentTook(fraction);
    TookMore(s, fraction, NumberRest(s).value);
  }

  lemma SignTook(s: Text)
    ensures Took(s, if s != [] && s[0] == MINUS then s[1..] else s)
  {
  }

  lemma ExponentTook(s: Text)
    requires ExponentRest(s).Some?
    ensures Took(s, ExponentRest(s).value)
  {
    if s != [] && (s[0] == LOWER_E || s[0] == UPPER_E) {
      var signed := if |s| > 1 && (s[1] == PLUS || s[1] == MINUS) then s[2..] else s[1..];
      assert Took(s, signed);
      SkipDigitsTook(signed);
      TookMore(s, signed, SkipDigits(signed));
    }
  }

  lemma {:induction false} AsciiIsWellFormed(t: Text)
    requires forall i | 0 <= i < |t| :: t[i] < 0x80
    ensures WellFormed(t)
  {
    if t != [] {
      AsciiIsWellFormed(t[1..]);
    }
  }

  lemma EscapedUnitIsWellFormed(u: Unit)
    requires !High(u) && !Low(u)
    ensures WellFormed(EscapedUnit(u))
  {
    if |EscapedUnit(u)| > 1 {
      AsciiIsWellFormed(EscapedUnit(u));
    }
  }

  lemma {:induction false} EscapedIsWellFormed(t: Text)
    requires WellFormed(t)
    ensures WellFormed(Escaped(t))
  {
    if t != [] {
      if High(t[0]) {
        EscapedIsWellFormed(t[2..]);
        assert t[1..][1..] == t[2..];
        assert Escaped(t) == [t[0], t[1]] + Escaped(t[2..]);
        assert Escaped(t)[2..] == Escaped(t[2..]);
      } else {
        EscapedIsWellFormed(t[1..]);
        EscapedUnitIsWellFormed(t[0]);
        WellFormedAppend(EscapedUnit(t[0]), Escaped(t[1..]));
      }
    }
  }

  lemma QuotedIsWellFormed(t: Text)
    requires WellFormed(t)
    ensures WellFormed(Quoted(t))
  {
    EscapedIsWellFormed(t);
    WellFormedAppend([QUOTE], Escaped(t));
    WellFormedAppend([QUOTE] + Escaped(t), [QUOTE]);
  }

  lemma BracketedIsWellFormed(open: Unit, inside: Text, close: Unit)
    requires open < 0x80 && close < 0x80 && WellFormed(inside)
    ensures WellFormed([open] + inside + [close])
  {
    WellFormedAppend([open], inside);
    WellFormedAppend([open] + inside, [close]);
  }

  lemma {:induction false} RenderIsWellFormed(c: Settings, v: Value, depth: nat)
    requires Sound(c.codec) && Encodable(c, v, depth)
    ensures WellFormed(Render(c, v))
    decreases v, 1, 0
  {
    match v {
      case Num(n) =>
        var lexeme := c.codec.show(BitsOf(n));
        assert NumberRest(lexeme) == Some([]);
        NumberTook(lexeme);
        AsciiIsWellFormed(lexeme);
      case Str(t) => QuotedIsWellFormed(t);
      case Arr(items) =>
        ItemsAreWellFormed(c, v, 0, depth);
        BracketedIsWellFormed(OPEN_BRACKET, RenderItems(c, v, 0), CLOSE_BRACKET);
      case Obj(m) =>
        MembersAreWellFormed(c, v, 0, depth);
        BracketedIsWellFormed(OPEN_BRACE, RenderMembers(c, v, 0), CLOSE_BRACE);
      case _ => AsciiIsWellFormed(Render(c, v));
    }
  }

  lemma {:induction false} ItemsAreWellFormed(c: Settings, v: Value, i: nat, depth: nat)
    requires v.Arr? && i <= |v.items| && Sound(c.codec) && Encodable(c, v, depth)
    ensures WellFormed(RenderItems(c, v, i))
    decreases v, 0, |v.items| - i
  {
    if i < |v.items| {
      hide Render, Encodable;
      ItemEncodable(c, v, i, depth);
      RenderIsWellFormed(c, v.items[i], depth + 1);
      ItemsAreWellFormed(c, v, i + 1, depth);
      WellFormedAppend([COMMA], RenderItems(c, v, i + 1));
      WellFormedAppend(Render(c, v.items[i]), if i + 1 == |v.items| then [] else [COMMA] + RenderItems(c, v, i + 1));
    }
  }

  lemma {:induction false} MembersAreWellFormed(c: Settings, v: Value, i: nat, depth: nat)
    requires v.Obj? && i <= |Keys(v)| && Sound(c.codec) && Encodable(c, v, depth)
    ensures WellFormed(RenderMembers(c, v, i))
    decreases v, 0, |Keys(v)| - i
  {
    if i < |Keys(v)| {
      hide Render, Encodable, Keys, Quoted;
      var key := Keys(v)[i];
      MemberEncodable(c, v, key, depth);
      WellFormedText(c.policy, key);
      QuotedIsWellFormed(key);
      RenderIsWellFormed(c, v.members[key], depth + 1);
      MembersAreWellFormed(c, v, i + 1, depth);
      var more := if i + 1 == |Keys(v)| then [] else [COMMA] + RenderMembers(c, v, i + 1);
      WellFormedAppend([COMMA], RenderMembers(c, v, i + 1));
      WellFormedAppend(Quoted(key), [COLON]);
      WellFormedAppend(Quoted(key) + [COLON], Render(c, v.members[key]));
      WellFormedAppend(Quoted(key) + [COLON] + Render(c, v.members[key]), more);
    }
  }

  // ---- Plain values ----

  /** Numbers alone are made plain; a plain value renders alike and is as deep and as large. */
  lemma {:induction false} PlainIsAlike(c: Settings, v: Value, depth: nat)
    requires Encodable(c, v, depth)
    ensures Render(c, Plain(v)) == Render(c, v)
    ensures Count(Plain(v)) == Count(v)
    ensures Encodable(c, Plain(v), depth)
    decreases v, 1, 0
  {
    match v {
      case Arr(items) =>
        forall i: nat | i < |items|
          ensures Encodable(c, Plain(v).items[i], depth + 1)
        {
          ItemEncodable(c, v, i, depth);
          PlainIsAlike(c, items[i], depth + 1);
        }
        PlainItemsAreAlike(c, v, 0, depth);
      case Obj(m) =>
        forall k | k in m
          ensures Encodable(c, Plain(v).members[k], depth + 1)
        {
          MemberEncodable(c, v, k, depth);
          PlainIsAlike(c, m[k], depth + 1);
        }
        PlainKeys(v);
        PlainMembersAreAlike(c, v, 0, depth);
      case _ =>
    }
  }

  lemma PlainKeys(v: Value)
    requires v.Obj?
    ensures Keys(Plain(v)) == Keys(v)
  {
    KeysAreSorted(v);
    KeysAreSorted(Plain(v));
    SortedIsUnique(Keys(v), Keys(Plain(v)));
  }

  lemma {:induction false} PlainItemsAreAlike(c: Settings, v: Value, i: nat, depth: nat)
    requires v.Arr? && i <= |v.items| && Encodable(c, v, depth)
    ensures RenderItems(c, Plain(v), i) == RenderItems(c, v, i)
    ensures CountItems(Plain(v), i) == CountItems(v, i)
    decreases v, 0, |v.items| - i
  {
    if i < |v.items| {
      hide Render, Encodable, Count;
      ItemEncodable(c, v, i, depth);
      PlainIsAlike(c, v.items[i], depth + 1);
      PlainItemsAreAlike(c, v, i + 1, depth);
    }
  }

  lemma {:induction false} PlainMembersAreAlike(c: Settings, v: Value, i: nat, depth: nat)
    requires v.Obj? && i <= |Keys(v)| && Encodable(c, v, depth) && Keys(Plain(v)) == Keys(v)
    ensures RenderMembers(c, Plain(v), i) == RenderMembers(c, v, i)
    ensures CountMembers(Plain(v), i) == CountMembers(v, i)
    decreases v, 0, |Keys(v)| - i
  {
    if i < |Keys(v)| {
      hide Render, Encodable, Count, Keys;
      MemberEncodable(c, v, Keys(v)[i], depth);
      PlainIsAlike(c, v.members[Keys(v)[i]], depth + 1);
      PlainMembersAreAlike(c, v, i + 1, depth);
    }
  }

  // ---- What numbers are worth ----

  /** What is written for a permitted number is worth what the number is. */
  lemma NumberIsKept(n: Number)
    requires NumberOk(n)
    ensures ValueOf(BitsOf(n)) == RealOf(n)
  {
    hide ValueOf;
    match n {
      case Integer(i) => CastIsExact(i);
      case NegativeZero => ValueOfZero();
      case Real(b) =>
    }
  }

  lemma ValueOfZero()
    ensures ValueOf(0) == 0.0
  {
    ZeroIsZero();
  }

  /** Permitted numbers are written alike exactly when they are equal, and whatever equals a
      permitted number is permitted. */
  lemma NumbersDecide(n: Number, m: Number)
    requires NumberOk(n) && !m.NotFinite?
    ensures RealOf(n) == RealOf(m) <==> NumberOk(m) && BitsOf(n) == BitsOf(m)
  {
    hide ValueOf, ExactlyRepresentable, OfInteger;
    NumberIsKept(n);
    if NumberOk(m) {
      NumberIsKept(m);
      if RealOf(n) == RealOf(m) {
        ValueIsInjective(BitsOf(n), BitsOf(m));
      }
    } else if RealOf(n) == RealOf(m) {
      OnlyExactIntegers(m.value, BitsOf(n));
    }
  }

  /** Against an encodable value: the same value is encodable too and has the same plain form,
      and nothing else has. */
  lemma {:induction false} SameDecides(c: Settings, v: Value, w: Value, depth: nat)
    requires Encodable(c, v, depth)
    ensures SameValue(v, w) <==> Encodable(c, w, depth) && Plain(v) == Plain(w)
    decreases v
  {
    hide BitsOf, RealOf, NumberOk;
    match v {
      case Num(n) =>
        if w.Num? && !w.n.NotFinite? {
          NumbersDecide(n, w.n);
        }
        FiniteNumbers(n);
        if w.Num? {
          FiniteNumbers(w.n);
        }
      case Arr(items) =>
        if w.Arr? && |w.items| == |items| {
          SameItemsDecide(c, v, w, depth);
        }
        if w.Arr? && Plain(v) == Plain(w) {
          assert |Plain(v).items| == |items| && |Plain(w).items| == |w.items|;
        }
      case Obj(m) =>
        if w.Obj? && w.members.Keys == m.Keys {
          SameMembersDecide(c, v, w, depth);
        }
        if w.Obj? && Plain(v) == Plain(w) {
          assert Plain(v).members.Keys == m.Keys && Plain(w).members.Keys == w.members.Keys;
        }
      case _ =>
    }
  }

  lemma FiniteNumbers(n: Number)
    ensures NumberOk(n) ==> !n.NotFinite?
  {
  }

  lemma {:induction false} SameItemsDecide(c: Settings, v: Value, w: Value, depth: nat)
    requires v.Arr? && w.Arr? && |v.items| == |w.items| && Encodable(c, v, depth)
    ensures SameValue(v, w) <==> Encodable(c, w, depth) && Plain(v) == Plain(w)
    decreases v, 0
  {
    forall i: nat | i < |v.items|
      ensures SameValue(v.items[i], w.items[i])
        <==> (Encodable(c, w.items[i], depth + 1) && Plain(v.items[i]) == Plain(w.items[i]))
    {
      ItemEncodable(c, v, i, depth);
      SameDecides(c, v.items[i], w.items[i], depth + 1);
    }
    DepthIsOk(c, v, depth);
    ItemsAreEncodable(c, w, depth);
    PlainItemsDecide(v, w);
  }

  lemma ItemsAreEncodable(c: Settings, v: Value, depth: nat)
    requires v.Arr? && depth <= c.maximumDepth
    ensures Encodable(c, v, depth) <==> forall i | 0 <= i < |v.items| :: Encodable(c, v.items[i], depth + 1)
  {
    if Encodable(c, v, depth) {
      forall i: nat | i < |v.items|
        ensures Encodable(c, v.items[i], depth + 1)
      {
        ItemEncodable(c, v, i, depth);
      }
    }
  }

  lemma PlainItemsDecide(v: Value, w: Value)
    requires v.Arr? && w.Arr? && |v.items| == |w.items|
    ensures Plain(v) == Plain(w) <==> forall i | 0 <= i < |v.items| :: Plain(v.items[i]) == Plain(w.items[i])
  {
    var p, q := Plain(v).items, Plain(w).items;
    assert forall i | 0 <= i < |v.items| :: p[i] == Plain(v.items[i]) && q[i] == Plain(w.items[i]);
    if forall i | 0 <= i < |v.items| :: Plain(v.items[i]) == Plain(w.items[i]) {
      assert p == q;
    }
  }

  lemma {:induction false} SameMembersDecide(c: Settings, v: Value, w: Value, depth: nat)
    requires v.Obj? && w.Obj? && v.members.Keys == w.members.Keys && Encodable(c, v, depth)
    ensures SameValue(v, w) <==> Encodable(c, w, depth) && Plain(v) == Plain(w)
    decreases v, 0
  {
    forall k | k in v.members
      ensures SameValue(v.members[k], w.members[k])
        <==> (Encodable(c, w.members[k], depth + 1) && Plain(v.members[k]) == Plain(w.members[k]))
      ensures ValidText(c.policy, k)
    {
      MemberEncodable(c, v, k, depth);
      SameDecides(c, v.members[k], w.members[k], depth + 1);
    }
    assert Plain(v) == Plain(w) <==> forall k | k in v.members :: Plain(v).members[k] == Plain(w).members[k];
  }

  lemma {:induction false} PlainTwice(v: Value)
    ensures Plain(Plain(v)) == Plain(v)
  {
    match v {
      case Arr(items) =>
        forall i | 0 <= i < |items|
          ensures Plain(Plain(items[i])) == Plain(items[i])
        {
          PlainTwice(items[i]);
        }
        assert Plain(Plain(v)).items == Plain(v).items;
      case Obj(m) =>
        forall k | k in m
          ensures Plain(Plain(m[k])) == Plain(m[k])
        {
          PlainTwice(m[k]);
        }
        assert Plain(Plain(v)).members == Plain(v).members;
      case _ =>
    }
  }

  /** The plain form of an encodable value has the numbers of the value. */
  lemma PlainIsSame(c: Settings, v: Value, depth: nat)
    requires Encodable(c, v, depth)
    ensures SameValue(v, Plain(v))
  {
    PlainIsAlike(c, v, depth);
    PlainTwice(v);
    SameDecides(c, v, Plain(v), depth);
  }

  // ---- The theorems ----

  lemma RootReadsBack(c: Settings, v: Value)
    requires Sound(c.codec) && v.Obj? && Encodable(c, v, 1) && Count(v) <= c.maximumValues
    ensures ReadRoot(c, Render(c, v)) == Some(Plain(v))
  {
    var s := Render(c, v);
    assert s + [] == s;
    RenderStarts(c, v, []);
    ObjectReadsBack(c, v, [], 1, 1);
  }

  /** Every object the serializer accepts is parsed back from its bytes, under the same framing,
      text policy and limits, with every number worth what it was. */
  lemma ParseInvertsSerialize(c: Settings, v: Value, bytes: Bytes)
    requires Sound(c.codec) && v.Obj? && Serialized(c, v) == Some(bytes)
    ensures Parsed(c, bytes) == Some(Plain(v)) && SameValue(v, Plain(v))
  {
    PlainIsSame(c, v, 1);
    ParsesToPlain(c, v, bytes);
  }

  lemma ParsesToPlain(c: Settings, v: Value, bytes: Bytes)
    requires Sound(c.codec) && v.Obj? && Serialized(c, v) == Some(bytes)
    ensures Parsed(c, bytes) == Some(Plain(v))
  {
    var text := Render(c, v);
    var payload := Utf8(text);
    assert Unframed(c, bytes) == Some(payload);
    Utf8RoundTrip(text);
    RootReadsBack(c, v);
    assert text[0] == OPEN_BRACE && payload[0] == OPEN_BRACE;
    PlainIsAlike(c, v, 1);
  }

  /** Every accepted byte string is the serialization of its result, which is already plain. */
  lemma AcceptedIsCanonical(c: Settings, bytes: Bytes)
    requires Sound(c.codec) && Parsed(c, bytes).Some?
    ensures var v := Parsed(c, bytes).value; v.Obj? && Serialized(c, v) == Some(bytes) && Plain(v) == v
  {
    ParseInvertsSerialize(c, Parsed(c, bytes).value, bytes);
  }

  lemma FramingIsInjective(c: Settings, a: Bytes, b: Bytes)
    requires Framed(c, a) == Framed(c, b)
    ensures a == b
  {
    assert Unframed(c, Framed(c, a)) == Some(a) && Unframed(c, Framed(c, b)) == Some(b);
  }

  lemma SameBytesSamePlain(c: Settings, v: Value, w: Value)
    requires Sound(c.codec) && Serialized(c, v).Some? && Serialized(c, v) == Serialized(c, w)
    ensures Plain(v) == Plain(w)
  {
    hide Utf8, WellFormed, Render, Encodable, Sound, CanonicalJson.ReadValue, Framed, Count;
    var s, t := Render(c, v), Render(c, w);
    FramingIsInjective(c, Utf8(s), Utf8(t));
    Utf8RoundTrip(s);
    Utf8RoundTrip(t);
    assert s + [] == s && t + [] == t;
    ValueReadsBack(c, v, [], 1, 0);
    ValueReadsBack(c, w, [], 1, 0);
  }

  lemma SamePlainSameBytes(c: Settings, v: Value, w: Value)
    requires Encodable(c, v, 1) && Encodable(c, w, 1) && Plain(v) == Plain(w)
    ensures Serialized(c, v) == Serialized(c, w)
  {
    hide Utf8, WellFormed, Render, Encodable, Framed, Count;
    PlainIsAlike(c, v, 1);
    PlainIsAlike(c, w, 1);
  }

  /** The bytes decide the value: exactly the values that are equal, however their numbers are
      represented, are serialized to the same bytes. */
  lemma SerializeDecides(c: Settings, v: Value, w: Value)
    requires Sound(c.codec) && Serialized(c, v).Some?
    ensures Serialized(c, w) == Serialized(c, v) <==> SameValue(v, w)
  {
    hide Utf8, WellFormed, Render, Sound, Framed, Count, SameValue;
    SameDecides(c, v, w, 1);
    if Serialized(c, w) == Serialized(c, v) {
      SameBytesSamePlain(c, v, w);
    }
    if SameValue(v, w) {
      SamePlainSameBytes(c, v, w);
    }
  }

  /** Well-formedness of the rendered text is never what makes the serializer refuse. */
  lemma SerializerAccepts(c: Settings, v: Value)
    requires Sound(c.codec) && LimitsOk(c) && Encodable(c, v, 1) && Count(v) <= c.maximumValues
    ensures WellFormed(Render(c, v))
    ensures Serialized(c, v).Some? <==> |Framed(c, Utf8(Render(c, v)))| <= c.maximumBytes
  {
    RenderIsWellFormed(c, v, 1);
  }
}
