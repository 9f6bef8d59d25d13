/** The RFC 8785 codec: what the serializer writes and what the reader takes, as functions on
    text. `CanonicalJsonInversion` proves that they invert each other; `CanonicalJsonCodec` has
    the stateful `Serializer` and `Reader`. */
module CanonicalJson {
  import opened Options
  import opened UnicodeText
  import opened Binary64Numbers

  const QUOTE: Unit := 0x22
  const PLUS: Unit := 0x2B
  const COMMA: Unit := 0x2C
  const MINUS: Unit := 0x2D
  const POINT: Unit := 0x2E
  const SLASH: Unit := 0x2F
  const ZERO: Unit := 0x30
  const NINE: Unit := 0x39
  const COLON: Unit := 0x3A
  const UPPER_E: Unit := 0x45
  const OPEN_BRACKET: Unit := 0x5B
  const BACKSLASH: Unit := 0x5C
  const CLOSE_BRACKET: Unit := 0x5D
  const LOWER_E: Unit := 0x65
  const OPEN_BRACE: Unit := 0x7B
  const CLOSE_BRACE: Unit := 0x7D
  const NULL_TEXT: Text := [0x6E, 0x75, 0x6C, 0x6C]
  const TRUE_TEXT: Text := [0x74, 0x72, 0x75, 0x65]
  const FALSE_TEXT: Text := [0x66, 0x61, 0x6C, 0x73, 0x65]
  const LINE_FEED: Byte := 0x0A
  const MAXIMUM_LEXEME := 0x7FFF_FFFF

  /** A finite number other than negative zero is known by its bits; 0 is zero. Numbers made from
      64-bit integers stay integers until they are written. */
  datatype Number = Real(bits: Bits) | NegativeZero | NotFinite | Integer(value: Integer64)

  datatype Value =
    | Null
    | Bool(b: bool)
    | Num(n: Number)
    | Str(t: Text)
    | Arr(items: seq<Value>)
    | Obj(members: map<Text, Value>)

  /** The shortest-form conversion of RFC 8785 section 3.2.2.3 and its inverse. */
  datatype Codec = Codec(show: Bits -> Text, read: Text -> Number)

  datatype Framing = Bare | OneTrailingLineFeed
  datatype TextPolicy = Rfc8785 | ProjectReceipt(forbidden: nat -> bool, nfc: Text -> Text)

  datatype Settings = Settings(
    codec: Codec,
    framing: Framing,
    policy: TextPolicy,
    maximumBytes: int,
    maximumDepth: int,
    maximumValues: int
  )

  // ---- Text ----

  predicate Allowed(policy: TextPolicy, t: Text)
    requires policy.ProjectReceipt? && WellFormed(t)
  {
    if t == [] then true
    else if High(t[0]) then !policy.forbidden(Pair(t[0], t[1])) && Allowed(policy, t[2..])
    else !policy.forbidden(t[0]) && Allowed(policy, t[1..])
  }

  predicate ValidText(policy: TextPolicy, t: Text) {
    WellFormed(t) && (policy.ProjectReceipt? ==> Allowed(policy, t) && policy.nfc(t) == t)
  }

  /** The character that starts at a place is permitted; the second half of a pair starts none. */
  ghost predicate PermittedAt(policy: TextPolicy, t: Text, i: nat)
    requires policy.ProjectReceipt? && i < |t|
  {
    if 0xD800 <= t[i] <= 0xDBFF then
      && i + 1 < |t| && 0xDC00 <= t[i + 1] <= 0xDFFF
      && !policy.forbidden((t[i] as int - 0xD800) * 0x400 + t[i + 1] as int - 0xDC00 + 0x1_0000)
    else 0xDC00 <= t[i] <= 0xDFFF || !policy.forbidden(t[i])
  }

  /** Under the receipt policy every character is permitted and the text is its own normal form. */
  lemma TextsArePermitted(policy: TextPolicy, t: Text)
    ensures ValidText(policy, t) <==>
        && WellFormed(t)
        && (policy.ProjectReceipt? ==> policy.nfc(t) == t && forall i: nat | i < |t| :: PermittedAt(policy, t, i))
  {
    if policy.ProjectReceipt? && WellFormed(t) {
      AllowedMeans(policy, t);
    }
  }

  lemma {:induction false} AllowedMeans(policy: TextPolicy, t: Text)
    requires policy.ProjectReceipt? && WellFormed(t)
    ensures Allowed(policy, t) <==> forall i: nat | i < |t| :: PermittedAt(policy, t, i)
  {
    if t != [] {
      var n := if High(t[0]) then 2 else 1;
      AllowedMeans(policy, t[n..]);
      assert PermittedAt(policy, t, 0) <==> !policy.forbidden(if n == 2 then Pair(t[0], t[1]) else t[0]);
      assert n == 2 ==> PermittedAt(policy, t, 1);
      forall k: nat | k < |t[n..]|
        ensures PermittedAt(policy, t, n + k) <==> PermittedAt(policy, t[n..], k)
      {
      }
      forall i: nat | n <= i < |t|
        ensures PermittedAt(policy, t, i) <==> PermittedAt(policy, t[n..], i - n)
      {
        assert PermittedAt(policy, t, n + (i - n)) <==> PermittedAt(policy, t[n..], i - n);
      }
    }
  }

  function HexDigit(n: nat): Unit
    requires n < 16
  {
    if n < 10 then ZERO + n else 0x61 + (n - 10)
  }

  function HexValue(u: Unit): Option<nat> {
    if ZERO <= u <= NINE then Some(u - ZERO)
    else if 0x61 <= u <= 0x66 then Some(u - 0x61 + 10)
    else if 0x41 <= u <= 0x46 then Some(u - 0x41 + 10)
    else None
  }

  /** The two-character escapes the serializer uses (RFC 8785 section 3.2.2.2). */
  function ShortEscape(u: Unit): Option<Unit> {
    if u == 0x08 then Some(0x62)
    else if u == 0x09 then Some(0x74)
    else if u == 0x0A then Some(0x6E)
    else if u == 0x0C then Some(0x66)
    else if u == 0x0D then Some(0x72)
    else if u == QUOTE || u == BACKSLASH then Some(u)
    else None
  }

  /** What the reader makes of the character after a backslash, `u` excepted. */
  function Unescape(e: Unit): Option<Unit> {
    if e == QUOTE || e == BACKSLASH || e == SLASH then Some(e)
    else if e == 0x62 then Some(0x08)
    else if e == 0x66 then Some(0x0C)
    else if e == 0x6E then Some(0x0A)
    else if e == 0x72 then Some(0x0D)
    else if e == 0x74 then Some(0x09)
    else None
  }

  function EscapedUnit(u: Unit): Text {
    if ShortEscape(u).Some? then [BACKSLASH, ShortEscape(u).value]
    else if u < 0x20 then [BACKSLASH, 0x75, ZERO, ZERO, HexDigit(u / 16), HexDigit(u % 16)]
    else [u]
  }

  ghost function Escaped(t: Text): Text {
    if t == [] then [] else EscapedUnit(t[0]) + Escaped(t[1..])
  }

  ghost function Quoted(t: Text): Text {
    [QUOTE] + Escaped(t) + [QUOTE]
  }

  // ---- Serialization ----

  predicate NumberOk(n: Number) {
    match n
    case NotFinite => false
    case Integer(i) => ExactlyRepresentable(if i >= 0 then i else -i)
    case _ => true
  }

  /** The binary64 number that is written. */
  function BitsOf(n: Number): Bits {
    match n
    case Real(b) => b
    case Integer(i) => OfInteger(i)
    case _ => 0
  }

  /** The number itself. */
  ghost function RealOf(n: Number): real
    requires !n.NotFinite?
  {
    match n
    case Real(b) => ValueOf(b)
    case NegativeZero => 0.0
    case Integer(i) => i as real
  }

  /** Equal but for how their numbers are represented. */
  ghost predicate SameValue(v: Value, w: Value) {
    match v
    case Num(n) => w.Num? && !n.NotFinite? && !w.n.NotFinite? && RealOf(n) == RealOf(w.n)
    case Arr(items) => w.Arr? && |items| == |w.items| && forall i | 0 <= i < |items| :: SameValue(items[i], w.items[i])
    case Obj(m) => w.Obj? && m.Keys == w.members.Keys && forall k | k in m :: SameValue(m[k], w.members[k])
    case _ => v == w
  }

  /** The value a reader gets back: the same, with every number as a plain binary64. */
  ghost function Plain(v: Value): Value {
    match v
    case Num(n) => Num(Real(BitsOf(n)))
    case Arr(items) => Arr(seq(|items|, i requires 0 <= i < |items| => Plain(items[i])))
    case Obj(m) => Obj(map k | k in m :: Plain(m[k]))
    case _ => v
  }

  ghost function Keys(v: Value): (keys: seq<Text>)
    requires v.Obj?
    ensures forall i | 0 <= i < |keys| :: keys[i] in v.members
  {
    SortedKeys(v.members.Keys)
  }

  lemma KeysAreSorted(v: Value)
    requires v.Obj?
    ensures Sorted(Keys(v)) && |Keys(v)| == |v.members| && forall k :: k in Keys(v) <==> k in v.members
  {
  }

  ghost function Render(c: Settings, v: Value): Text
    decreases v, 1, 0
  {
    match v
    case Null => NULL_TEXT
    case Bool(b) => if b then TRUE_TEXT else FALSE_TEXT
    case Num(n) => c.codec.show(BitsOf(n))
    case Str(t) => Quoted(t)
    case Arr(items) => [OPEN_BRACKET] + RenderItems(c, v, 0) + [CLOSE_BRACKET]
    case Obj(m) => [OPEN_BRACE] + RenderMembers(c, v, 0) + [CLOSE_BRACE]
  }

  ghost function RenderItems(c: Settings, v: Value, i: nat): Text
    requires v.Arr? && i <= |v.items|
    decreases v, 0, |v.items| - i
  {
    if i == |v.items| then []
    else Render(c, v.items[i]) + (if i + 1 == |v.items| then [] else [COMMA] + RenderItems(c, v, i + 1))
  }

  ghost function RenderMembers(c: Settings, v: Value, i: nat): Text
    requires v.Obj? && i <= |Keys(v)|
    decreases v, 0, |Keys(v)| - i
  {
    if i == |Keys(v)| then []
    else
      Quoted(Keys(v)[i]) + [COLON] + Render(c, v.members[Keys(v)[i]])
      + (if i + 1 == |Keys(v)| then [] else [COMMA] + RenderMembers(c, v, i + 1))
  }

  ghost function Count(v: Value): nat
    decreases v, 1, 0
  {
    match v
    case Arr(items) => 1 + CountItems(v, 0)
    case Obj(m) => 1 + CountMembers(v, 0)
    case _ => 1
  }

  ghost function CountItems(v: Value, i: nat): nat
    requires v.Arr? && i <= |v.items|
    decreases v, 0, |v.items| - i
  {
    if i == |v.items| then 0 else Count(v.items[i]) + CountItems(v, i + 1)
  }

  ghost function CountMembers(v: Value, i: nat): nat
    requires v.Obj? && i <= |Keys(v)|
    decreases v, 0, |Keys(v)| - i
  {
    if i == |Keys(v)| then 0 else Count(v.members[Keys(v)[i]]) + CountMembers(v, i + 1)
  }

  /** Valid text, convertible numbers, and no deeper than the limit. */
  predicate Encodable(c: Settings, v: Value, depth: nat) {
    match v
    case Num(n) => NumberOk(n)
    case Str(t) => ValidText(c.policy, t)
    case Arr(items) => depth <= c.maximumDepth && forall item <- items :: Encodable(c, item, depth + 1)
    case Obj(m) =>
      depth <= c.maximumDepth && forall k | k in m :: ValidText(c.policy, k) && Encodable(c, m[k], depth + 1)
    case _ => true
  }

  predicate LimitsOk(c: Settings) {
    c.maximumBytes >= 0 && c.maximumDepth >= 0 && c.maximumValues >= 0
  }

  ghost function Framed(c: Settings, b: Bytes): Bytes {
    if c.framing == Bare then b else b + [LINE_FEED]
  }

  /** The bytes the serializer returns, if it accepts the value. */
  ghost function Serialized(c: Settings, v: Value): Option<Bytes> {
    if c.maximumBytes < 0 || c.maximumDepth < 0 || c.maximumValues < 0 then None
    else if !Encodable(c, v, 1) || Count(v) > c.maximumValues || !WellFormed(Render(c, v)) then None
    else
      var bytes := Framed(c, Utf8(Render(c, v)));
      if |bytes| <= c.maximumBytes then Some(bytes) else None
  }

  // ---- The text of each kind of value ----

  /** RFC 8785 section 3.2.2.2: the five short escapes, quotation mark and backslash behind a
      backslash, the other controls as four lower-case hexadecimal digits, the rest as it is. */
  lemma EscapesAreCanonical(u: Unit)
    ensures u == 0x08 ==> EscapedUnit(u) == [0x5C, 0x62]
    ensures u == 0x09 ==> EscapedUnit(u) == [0x5C, 0x74]
    ensures u == 0x0A ==> EscapedUnit(u) == [0x5C, 0x6E]
    ensures u == 0x0C ==> EscapedUnit(u) == [0x5C, 0x66]
    ensures u == 0x0D ==> EscapedUnit(u) == [0x5C, 0x72]
    ensures u == 0x22 || u == 0x5C ==> EscapedUnit(u) == [0x5C, u]
    ensures u < 0x20 && u !in {0x08, 0x09, 0x0A, 0x0C, 0x0D} ==>
        && |EscapedUnit(u)| == 6 && EscapedUnit(u)[..4] == [0x5C, 0x75, 0x30, 0x30]
        && EscapedUnit(u)[4] == (if u < 0x10 then 0x30 else 0x31)
        && EscapedUnit(u)[5] == (if u % 16 < 10 then 0x30 + u % 16 else 0x61 + u % 16 - 10)
    ensures u >= 0x20 && u != 0x22 && u != 0x5C ==> EscapedUnit(u) == [u]
  {
  }

  lemma {:induction false} EscapedAppend(t: Text, u: Unit)
    ensures Escaped(t + [u]) == Escaped(t) + EscapedUnit(u)
  {
    hide EscapedUnit;
    if t == [] {
      assert (t + [u])[1..] == [];
    } else {
      EscapedAppend(t[1..], u);
      assert (t + [u])[1..] == t[1..] + [u];
    }
  }

  /** A string is its units, each escaped, between quotation marks. */
  lemma TextIsUnitByUnit(t: Text, u: Unit)
    ensures Quoted([]) == [0x22, 0x22]
    ensures Quoted(t + [u]) == Quoted(t)[..|Quoted(t)| - 1] + EscapedUnit(u) + [0x22]
  {
    EscapedAppend(t, u);
    assert Quoted(t)[..|Quoted(t)| - 1] == [QUOTE] + Escaped(t);
  }

  lemma LiteralsAreCanonical(c: Settings, bits: Bits)
    ensures Render(c, Null) == [0x6E, 0x75, 0x6C, 0x6C]
    ensures Render(c, Bool(true)) == [0x74, 0x72, 0x75, 0x65]
    ensures Render(c, Bool(false)) == [0x66, 0x61, 0x6C, 0x73, 0x65]
    ensures forall depth :: Encodable(c, Null, depth)
    ensures forall b, depth :: Encodable(c, Bool(b), depth)
    ensures forall t, depth :: Encodable(c, Str(t), depth) <==> ValidText(c.policy, t)
    ensures Render(c, Num(Real(bits))) == c.codec.show(bits) && Render(c, Num(NegativeZero)) == c.codec.show(0)
  {
  }

  lemma ArraysAreCanonical(c: Settings, v: Value, w: Value)
    ensures Render(c, Arr([])) == [0x5B, 0x5D]
    ensures Render(c, Arr([v, w])) == [0x5B] + Render(c, v) + [0x2C] + Render(c, w) + [0x5D]
  {
    var pair := Arr([v, w]);
    assert RenderItems(c, pair, 1) == Render(c, w) + [];
    assert RenderItems(c, pair, 0) == Render(c, v) + ([COMMA] + RenderItems(c, pair, 1));
  }

  lemma ObjectText(c: Settings, m: map<Text, Value>)
    ensures Render(c, Obj(m)) == [0x7B] + RenderMembers(c, Obj(m), 0) + [0x7D]
  {
  }

  /** Members come in key order, a key before the longer ones it begins. */
  lemma ObjectsAreCanonical(c: Settings, v: Value, w: Value)
    ensures Render(c, Obj(map[])) == [0x7B, 0x7D]
    ensures Render(c, Obj(map[[0x61, 0x62] := v, [0x61] := w])) ==
        [0x7B] + ([0x22, 0x61, 0x22, 0x3A] + Render(c, w)
                  + [0x2C, 0x22, 0x61, 0x62, 0x22, 0x3A] + Render(c, v)) + [0x7D]
  {
    KeysOfPair(v, w);
    ObjectText(c, map[]);
    ObjectsOfPair(c, map[[0x61, 0x62] := v, [0x61] := w]);
  }

  lemma ObjectsOfPair(c: Settings, m: map<Text, Value>)
    requires Keys(Obj(m)) == [[0x61], [0x61, 0x62]]
    ensures Render(c, Obj(m)) ==
        [0x7B] + ([0x22, 0x61, 0x22, 0x3A] + Render(c, m[[0x61]])
                  + [0x2C, 0x22, 0x61, 0x62, 0x22, 0x3A] + Render(c, m[[0x61, 0x62]])) + [0x7D]
  {
    hide Quoted, Less, SortedKeys, Render, RenderMembers;
    assert Keys(Obj(m))[0] == [0x61] && Keys(Obj(m))[1] == [0x61, 0x62];
    QuotedPair();
    ObjectText(c, m);
    MembersOfPair(c, Obj(m), Render(c, m[[0x61]]), Render(c, m[[0x61, 0x62]]));
  }

  lemma KeysOfPair(v: Value, w: Value)
    ensures Keys(Obj(map[[0x61, 0x62] := v, [0x61] := w])) == [[0x61], [0x61, 0x62]]
    ensures Keys(Obj(map[])) == []
  {
    var a, ab: Text := [0x61], [0x61, 0x62];
    assert a < ab;
    LessMeans(a, ab);
    SortedIsUnique(Keys(Obj(map[ab := v, a := w])), [a, ab]);
  }

  lemma QuotedPair()
    ensures Quoted([0x61]) == [0x22, 0x61, 0x22] && Quoted([0x61, 0x62]) == [0x22, 0x61, 0x62, 0x22]
  {
    var a: Text := [0x61];
    TextIsUnitByUnit([], 0x61);
    TextIsUnitByUnit(a, 0x62);
    assert [] + a == a && a + [0x62] == [0x61, 0x62];
  }

  lemma MembersOfPair(c: Settings, pair: Value, first: Text, second: Text)
    requires pair.Obj? && Keys(pair) == [[0x61], [0x61, 0x62]]
    requires first == Render(c, pair.members[[0x61]]) && second == Render(c, pair.members[[0x61, 0x62]])
    requires Quoted([0x61]) == [0x22, 0x61, 0x22] && Quoted([0x61, 0x62]) == [0x22, 0x61, 0x62, 0x22]
    ensures RenderMembers(c, pair, 0) ==
        [0x22, 0x61, 0x22, 0x3A] + first + [0x2C, 0x22, 0x61, 0x62, 0x22, 0x3A] + second
  {
    hide Quoted, Less, SortedKeys, Keys;
    assert RenderMembers(c, pair, 1) == [0x22, 0x61, 0x62, 0x22, 0x3A] + second;
    assert RenderMembers(c, pair, 0) == [0x22, 0x61, 0x22, 0x3A] + first + ([COMMA] + RenderMembers(c, pair, 1));
  }

  /** `n` arrays, one in the other. */
  ghost function Nest(n: nat): Value {
    if n == 0 then Arr([]) else Arr([Nest(n - 1)])
  }

  /** The limit on depth counts containers, and the one on values every value. */
  lemma {:induction false} LimitsCount(c: Settings, n: nat, depth: nat)
    ensures Encodable(c, Nest(n), depth) <==> depth + n <= c.maximumDepth
    ensures Count(Nest(n)) == n + 1
  {
    var v := Nest(n);
    if n > 0 {
      LimitsCount(c, n - 1, depth + 1);
      assert v.items == [Nest(n - 1)] && Nest(n - 1) in v.items;
      assert Encodable(c, v, depth) <==> depth <= c.maximumDepth && Encodable(c, Nest(n - 1), depth + 1);
      assert CountItems(v, 1) == 0;
    }
  }

  lemma LimitsCountMembers(c: Settings, t: Text, v: Value, depth: nat)
    ensures Encodable(c, Obj(map[t := v]), depth) <==>
        depth <= c.maximumDepth && ValidText(c.policy, t) && Encodable(c, v, depth + 1)
    ensures Count(Obj(map[t := v])) == 1 + Count(v)
  {
    var outer := Obj(map[t := v]);
    assert t in outer.members && outer.members[t] == v;
    assert Keys(outer) == [t] by {
      SortedIsUnique(Keys(outer), [t]);
    }
    assert CountMembers(outer, 1) == 0;
  }

  /** A value within every limit is written, and with the framing its last byte is a line feed. */
  lemma FramingIsOneByte(c: Settings, v: Value)
    ensures Serialized(c, v).Some? ==>
        && c.maximumDepth >= 0 && Count(v) <= c.maximumValues && |Serialized(c, v).value| <= c.maximumBytes
        && WellFormed(Render(c, v))
        && Serialized(c, v).value == Utf8(Render(c, v)) + if c.framing == Bare then [] else [0x0A]
  {
  }

  // ---- Reading ----

  predicate Space(u: Unit) {
    u == 0x20 || u == 0x09 || u == 0x0D || u == 0x0A
  }

  function SkipSpace(s: Text): (r: Text)
    ensures |r| <= |s| && (r == [] || !Space(r[0]))
  {
    if s != [] && Space(s[0]) then SkipSpace(s[1..]) else s
  }

  datatype Reading<T> = Failed | Read(value: T, rest: Text, count: nat)

  function HexUnit(s: Text): Option<Unit> {
    if |s| < 4 || HexValue(s[0]).None? || HexValue(s[1]).None? || HexValue(s[2]).None? || HexValue(s[3]).None? then None
    else Some(HexValue(s[0]).value * 0x1000 + HexValue(s[1]).value * 0x100
              + HexValue(s[2]).value * 0x10 + HexValue(s[3]).value)
  }

  /** One character or escape of a string: its units and how much text it takes. */
  function ReadPiece(s: Text): (r: Option<(Text, nat)>)
    requires s != []
    ensures r.Some? ==> 1 <= r.value.1 <= |s|
  {
    if s[0] < 0x20 then None
    else if s[0] != BACKSLASH then
      if High(s[0]) then (if |s| > 1 && Low(s[1]) then Some((s[..2], 2)) else None)
      else if Low(s[0]) then None
      else Some((s[..1], 1))
    else if |s| < 2 then None
    else if s[1] != 0x75 then
      (if Unescape(s[1]).Some? then Some(([Unescape(s[1]).value], 2)) else None)
    else
      var high := HexUnit(s[2..]);
      if high.None? then None
      else if High(high.value) then
        if |s| < 8 || s[6] != BACKSLASH || s[7] != 0x75 then None
        else
          var low := HexUnit(s[8..]);
          if low.None? || !Low(low.value) then None else Some(([high.value, low.value], 12))
      else if Low(high.value) then None
      else Some(([high.value], 6))
  }

  /** One piece, unit by unit: no bare control, no half of a pair, and escapes of either hexadecimal
      case that never give half a pair. */
  lemma PiecesAre(s: Text)
    requires s != []
    ensures s[0] < 0x20 || 0xDC00 <= s[0] <= 0xDFFF ==> ReadPiece(s) == None
    ensures (0x20 <= s[0] < 0xD800 || s[0] >= 0xE000) && s[0] != 0x5C ==> ReadPiece(s) == Some(([s[0]], 1))
    ensures 0xD800 <= s[0] <= 0xDBFF ==>
        ReadPiece(s) == if |s| > 1 && 0xDC00 <= s[1] <= 0xDFFF then Some(([s[0], s[1]], 2)) else None
    ensures s[0] == 0x5C && (|s| == 1 || s[1] != 0x75) ==>
        ReadPiece(s) == if |s| == 1 || Unescape(s[1]).None? then None else Some(([Unescape(s[1]).value], 2))
    ensures s[0] == 0x5C && |s| > 1 && s[1] == 0x75 ==> ReadPiece(s) == EscapedPiece(s)
  {
    hide HexUnit, Unescape;
    assert s[..1] == [s[0]];
    if |s| > 1 {
      assert s[..2] == [s[0], s[1]];
    }
    if |s| >= 8 {
      assert s[6..8] == [s[6], s[7]];
    }
  }

  /** What four digits behind a backslash and a `u` stand for. */
  ghost function EscapedPiece(s: Text): Option<(Text, nat)>
    requires |s| > 1
  {
    match HexUnit(s[2..])
    case None => None
    case Some(u) =>
      if 0xD800 <= u <= 0xDBFF then
        if |s| >= 8 && s[6..8] == [0x5C, 0x75] && HexUnit(s[8..]).Some? && 0xDC00 <= HexUnit(s[8..]).value <= 0xDFFF
        then Some(([u, HexUnit(s[8..]).value], 12))
        else None
      else if 0xDC00 <= u <= 0xDFFF then None
      else Some(([u], 6))
  }

  /** The rest of a string after its opening quote; `done` is what was read so far. */
  function ReadText(policy: TextPolicy, s: Text, done: Text): (r: Reading<Text>)
    ensures r.Read? ==> |r.rest| < |s| && r.count == 0
  {
    if s == [] then Failed
    else if s[0] == QUOTE then
      if ValidText(policy, done) then Read(done, s[1..], 0) else Failed
    else
      var piece := ReadPiece(s);
      if piece.None? then Failed else ReadText(policy, s[piece.value.1..], done + piece.value.0)
  }

  predicate Digit(u: Unit) {
    ZERO <= u <= NINE
  }

  function SkipDigits(s: Text): (r: Text)
    ensures |r| <= |s|
  {
    if s != [] && Digit(s[0]) then SkipDigits(s[1..]) else s
  }

  /** RFC 8259 section 6, stage by stage: what is left after each part, if it is there. */
  function IntegerRest(s: Text): Option<Text> {
    if s == [] then None
    else if s[0] == ZERO then (if |s| > 1 && Digit(s[1]) then None else Some(s[1..]))
    else if Digit(s[0]) then Some(SkipDigits(s[1..]))
    else None
  }

  function FractionRest(s: Text): Option<Text> {
    if s == [] || s[0] != POINT then Some(s)
    else if |s| > 1 && Digit(s[1]) then Some(SkipDigits(s[1..]))
    else None
  }

  function ExponentRest(s: Text): Option<Text> {
    if s == [] || (s[0] != LOWER_E && s[0] != UPPER_E) then Some(s)
    else
      var signed := if |s| > 1 && (s[1] == PLUS || s[1] == MINUS) then s[2..] else s[1..];
      if signed != [] && Digit(signed[0]) then Some(SkipDigits(signed)) else None
  }

  function NumberRest(s: Text): (r: Option<Text>)
    ensures r.Some? ==> |r.value| < |s|
  {
    var whole := IntegerRest(if s != [] && s[0] == MINUS then s[1..] else s);
    if whole.None? then None
    else
      var fraction := FractionRest(whole.value);
      if fraction.None? then None else ExponentRest(fraction.value)
  }

  predicate SignificandNonzero(lexeme: Text) {
    && lexeme != [] && lexeme[0] != LOWER_E && lexeme[0] != UPPER_E
    && ((Digit(lexeme[0]) && lexeme[0] != ZERO) || SignificandNonzero(lexeme[1..]))
  }

  predicate LosesValue(lexeme: Text, n: Number) {
    n.NotFinite? || ((n == Real(0) || n == NegativeZero) && SignificandNonzero(lexeme))
  }

  lemma {:induction false} DigitsEnd(s: Text, rest: Text)
    requires forall i | 0 <= i < |s| :: 0x30 <= s[i] <= 0x39
    requires rest == [] || !(0x30 <= rest[0] <= 0x39)
    ensures SkipDigits(s + rest) == rest
  {
    if s == [] {
      assert s + rest == rest;
    } else {
      DigitsEnd(s[1..], rest);
      assert (s + rest)[1..] == s[1..] + rest;
    }
  }

  /** A number ends behind its last part: `whole` without needless zeros, digits behind a
      point, and behind `e` or `E` a sign at will and digits (RFC 8259 section 6). */
  lemma NumberEnds(negative: bool, whole: Text, fraction: Text, mark: Text, exponent: Text, rest: Text)
    requires whole == [0x30] || (whole != [] && whole[0] != 0x30)
    requires forall i | 0 <= i < |whole| :: 0x30 <= whole[i] <= 0x39
    requires forall i | 0 <= i < |fraction| :: 0x30 <= fraction[i] <= 0x39
    requires forall i | 0 <= i < |exponent| :: 0x30 <= exponent[i] <= 0x39
    requires (fraction == [] && mark == [] && exponent == []) || fraction != []
    requires (mark == [] && exponent == [])
          || (mark in {[0x65], [0x45], [0x65, 0x2B], [0x65, 0x2D], [0x45, 0x2B], [0x45, 0x2D]} && exponent != [])
    requires rest == [] || rest[0] in {0x2C, 0x5D, 0x7D, 0x20}
    ensures NumberRest((if negative then [0x2D] else []) + (whole + ((if fraction == [] then [] else [0x2E] + fraction)
                        + (mark + (exponent + rest))))) == Some(rest)
  {
    var tail := mark + (exponent + rest);
    var middle := (if fraction == [] then [] else [0x2E] + fraction) + tail;
    IntegerEnds(whole, middle);
    FractionEnds(fraction, tail);
    ExponentEnds(mark, exponent, rest);
    var s := (if negative then [0x2D] else []) + (whole + middle);
    assert negative ==> s[1..] == whole + middle;
    assert !negative ==> s == whole + middle && s[0] != MINUS;
  }

  lemma IntegerEnds(whole: Text, rest: Text)
    requires whole == [0x30] || (whole != [] && whole[0] != 0x30)
    requires forall i | 0 <= i < |whole| :: 0x30 <= whole[i] <= 0x39
    requires rest == [] || !(0x30 <= rest[0] <= 0x39)
    ensures IntegerRest(whole + rest) == Some(rest)
  {
    assert (whole + rest)[1..] == whole[1..] + rest;
    DigitsEnd(whole[1..], rest);
    if whole == [0x30] {
      assert (whole + rest)[1..] == rest;
    }
  }

  lemma FractionEnds(fraction: Text, rest: Text)
    requires forall i | 0 <= i < |fraction| :: 0x30 <= fraction[i] <= 0x39
    requires rest == [] || rest[0] !in {0x2E, 0x30, 0x31, 0x32, 0x33, 0x34, 0x35, 0x36, 0x37, 0x38, 0x39}
    ensures FractionRest((if fraction == [] then [] else [0x2E] + fraction) + rest) == Some(rest)
  {
    if fraction == [] {
      assert [] + rest == rest;
    } else {
      var s := [0x2E] + fraction + rest;
      DigitsEnd(fraction, rest);
      assert s[1..] == fraction + rest && s[1] == fraction[0];
      assert SkipDigits(s[1..]) == rest;
    }
  }

  lemma ExponentEnds(mark: Text, exponent: Text, rest: Text)
    requires forall i | 0 <= i < |exponent| :: 0x30 <= exponent[i] <= 0x39
    requires (mark == [] && exponent == [])
          || (mark in {[0x65], [0x45], [0x65, 0x2B], [0x65, 0x2D], [0x45, 0x2B], [0x45, 0x2D]} && exponent != [])
    requires rest == [] || rest[0] in {0x2C, 0x5D, 0x7D, 0x20}
    ensures ExponentRest(mark + (exponent + rest)) == Some(rest)
  {
    var s := mark + (exponent + rest);
    if mark == [] {
      assert s == rest;
    } else {
      assert s[|mark|..] == exponent + rest;
      assert |mark| == 1 ==> s[1] == exponent[0];
      DigitsEnd(exponent, rest);
    }
  }

  lemma ZeroIsWritten()
    ensures ValueOf(0) == 0.0
  {
    ZeroIsZero();
  }

  /** A number can be written exactly when a finite double equals it, and that double is. */
  lemma NumbersWritten(n: Number)
    ensures NumberOk(n) <==> !n.NotFinite? && exists b: Bits :: ValueOf(b) == RealOf(n)
    ensures NumberOk(n) ==> ValueOf(BitsOf(n)) == RealOf(n)
  {
    hide ValueOf, ExactlyRepresentable;
    match n
    case Integer(i) =>
      MaskIsExact(i);
      if NumberOk(n) {
        CastIsExact(i);
      }
    case NegativeZero =>
      ZeroIsWritten();
      var zero: Bits := 0;
      assert ValueOf(zero) == RealOf(n);
    case Real(b) => assert ValueOf(b) == RealOf(n);
    case NotFinite =>
  }

  lemma NumbersRefused()
    ensures NumberRest([]) == None && NumberRest([0x2B, 0x31]) == None && NumberRest([0x2D]) == None
    ensures NumberRest([0x30, 0x31]) == None && NumberRest([0x2E, 0x31]) == None
    ensures NumberRest([0x31, 0x2E]) == None && NumberRest([0x31, 0x65]) == None
    ensures NumberRest([0x31, 0x65, 0x2B]) == None
    ensures NumberRest([0x31, 0x2E, 0x78]) == None && NumberRest([0x31, 0x45, 0x78]) == None
    ensures NumberRest([0x31, 0x45, 0x2D, 0x78]) == None
  {
    assert [0x31, 0x2E][1..] == [0x2E] && [0x31, 0x65][1..] == [0x65] && [0x31, 0x65, 0x2B][1..] == [0x65, 0x2B];
    assert SkipDigits([0x2E]) == [0x2E] && SkipDigits([0x65]) == [0x65] && SkipDigits([0x65, 0x2B]) == [0x65, 0x2B];
    assert [0x2D][1..] == [] && [0x65, 0x2B][2..] == [];
    assert [0x31, 0x2E, 0x78][1..] == [0x2E, 0x78] && [0x31, 0x45, 0x78][1..] == [0x45, 0x78];
    assert [0x31, 0x45, 0x2D, 0x78][1..] == [0x45, 0x2D, 0x78] && [0x45, 0x2D, 0x78][2..] == [0x78];
    assert [0x45, 0x78][1..] == [0x78];
  }

  /** White space, both cases of hexadecimal digits, and the escapes that only a reader takes. */
  lemma ReaderForms()
    ensures forall u :: Space(u) <==> u in {0x20, 0x09, 0x0A, 0x0D}
    ensures HexUnit([0x30, 0x39, 0x61, 0x46]) == Some(0x09AF) && HexUnit([0x41, 0x66, 0x35, 0x30]) == Some(0xAF50)
    ensures forall u :: HexValue(u).Some? <==> 0x30 <= u <= 0x39 || 0x41 <= u <= 0x46 || 0x61 <= u <= 0x66
    ensures forall u :: Unescape(u).Some? <==> u in {0x22, 0x5C, 0x2F, 0x62, 0x66, 0x6E, 0x72, 0x74}
    ensures Unescape(0x2F) == Some(0x2F) && Unescape(0x22) == Some(0x22) && Unescape(0x5C) == Some(0x5C)
    ensures Unescape(0x62) == Some(0x08) && Unescape(0x66) == Some(0x0C) && Unescape(0x6E) == Some(0x0A)
    ensures Unescape(0x72) == Some(0x0D) && Unescape(0x74) == Some(0x09)
    ensures forall t: Text | t != [] && t[0] !in {0x20, 0x09, 0x0A, 0x0D} :: SkipSpace(t) == t
  {
  }

  function ReadNumber(c: Settings, s: Text, count: nat): (r: Reading<Value>)
    ensures r.Read? ==> |r.rest| < |s| && r.count == count
  {
    var rest := NumberRest(s);
    if rest.None? then Failed
    else
      var lexeme := s[..|s| - |rest.value|];
      var n := c.codec.read(lexeme);
      if |lexeme| > MAXIMUM_LEXEME || LosesValue(lexeme, n) then Failed else Read(Num(n), rest.value, count)
  }

  function ReadLiteral(s: Text, literal: Text, v: Value, count: nat): (r: Reading<Value>)
    requires literal != []
    ensures r.Read? ==> |r.rest| < |s| && r.count == count
  {
    if literal <= s then Read(v, s[|literal|..], count) else Failed
  }

  function ReadValue(c: Settings, s0: Text, depth: nat, count0: nat): (r: Reading<Value>)
    ensures r.Read? ==> |r.rest| < |s0|
    decreases |s0|, 1
  {
    var s, count := SkipSpace(s0), count0 + 1;
    if count > c.maximumValues || s == [] then Failed
    else if s[0] == OPEN_BRACE then ReadObject(c, s, depth, count)
    else if s[0] == OPEN_BRACKET then ReadArray(c, s, depth, count)
    else if s[0] == QUOTE then
      var text := ReadText(c.policy, s[1..], []);
      if text.Failed? then Failed else Read(Str(text.value), text.rest, count)
    else if s[0] == TRUE_TEXT[0] then ReadLiteral(s, TRUE_TEXT, Bool(true), count)
    else if s[0] == FALSE_TEXT[0] then ReadLiteral(s, FALSE_TEXT, Bool(false), count)
    else if s[0] == NULL_TEXT[0] then ReadLiteral(s, NULL_TEXT, Null, count)
    else if s[0] == MINUS || Digit(s[0]) then ReadNumber(c, s, count)
    else Failed
  }

  function ReadArray(c: Settings, s: Text, depth: nat, count: nat): (r: Reading<Value>)
    requires s != []
    ensures r.Read? ==> |r.rest| < |s|
    decreases |s|, 0
  {
    var inside := SkipSpace(s[1..]);
    if depth > c.maximumDepth then Failed
    else if inside != [] && inside[0] == CLOSE_BRACKET then Read(Arr([]), inside[1..], count)
    else ReadItems(c, inside, depth, count, [])
  }

  function ReadItems(c: Settings, s: Text, depth: nat, count: nat, done: seq<Value>): (r: Reading<Value>)
    ensures r.Read? ==> |r.rest| < |s|
    decreases |s|, 2
  {
    var item := ReadValue(c, s, depth + 1, count);
    if item.Failed? then Failed
    else
      var after := SkipSpace(item.rest);
      if after == [] then Failed
      else if after[0] == CLOSE_BRACKET then Read(Arr(done + [item.value]), after[1..], item.count)
      else if after[0] != COMMA then Failed
      else ReadItems(c, after[1..], depth, item.count, done + [item.value])
  }

  function ReadObject(c: Settings, s: Text, depth: nat, count: nat): (r: Reading<Value>)
    requires s != []
    ensures r.Read? ==> |r.rest| < |s| && r.value.Obj?
    decreases |s|, 0
  {
    var inside := SkipSpace(s[1..]);
    if depth > c.maximumDepth then Failed
    else if inside != [] && inside[0] == CLOSE_BRACE then Read(Obj(map[]), inside[1..], count)
    else ReadMembers(c, inside, depth, count, map[])
  }

  function ReadMembers(c: Settings, s0: Text, depth: nat, count: nat, done: map<Text, Value>): (r: Reading<Value>)
    ensures r.Read? ==> |r.rest| < |s0| && r.value.Obj?
    decreases |s0|, 2
  {
    var s := SkipSpace(s0);
    if s == [] || s[0] != QUOTE then Failed
    else
      var key := ReadText(c.policy, s[1..], []);
      if key.Failed? || key.value in done then Failed
      else
        var colon := SkipSpace(key.rest);
        if colon == [] || colon[0] != COLON then Failed
        else
          var item := ReadValue(c, colon[1..], depth + 1, count);
          if item.Failed? then Failed
          else
            var after := SkipSpace(item.rest);
            var members := done[key.value := item.value];
            if after == [] then Failed
            else if after[0] == CLOSE_BRACE then Read(Obj(members), after[1..], item.count)
            else if after[0] != COMMA then Failed
            else ReadMembers(c, after[1..], depth, item.count, members)
  }

  /** A whole text with an object at its root. */
  ghost function ReadRoot(c: Settings, text: Text): Option<Value> {
    var s := SkipSpace(text);
    if s == [] || s[0] != OPEN_BRACE || c.maximumValues < 1 then None
    else
      var root := ReadObject(c, s, 1, 1);
      if root.Failed? || SkipSpace(root.rest) != [] then None else Some(root.value)
  }

  function Unframed(c: Settings, b: Bytes): Option<Bytes> {
    if c.framing == Bare then Some(b)
    else if b == [] || b[|b| - 1] != LINE_FEED then None
    else Some(b[..|b| - 1])
  }

  const BYTE_ORDER_MARK: Bytes := [0xEF, 0xBB, 0xBF]

  ghost function Parsed(c: Settings, b: Bytes): Option<Value> {
    if c.maximumDepth < 0 || c.maximumValues < 0 || |b| > c.maximumBytes then None
    else
      var payload := Unframed(c, b);
      if payload.None? || BYTE_ORDER_MARK <= payload.value then None
      else
        var text := FromUtf8(payload.value);
        if text.None? then None
        else
          var root := ReadRoot(c, text.value);
          if root.Some? && Serialized(c, root.value) == Some(b) then root else None
  }
}
