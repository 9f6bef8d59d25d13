/** Component settings: a schema that is parsed once, and the normaliser that stored and
    requested values go through. Text normalisation is any idempotent map. */
module SettingsNormalization {
  import opened Options
  import opened UnicodeText

  datatype Value =
    | Null
    | Bool(flag: bool)
    | Number(number: real)
    | String(text: Text)
    | Array(items: seq<Value>)
    | Object(fields: map<Text, Value>)

  datatype Scope = ComponentScope | InstanceScope

  datatype Kind = Boolean | Integer | Decimal | PlainText | Enumeration | Color | Keybinding | File | Directory

  datatype EnumOption = EnumOption(value: Text, caption: Text)

  datatype Condition = Condition(key: Text, equals: Value)

  datatype Definition = Definition(
    key: Text,
    scope: Scope,
    kind: Kind,
    group: Text,
    order: int,
    defaultValue: Value,
    minimum: Option<real>,
    maximum: Option<real>,
    step: Option<real>,
    minimumLength: Option<int>,
    maximumLength: Option<int>,
    options: seq<EnumOption>,
    visibleWhen: Option<Condition>)

  /** Text normalisation and the character classes. */
  datatype Unicode = Unicode(nfc: Text -> Text, control: Text -> bool)

  ghost predicate Idempotent(unicode: Unicode) {
    forall t: Text :: unicode.nfc(unicode.nfc(t)) == unicode.nfc(t)
  }

  // ---- One value ----

  const MODIFIERS := Units("modifiers")
  const KEY := Units("key")
  const CTRL := Units("ctrl")
  const ALT := Units("alt")
  const SHIFT := Units("shift")
  const SUPER := Units("super")
  const HYPER := Units("hyper")
  const CANONICAL_MODIFIERS: seq<Text> := [CTRL, ALT, SHIFT, SUPER, HYPER]
  const MAXIMUM_KEY_LENGTH := 64
  const MAXIMUM_SELECTION_LENGTH := 4096
  const MAXIMUM_EXACT_INTEGER := 9007199254740991.0

  function Magnitude(x: real): real {
    if x < 0.0 then -x else x
  }

  predicate ExactInteger(x: real) {
    x.Floor as real == x && Magnitude(x) <= MAXIMUM_EXACT_INTEGER
  }

  function Rounded(x: real): real {
    if x < 0.0 then -((-x + 0.5).Floor as real) else (x + 0.5).Floor as real
  }

  predicate OnStep(d: Definition, number: real)
    requires d.minimum.Some? && d.step.Some?
  {
    var minimum, step := d.minimum.value, d.step.value;
    if d.kind == Integer && ExactInteger(minimum) && ExactInteger(step) && step > 0.0 then
      (number.Floor - minimum.Floor) % step.Floor == 0
    else if step == 0.0 then false
    else
      var offset := (number - minimum) / step;
      Magnitude(offset - Rounded(offset)) <= 0.000000001
  }

  predicate NumberAllowed(d: Definition, number: real) {
    && (d.kind == Integer ==> ExactInteger(number))
    && d.minimum.Some? && d.maximum.Some? && d.minimum.value <= number <= d.maximum.value
    && (d.step.Some? ==> OnStep(d, number))
  }

  predicate TextAllowed(unicode: Unicode, d: Definition, normal: Text) {
    && !unicode.control(normal)
    && d.minimumLength.Some? && d.maximumLength.Some?
    && d.minimumLength.value <= |normal| <= d.maximumLength.value
  }

  predicate HexDigit(u: Unit) {
    0x30 <= u <= 0x39 || 0x41 <= u <= 0x46 || 0x61 <= u <= 0x66
  }

  /** The end of a pattern also matches before one newline. */
  function BeforeNewline(t: Text): Text {
    if t != [] && t[|t| - 1] == 0x0A then t[..|t| - 1] else t
  }

  /** A colour with or without transparency. */
  predicate IsColor(t: Text) {
    ColorBody(BeforeNewline(t))
  }

  predicate ColorBody(body: Text) {
    && (|body| == 7 || |body| == 9) && body[0] == 0x23
    && forall i | 1 <= i < |body| :: HexDigit(body[i])
  }

  function UpperUnit(u: Unit): Unit {
    if 0x61 <= u <= 0x7A then u - 0x20 else u
  }

  function Upper(t: Text): Text {
    seq(|t|, i requires 0 <= i < |t| => UpperUnit(t[i]))
  }

  predicate KeyFits(unicode: Unicode, key: Text) {
    0 < |key| <= MAXIMUM_KEY_LENGTH && !unicode.control(key)
  }

  predicate SelectionFits(unicode: Unicode, selection: Text) {
    |selection| <= MAXIMUM_SELECTION_LENGTH && !unicode.control(selection)
  }

  /** The chosen modifiers in their canonical order. */
  function Ordered(modifiers: seq<Text>, chosen: set<Text>): seq<Value> {
    if modifiers == [] then []
    else
      Ordered(modifiers[..|modifiers| - 1], chosen)
      + (if modifiers[|modifiers| - 1] in chosen then [String(modifiers[|modifiers| - 1])] else [])
  }

  predicate ModifierNames(items: seq<Value>) {
    && (forall i | 0 <= i < |items| :: items[i].String? && items[i].text in CANONICAL_MODIFIERS)
    && (forall i, j | 0 <= i < j < |items| :: items[i] != items[j])
  }

  function Names(items: seq<Value>): set<Text> {
    set i | 0 <= i < |items| && items[i].String? :: items[i].text
  }

  predicate KeybindingAllowed(unicode: Unicode, fields: map<Text, Value>) {
    && fields.Keys == {MODIFIERS, KEY}
    && fields[MODIFIERS].Array? && |fields[MODIFIERS].items| <= 5 && ModifierNames(fields[MODIFIERS].items)
    && fields[KEY].String? && KeyFits(unicode, fields[KEY].text)
  }

  function NormalKeybinding(unicode: Unicode, value: Value): Option<Value> {
    if value.Null? then Some(Null)
    else if value.Object? && KeybindingAllowed(unicode, value.fields) then
      Some(Object(map[
        MODIFIERS := Array(Ordered(CANONICAL_MODIFIERS, Names(value.fields[MODIFIERS].items))),
        KEY := String(unicode.nfc(value.fields[KEY].text))]))
    else None
  }

  /** What a value becomes under a definition, or nothing when it is refused. */
  function Normal(unicode: Unicode, d: Definition, value: Value): Option<Value> {
    match d.kind
    case Boolean => if value.Bool? then Some(value) else None
    case Integer => if value.Number? && NumberAllowed(d, value.number) then Some(value) else None
    case Decimal => if value.Number? && NumberAllowed(d, value.number) then Some(value) else None
    case PlainText =>
      if value.String? && TextAllowed(unicode, d, unicode.nfc(value.text)) then Some(String(unicode.nfc(value.text)))
      else None
    case Enumeration =>
      if value.String? && exists o <- d.options :: o.value == unicode.nfc(value.text) then
        Some(String(unicode.nfc(value.text)))
      else None
    case Color => if value.String? && IsColor(value.text) then Some(String(Upper(value.text))) else None
    case Keybinding => NormalKeybinding(unicode, value)
    case File => NormalSelection(unicode, value)
    case Directory => NormalSelection(unicode, value)
  }

  function NormalSelection(unicode: Unicode, value: Value): Option<Value> {
    if value.Null? then Some(Null)
    else if value.String? && SelectionFits(unicode, value.text) then Some(String(unicode.nfc(value.text)))
    else None
  }

  /** Key names and selections are measured before normalisation; after it they still fit. */
  ghost predicate NormalFits(unicode: Unicode, kind: Kind, value: Value) {
    match kind
    case Keybinding =>
      value.Object? && KEY in value.fields && value.fields[KEY].String? ==>
        KeyFits(unicode, unicode.nfc(value.fields[KEY].text))
    case File => value.String? ==> SelectionFits(unicode, unicode.nfc(value.text))
    case Directory => value.String? ==> SelectionFits(unicode, unicode.nfc(value.text))
    case _ => true
  }

  lemma OrderedMembers(modifiers: seq<Text>, chosen: set<Text>)
    requires forall i, j | 0 <= i < j < |modifiers| :: modifiers[i] != modifiers[j]
    ensures |Ordered(modifiers, chosen)| <= |modifiers|
    ensures forall i | 0 <= i < |Ordered(modifiers, chosen)| ::
      Ordered(modifiers, chosen)[i].String? && Ordered(modifiers, chosen)[i].text in modifiers
    ensures forall i, j | 0 <= i < j < |Ordered(modifiers, chosen)| ::
      Ordered(modifiers, chosen)[i] != Ordered(modifiers, chosen)[j]
    ensures forall t | t in chosen && t in modifiers :: String(t) in Ordered(modifiers, chosen)
    ensures forall v <- Ordered(modifiers, chosen) :: v.String? && v.text in chosen
  {
    if modifiers != [] {
      var n := |modifiers| - 1;
      OrderedMembers(modifiers[..n], chosen);
      assert modifiers == modifiers[..n] + [modifiers[n]];
    }
  }

  lemma CanonicalIsDistinct()
    ensures forall i, j | 0 <= i < j < |CANONICAL_MODIFIERS| :: CANONICAL_MODIFIERS[i] != CANONICAL_MODIFIERS[j]
  {
    assert SHIFT[1] == 'h' as int && SUPER[1] == 'u' as int;
    assert HYPER[0] == 'h' as int && SHIFT[0] == SUPER[0] == 's' as int;
  }

  /** Ordering modifiers again changes nothing. */
  lemma OrderedIsStable(items: seq<Value>)
    requires ModifierNames(items)
    ensures ModifierNames(Ordered(CANONICAL_MODIFIERS, Names(items)))
    ensures |Ordered(CANONICAL_MODIFIERS, Names(items))| <= 5
    ensures Names(Ordered(CANONICAL_MODIFIERS, Names(items))) == Names(items)
  {
    var ordered := Ordered(CANONICAL_MODIFIERS, Names(items));
    CanonicalIsDistinct();
    OrderedMembers(CANONICAL_MODIFIERS, Names(items));
    forall t
      ensures t in Names(ordered) <==> t in Names(items)
    {
      if t in Names(ordered) {
        var i :| 0 <= i < |ordered| && ordered[i].String? && ordered[i].text == t;
        assert ordered[i] in ordered;
      }
      if t in Names(items) {
        assert String(t) in ordered;
        var i :| 0 <= i < |ordered| && ordered[i] == String(t);
      }
    }
  }

  /** Normalising an accepted value again gives the same value, exactly when the normal form of
      its text fits the bounds that are checked before normalisation. */
  lemma NormalIsFixpoint(unicode: Unicode, d: Definition, value: Value)
    requires Idempotent(unicode) && Normal(unicode, d, value).Some?
    ensures
      var normal := Normal(unicode, d, value).value;
      && Normal(unicode, d, normal) == (if NormalFits(unicode, d.kind, value) then Some(normal) else None)
      && NormalFits(unicode, d.kind, normal) == NormalFits(unicode, d.kind, value)
  {
    var normal := Normal(unicode, d, value).value;
    match d.kind
    case Color => UpperIsStable(value.text);
    case Keybinding =>
      if value.Object? {
        OrderedIsStable(value.fields[MODIFIERS].items);
        KeysDiffer();
      }
    case _ =>
  }

  lemma KeysDiffer()
    ensures MODIFIERS != KEY
  {
    assert |MODIFIERS| != |KEY|;
  }

  lemma UpperIsStable(t: Text)
    requires IsColor(t)
    ensures IsColor(Upper(t)) && Upper(Upper(t)) == Upper(t)
  {
    var last := t[|t| - 1];
    assert Upper(t)[|t| - 1] == 0x0A <==> last == 0x0A;
    assert Upper(t)[..|t| - 1] == Upper(t[..|t| - 1]);
    UpperKeepsBody(BeforeNewline(t));
  }

  lemma UpperKeepsBody(body: Text)
    requires ColorBody(body)
    ensures ColorBody(Upper(body))
  {
    forall i | 1 <= i < |body|
      ensures HexDigit(Upper(body)[i])
    {
      assert HexDigit(body[i]);
    }
  }

  // ---- What is accepted ----

  /** An integer setting takes the whole numbers between its bounds that are a multiple of the
      step above the minimum, as far as a double counts exactly. */
  lemma IntegersOnStep(d: Definition, minimum: int, maximum: int, step: int, x: int)
    requires d.kind == Integer && d.minimum == Some(minimum as real) && d.maximum == Some(maximum as real)
    requires d.step == Some(step as real) && 0 < step <= 9007199254740991
    requires -9007199254740991 <= minimum <= 9007199254740991
    ensures NumberAllowed(d, x as real) <==>
        -9007199254740991 <= x <= 9007199254740991 && minimum <= x <= maximum
        && exists k: nat :: x == minimum + k * step
  {
    assert (x as real).Floor == x && (minimum as real).Floor == minimum && (step as real).Floor == step;
    if (x - minimum) % step == 0 && x >= minimum {
      var k: nat := (x - minimum) / step;
      DivisionIsExact(x - minimum, step);
      assert x == minimum + k * step;
    }
    if k: nat :| x == minimum + k * step {
      MultipleIsDivisible(k, step);
    }
  }

  lemma DivisionIsExact(x: int, step: int)
    requires step > 0 && x % step == 0
    ensures x == x / step * step
  {
  }

  lemma MultipleIsDivisible(k: nat, step: int)
    requires step > 0
    ensures k * step % step == 0
  {
    var q, r := k * step / step, k * step % step;
    assert k * step == q * step + r;
    Difference(k, q, step);
    if k > q {
      AtLeastOnce(k - q, step);
    } else if q > k {
      AtLeastOnce(q - k, step);
    }
  }

  lemma Difference(k: int, q: int, step: int)
    ensures (k - q) * step == k * step - q * step && (q - k) * step == q * step - k * step
  {
  }

  lemma {:induction false} AtLeastOnce(n: nat, step: int)
    requires n > 0 && step > 0
    ensures n * step >= step
  {
    if n > 1 {
      AtLeastOnce(n - 1, step);
      Difference(n, 1, step);
    }
  }

  lemma NoFractionIsInteger(d: Definition, number: real)
    requires d.kind == Integer && number.Floor as real != number
    ensures !NumberAllowed(d, number)
  {
  }

  /** Up to a thousand-millionth. */
  ghost predicate Near(x: real, k: int) {
    -0.000000001 <= x - k as real <= 0.000000001
  }

  ghost predicate StepsAbove(minimum: real, step: real, number: real, k: int)
    requires step > 0.0
  {
    Near((number - minimum) / step, k)
  }

  /** A decimal setting with a step takes the numbers between its bounds whose distance from the
      minimum is nearly a whole number of steps. */
  lemma DecimalsOnStep(d: Definition, minimum: real, maximum: real, step: real, number: real)
    requires d.kind == Decimal && d.minimum == Some(minimum) && d.maximum == Some(maximum)
    requires d.step == Some(step) && step > 0.0
    ensures NumberAllowed(d, number) <==>
        minimum <= number <= maximum && exists k: int :: StepsAbove(minimum, step, number, k)
  {
    hide Near, Rounded, Magnitude;
    var offset := (number - minimum) / step;
    RoundedIsWhole(offset);
    RoundedIsNear(offset);
    assert Near(offset, Rounded(offset).Floor) ==> StepsAbove(minimum, step, number, Rounded(offset).Floor);
    if k: int :| StepsAbove(minimum, step, number, k) {
      NearestIsRounded(offset, k);
    }
  }

  lemma RoundedIsWhole(offset: real)
    ensures Rounded(offset).Floor as real == Rounded(offset)
  {
    var n := if offset < 0.0 then -(-offset + 0.5).Floor else (offset + 0.5).Floor;
    assert Rounded(offset) == n as real;
    FloorOfWhole(n, Rounded(offset));
  }

  lemma FloorOfWhole(n: int, x: real)
    requires x == n as real
    ensures x.Floor == n
  {
  }

  lemma RoundedIsNear(offset: real)
    ensures Magnitude(offset - Rounded(offset)) <= 0.000000001 <==> Near(offset, Rounded(offset).Floor)
  {
    hide Rounded;
    RoundedIsWhole(offset);
  }

  lemma NearestIsRounded(offset: real, k: int)
    requires Near(offset, k)
    ensures Rounded(offset) == k as real
  {
    if offset < 0.0 {
      assert (-offset + 0.5).Floor == -k;
    } else {
      assert (offset + 0.5).Floor == k;
    }
  }

  lemma WithoutStep(d: Definition, minimum: real, maximum: real, number: real)
    requires d.kind == Decimal && d.minimum == Some(minimum) && d.maximum == Some(maximum) && d.step == None
    ensures NumberAllowed(d, number) <==> minimum <= number <= maximum
  {
  }

  /** The place of a modifier. */
  ghost function Rank(t: Text): nat {
    if t == Units("ctrl") then 0 else if t == Units("alt") then 1 else if t == Units("shift") then 2
    else if t == Units("super") then 3 else if t == Units("hyper") then 4 else 5
  }

  /** Modifiers come out in the order Ctrl, Alt, Shift, Super, Hyper, whatever order they had. */
  lemma ModifiersAreRanked(chosen: set<Text>)
    ensures forall v <- Ordered(CANONICAL_MODIFIERS, chosen) :: v.String?
    ensures forall i, j | 0 <= i < j < |Ordered(CANONICAL_MODIFIERS, chosen)| ::
        Rank(Ordered(CANONICAL_MODIFIERS, chosen)[i].text) < Rank(Ordered(CANONICAL_MODIFIERS, chosen)[j].text) < 5
    ensures forall t :: String(t) in Ordered(CANONICAL_MODIFIERS, chosen) <==> t in chosen && Rank(t) < 5
  {
    CanonicalIsDistinct();
    CanonicalIsRanked();
    OrderedIsRanked(CANONICAL_MODIFIERS, chosen);
    OrderedMembers(CANONICAL_MODIFIERS, chosen);
  }

  lemma CanonicalIsRanked()
    ensures forall i | 0 <= i < |CANONICAL_MODIFIERS| :: Rank(CANONICAL_MODIFIERS[i]) == i
    ensures forall t :: Rank(t) < 5 <==> t in CANONICAL_MODIFIERS
  {
    CanonicalIsDistinct();
    assert CANONICAL_MODIFIERS[0] == CTRL && CANONICAL_MODIFIERS[1] == ALT && CANONICAL_MODIFIERS[2] == SHIFT;
    assert CANONICAL_MODIFIERS[3] == SUPER && CANONICAL_MODIFIERS[4] == HYPER;
  }

  lemma OrderedIsRanked(modifiers: seq<Text>, chosen: set<Text>)
    requires forall i | 0 <= i < |modifiers| :: Rank(modifiers[i]) == i && i < 5
    ensures forall i | 0 <= i < |Ordered(modifiers, chosen)| ::
        Ordered(modifiers, chosen)[i].String? && Rank(Ordered(modifiers, chosen)[i].text) < |modifiers|
    ensures forall i, j | 0 <= i < j < |Ordered(modifiers, chosen)| ::
        Rank(Ordered(modifiers, chosen)[i].text) < Rank(Ordered(modifiers, chosen)[j].text) < 5
  {
    hide Rank;
    if modifiers != [] {
      var front := modifiers[..|modifiers| - 1];
      assert forall i | 0 <= i < |front| :: front[i] == modifiers[i];
      OrderedIsRanked(front, chosen);
    }
  }

  /** A colour is a number sign and six or eight hexadecimal digits, perhaps before a newline; it
      comes out in upper case. */
  lemma ColorsAreHexadecimal(body: Text, t: Text)
    requires t == body || t == body + [0x0A]
    requires body != [] && body[|body| - 1] != 0x0A
    ensures IsColor(t) <==>
        (|body| == 7 || |body| == 9) && body[0] == 0x23
        && forall i | 1 <= i < |body| :: 0x30 <= body[i] <= 0x39 || 0x41 <= body[i] <= 0x46 || 0x61 <= body[i] <= 0x66
    ensures IsColor(t) ==> forall i | 0 <= i < |t| :: Upper(t)[i] == if t[i] >= 0x61 then t[i] - 0x20 else t[i]
  {
    assert BeforeNewline(t) == body by {
      assert (body + [0x0A])[..|body|] == body;
    }
  }

  /** A number is accepted as it is, exactly when it is allowed; a choice exactly when its normal
      form is the value of an option; a truth value always. */
  lemma NumbersAndChoices(unicode: Unicode, d: Definition, value: Value)
    ensures d.kind in {Integer, Decimal} ==>
        Normal(unicode, d, value) == if value.Number? && NumberAllowed(d, value.number) then Some(value) else None
    ensures d.kind == Enumeration ==>
        forall v :: Normal(unicode, d, value) == Some(v) <==>
          && value.String? && v == String(unicode.nfc(value.text))
          && exists i: nat :: i < |d.options| && d.options[i].value == v.text
    ensures d.kind == Boolean ==> Normal(unicode, d, value) == if value.Bool? then Some(value) else None
  {
    hide NumberAllowed;
    assert forall o :: o in d.options <==> exists i: nat :: i < |d.options| && d.options[i] == o;
  }

  /** A step of zero accepts nothing, and in an integer setting that does not start at an exact
      integer the steps are counted as in a decimal one. */
  lemma OtherSteps(d: Definition, minimum: real, maximum: real, step: real, number: real)
    requires d.kind == Integer && d.minimum == Some(minimum) && d.maximum == Some(maximum) && d.step == Some(step)
    ensures step == 0.0 ==> !NumberAllowed(d, number)
    ensures step > 0.0 && !ExactInteger(minimum) ==>
        (NumberAllowed(d, number) <==> ExactInteger(number) && NumberAllowed(d.(kind := Decimal), number))
  {
    hide ExactInteger, Rounded, Magnitude;
  }

  /** The lengths that are accepted, and where they are taken: a text's of its normal form, a
      key name's and a selection's of what was given. */
  lemma TextsAreMeasured(unicode: Unicode, d: Definition, t: Text)
    requires d.minimumLength.Some? && d.maximumLength.Some?
    ensures d.kind == PlainText ==>
        (Normal(unicode, d, String(t)) == Some(String(unicode.nfc(t))) <==>
           d.minimumLength.value <= |unicode.nfc(t)| <= d.maximumLength.value && !unicode.control(unicode.nfc(t)))
    ensures d.kind == File || d.kind == Directory ==>
        (Normal(unicode, d, String(t)) == Some(String(unicode.nfc(t))) <==> |t| <= 4096 && !unicode.control(t))
    ensures KeyFits(unicode, t) <==> 1 <= |t| <= 64 && !unicode.control(t)
    ensures d.kind in {File, Directory, Keybinding} ==> Normal(unicode, d, Null) == Some(Null)
    ensures d.kind !in {File, Directory, Keybinding} ==> Normal(unicode, d, Null) == None
  {
  }

  /** A key binding has exactly its two fields: different known modifiers and one key name. */
  lemma BindingsAreMade(unicode: Unicode, d: Definition, modifiers: seq<Value>, key: Text)
    requires d.kind == Keybinding
    ensures
      var binding := Object(map[Units("modifiers") := Array(modifiers), Units("key") := String(key)]);
      Normal(unicode, d, binding) ==
        if (forall i | 0 <= i < |modifiers| :: modifiers[i].String? && Rank(modifiers[i].text) < 5)
           && (forall i, j | 0 <= i < j < |modifiers| :: modifiers[i] != modifiers[j]) && |modifiers| <= 5
           && 1 <= |key| <= 64 && !unicode.control(key) then
          Some(Object(map[Units("modifiers") := Array(Ordered(CANONICAL_MODIFIERS, Names(modifiers))),
                          Units("key") := String(unicode.nfc(key))]))
        else None
  {
    KeysDiffer();
    CanonicalIsRanked();
    hide Rank, Ordered, Names;
    var fields := map[MODIFIERS := Array(modifiers), KEY := String(key)];
    assert fields.Keys == {MODIFIERS, KEY};
    assert fields[MODIFIERS] == Array(modifiers) && fields[KEY] == String(key);
  }

  // ---- Where the normal form does not fit ----

  /** The composition-excluded letter U+0958 has a two-unit normal form; elsewhere the identity. */
  ghost function ExcludedNfc(t: Text): Text {
    if t == [] then []
    else (if t[0] == 0x0958 then [0x0915, 0x093C] else [t[0]]) + ExcludedNfc(t[1..])
  }

  ghost function Repeated(u: Unit, count: nat): Text {
    seq(count, i => u)
  }

  lemma {:induction false} ExcludedNfcOfRepeated(count: nat)
    ensures |ExcludedNfc(Repeated(0x0958, count))| == 2 * count
  {
    if count > 0 {
      ExcludedNfcOfRepeated(count - 1);
      assert Repeated(0x0958, count)[1..] == Repeated(0x0958, count - 1);
    }
  }

  lemma {:induction false} ExcludedNfcIsIdempotent(t: Text)
    ensures 0x0958 !in ExcludedNfc(t) && ExcludedNfc(ExcludedNfc(t)) == ExcludedNfc(t)
  {
    if t != [] {
      var head: Text, tail := if t[0] == 0x0958 then [0x0915, 0x093C] else [t[0]], ExcludedNfc(t[1..]);
      ExcludedNfcIsIdempotent(t[1..]);
      if t[0] == 0x0958 {
        assert (head + tail)[1..] == [0x093C] + tail && ([0x093C as Unit] + tail)[1..] == tail;
      } else {
        assert (head + tail)[1..] == tail;
      }
    }
  }

  /** A key name of 64 such letters is accepted and its normal form refused. */
  lemma KeyNameMayOutgrowItsBound(d: Definition) returns (unicode: Unicode, value: Value)
    requires d.kind == Keybinding
    ensures unicode == ExcludedUnicode() && value == ExcludedBinding()
    ensures Idempotent(unicode) && Normal(unicode, d, value).Some?
    ensures Normal(unicode, d, Normal(unicode, d, value).value) == None
  {
    unicode, value := ExcludedUnicode(), ExcludedBinding();
    forall t: Text
      ensures unicode.nfc(unicode.nfc(t)) == unicode.nfc(t)
    {
      ExcludedNfcIsIdempotent(t);
    }
    KeysDiffer();
    assert KeybindingAllowed(unicode, value.fields);
    ExcludedNfcOfRepeated(64);
    NormalIsFixpoint(unicode, d, value);
  }

  ghost function ExcludedUnicode(): Unicode {
    Unicode(ExcludedNfc, t => false)
  }

  ghost function ExcludedBinding(): Value {
    Object(map[MODIFIERS := Array([]), KEY := String(Repeated(0x0958, 64))])
  }
}
