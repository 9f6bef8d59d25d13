/** Reading a settings schema from its JSON object, with one growing list of errors. */
module SchemaParser {
  import opened Options
  import opened UnicodeText
  import opened SettingsNormalization
  import opened SettingsSchema

  const NAME := Units("key")
  const SCOPE := Units("scope")
  const TYPE := Units("type")
  const CAPTION := Units("label")
  const DESCRIPTION := Units("description")
  const GROUP := Units("group")
  const ORDER := Units("order")
  const DEFAULT := Units("default")
  const VISIBLE_WHEN := Units("visibleWhen")
  const EQUALS := Units("equals")
  const MINIMUM := Units("minimum")
  const MAXIMUM := Units("maximum")
  const STEP := Units("step")
  const MINIMUM_LENGTH := Units("minimumLength")
  const MAXIMUM_LENGTH := Units("maximumLength")
  const OPTIONS := Units("options")
  const VALUE := Units("value")
  const SCHEMA_VERSION := Units("schemaVersion")
  const SETTINGS := Units("settings")

  // ---- What a schema must give, and what it is read as ----

  predicate TextGiven(rules: Rules, fields: map<Text, Value>, key: Text, maximum: nat) {
    key in fields && fields[key].String? && TextSettled(rules, rules.unicode.nfc(fields[key].text), maximum)
  }

  function NormalText(rules: Rules, fields: map<Text, Value>, key: Text): Text
    requires key in fields && fields[key].String?
  {
    rules.unicode.nfc(fields[key].text)
  }

  predicate NumberGiven(fields: map<Text, Value>, key: Text) {
    key in fields && fields[key].Number?
  }

  predicate IntegerGiven(fields: map<Text, Value>, key: Text, low: int, high: int) {
    NumberGiven(fields, key) && ExactInteger(fields[key].number) && low as real <= fields[key].number <= high as real
  }

  predicate OptionGiven(rules: Rules, item: Value) {
    && item.Object? && item.fields.Keys <= {VALUE, CAPTION}
    && TextGiven(rules, item.fields, VALUE, 128) && TextGiven(rules, item.fields, CAPTION, 128)
  }

  function OptionOf(rules: Rules, item: Value): EnumOption
    requires OptionGiven(rules, item)
  {
    EnumOption(NormalText(rules, item.fields, VALUE), NormalText(rules, item.fields, CAPTION))
  }

  /** Well-formed options with distinct values. */
  predicate OptionsRead(rules: Rules, items: seq<Value>) {
    && (forall i | 0 <= i < |items| :: OptionGiven(rules, items[i]))
    && forall i, j | 0 <= i < j < |items| :: OptionOf(rules, items[i]).value != OptionOf(rules, items[j]).value
  }

  function OptionsOf(rules: Rules, items: seq<Value>): seq<EnumOption>
    requires OptionsRead(rules, items)
  {
    seq(|items|, i requires 0 <= i < |items| => OptionOf(rules, items[i]))
  }

  predicate OptionsGiven(rules: Rules, fields: map<Text, Value>) {
    OPTIONS in fields && fields[OPTIONS].Array? && 1 <= |fields[OPTIONS].items| <= 64
    && OptionsRead(rules, fields[OPTIONS].items)
  }

  predicate BoundsGiven(fields: map<Text, Value>, kind: Kind) {
    && NumberGiven(fields, MINIMUM) && NumberGiven(fields, MAXIMUM)
    && fields[MINIMUM].number <= fields[MAXIMUM].number
    && (kind == Integer ==> ExactInteger(fields[MINIMUM].number) && ExactInteger(fields[MAXIMUM].number))
    && (STEP in fields ==> StepGiven(fields, kind))
  }

  predicate StepGiven(fields: map<Text, Value>, kind: Kind) {
    && NumberGiven(fields, STEP) && fields[STEP].number > 0.0
    && (kind == Integer ==> ExactInteger(fields[STEP].number))
  }

  function Bounded(fields: map<Text, Value>, d: Definition): Definition
    requires BoundsGiven(fields, d.kind)
  {
    d.(minimum := Some(fields[MINIMUM].number), maximum := Some(fields[MAXIMUM].number),
       step := if STEP in fields then Some(fields[STEP].number) else None)
  }

  predicate LengthsGiven(fields: map<Text, Value>) {
    && (MINIMUM_LENGTH in fields ==> IntegerGiven(fields, MINIMUM_LENGTH, 0, 4096))
    && IntegerGiven(fields, MAXIMUM_LENGTH, 1, 4096)
    && LeastLength(fields) <= fields[MAXIMUM_LENGTH].number.Floor
  }

  function LeastLength(fields: map<Text, Value>): int {
    if NumberGiven(fields, MINIMUM_LENGTH) then fields[MINIMUM_LENGTH].number.Floor else 0
  }

  function Measured(fields: map<Text, Value>, d: Definition): Definition
    requires LengthsGiven(fields)
  {
    d.(minimumLength := Some(LeastLength(fields)), maximumLength := Some(fields[MAXIMUM_LENGTH].number.Floor))
  }

  predicate HeadGiven(rules: Rules, fields: map<Text, Value>) {
    && TextGiven(rules, fields, NAME, 64) && IsSettingKey(NormalText(rules, fields, NAME))
    && TextGiven(rules, fields, SCOPE, 16) && ScopeOf(NormalText(rules, fields, SCOPE)).Some?
    && TextGiven(rules, fields, TYPE, 16) && KindOf(NormalText(rules, fields, TYPE)).Some?
    && TextGiven(rules, fields, CAPTION, 128) && TextGiven(rules, fields, DESCRIPTION, 1024)
    && TextGiven(rules, fields, GROUP, 64) && IsGroup(NormalText(rules, fields, GROUP))
    && IntegerGiven(fields, ORDER, 0, 100000)
    && DEFAULT in fields
  }

  function HeadOf(rules: Rules, fields: map<Text, Value>): Definition
    requires HeadGiven(rules, fields)
  {
    Definition(
      NormalText(rules, fields, NAME), ScopeOf(NormalText(rules, fields, SCOPE)).value,
      KindOf(NormalText(rules, fields, TYPE)).value, NormalText(rules, fields, GROUP), fields[ORDER].number.Floor,
      fields[DEFAULT], None, None, None, None, None, [], None)
  }

  const BASE_FIELDS := {NAME, SCOPE, TYPE, CAPTION, DESCRIPTION, GROUP, ORDER, DEFAULT, VISIBLE_WHEN}

  function AllowedFields(kind: Kind): set<Text> {
    if Numeric(kind) then BASE_FIELDS + {MINIMUM, MAXIMUM, STEP}
    else if kind == PlainText then BASE_FIELDS + {MINIMUM_LENGTH, MAXIMUM_LENGTH}
    else if kind == Enumeration then BASE_FIELDS + {OPTIONS}
    else BASE_FIELDS
  }

  predicate DetailsGiven(rules: Rules, fields: map<Text, Value>, kind: Kind) {
    && fields.Keys <= AllowedFields(kind)
    && (Numeric(kind) ==> BoundsGiven(fields, kind))
    && (kind == PlainText ==> LengthsGiven(fields))
    && (kind == Enumeration ==> OptionsGiven(rules, fields))
  }

  function Detailed(rules: Rules, fields: map<Text, Value>, d: Definition): Definition
    requires DetailsGiven(rules, fields, d.kind)
  {
    if Numeric(d.kind) then Bounded(fields, d)
    else if d.kind == PlainText then Measured(fields, d)
    else if d.kind == Enumeration then d.(options := OptionsOf(rules, fields[OPTIONS].items))
    else d
  }

  predicate ConditionGiven(rules: Rules, fields: map<Text, Value>) {
    VISIBLE_WHEN in fields ==>
      && fields[VISIBLE_WHEN].Object? && fields[VISIBLE_WHEN].fields.Keys <= {NAME, EQUALS}
      && EQUALS in fields[VISIBLE_WHEN].fields && TextGiven(rules, fields[VISIBLE_WHEN].fields, NAME, 64)
  }

  function ConditionOf(rules: Rules, fields: map<Text, Value>): Option<Condition>
    requires ConditionGiven(rules, fields)
  {
    if VISIBLE_WHEN !in fields then None
    else
      var given := fields[VISIBLE_WHEN].fields;
      Some(Condition(NormalText(rules, given, NAME), given[EQUALS]))
  }

  /** A definition with its default normalised under it; files and directories have none. */
  function WithDefault(rules: Rules, d: Definition): Option<Definition> {
    var normal := Normal(rules.unicode, d, d.defaultValue);
    if normal.None? || (Selects(d.kind) && normal.value != Null) then None
    else Some(d.(defaultValue := normal.value))
  }

  function ReadDefinition(rules: Rules, value: Value): Option<Definition> {
    if value.Object? && HeadGiven(rules, value.fields)
       && DetailsGiven(rules, value.fields, HeadOf(rules, value.fields).kind)
       && ConditionGiven(rules, value.fields) then
      WithDefault(rules, Detailed(rules, value.fields, HeadOf(rules, value.fields)).(
                    visibleWhen := ConditionOf(rules, value.fields)))
    else None
  }

  /** The condition of a definition, normalised as a value of the setting it refers to. */
  function Resolved(rules: Rules, settings: seq<Definition>, d: Definition): Option<Definition> {
    if d.visibleWhen.None? then Some(d)
    else
      var condition := d.visibleWhen.value;
      var previous := Find(settings, condition.key);
      if previous.None? || previous.value.scope != d.scope
         || previous.value.kind == Keybinding || Selects(previous.value.kind) then None
      else
        var normal := Normal(rules.unicode, previous.value, condition.equals);
        if normal.None? then None else Some(d.(visibleWhen := Some(condition.(equals := normal.value))))
  }

  function KeysOf(settings: seq<Definition>): set<Text> {
    set d | d in settings :: d.key
  }

  lemma KeysOfMore(settings: seq<Definition>, d: Definition)
    ensures KeysOf(settings + [d]) == KeysOf(settings) + {d.key}
  {
    assert forall e :: e in settings + [d] <==> e in settings || e == d;
    assert d in settings + [d];
  }

  function ReadSettings(rules: Rules, items: seq<Value>): (settings: Option<seq<Definition>>)
    ensures settings.Some? ==> |settings.value| == |items|
  {
    if items == [] then Some([])
    else
      var front := ReadSettings(rules, items[..|items| - 1]);
      var d := ReadDefinition(rules, items[|items| - 1]);
      if front.None? || d.None? || d.value.key in KeysOf(front.value) then None
      else
        var resolved := Resolved(rules, front.value, d.value);
        if resolved.None? then None else Some(front.value + [resolved.value])
  }

  ghost predicate SchemaFields(fields: map<Text, Value>) {
    && fields.Keys <= {SCHEMA_VERSION, SETTINGS} && IntegerGiven(fields, SCHEMA_VERSION, 1, 1)
    && SETTINGS in fields && fields[SETTINGS].Array? && |fields[SETTINGS].items| <= MAXIMUM_SETTINGS
  }

  /** The settings of an accepted schema. */
  ghost function ReadSchema(rules: Rules, fields: map<Text, Value>): Option<seq<Definition>> {
    if SchemaFields(fields) then ReadSettings(rules, fields[SETTINGS].items) else None
  }

  // ---- The fields by their names ----

  /** The text at a field, in normal form, is not empty, trimmed and no longer than that. */
  ghost predicate Written(rules: Rules, fields: map<Text, Value>, key: Text, maximum: nat) {
    && key in fields && fields[key].String?
    && var t := rules.unicode.nfc(fields[key].text);
       1 <= |t| <= maximum && rules.trim(t) == t && !rules.disallowed(t)
  }

  ghost predicate WholeNumber(fields: map<Text, Value>, key: Text, low: int, high: int) {
    && key in fields && fields[key].Number? && low <= fields[key].number.Floor <= high
    && fields[key].number == fields[key].number.Floor as real
  }

  lemma IntegersAreWhole(fields: map<Text, Value>, key: Text, low: int, high: int)
    requires -9007199254740991 <= low && high <= 9007199254740991
    ensures IntegerGiven(fields, key, low, high) <==> WholeNumber(fields, key, low, high)
  {
  }

  /** Every definition has these fields, and its own text at each. */
  lemma HeadsAre(rules: Rules, fields: map<Text, Value>)
    ensures HeadGiven(rules, fields) <==>
        (&& Written(rules, fields, Units("key"), 64) && IsSettingKey(rules.unicode.nfc(fields[Units("key")].text))
         && Written(rules, fields, Units("scope"), 16)
         && rules.unicode.nfc(fields[Units("scope")].text) in {Units("component"), Units("instance")}
         && Written(rules, fields, Units("type"), 16) && KindOf(rules.unicode.nfc(fields[Units("type")].text)).Some?
         && Written(rules, fields, Units("label"), 128) && Written(rules, fields, Units("description"), 1024)
         && Written(rules, fields, Units("group"), 64) && IsGroup(rules.unicode.nfc(fields[Units("group")].text))
         && WholeNumber(fields, Units("order"), 0, 100000) && Units("default") in fields)
  {
    hide Units, KindOf, IsSettingKey, IsGroup, WholeNumber, IntegerGiven;
    IntegersAreWhole(fields, Units("order"), 0, 100000);
  }

  lemma HeadsGive(rules: Rules, fields: map<Text, Value>)
    requires HeadGiven(rules, fields)
    ensures var d := HeadOf(rules, fields);
      && d.key == rules.unicode.nfc(fields[Units("key")].text)
      && d.group == rules.unicode.nfc(fields[Units("group")].text)
      && Some(d.scope) == ScopeOf(rules.unicode.nfc(fields[Units("scope")].text))
      && Some(d.kind) == KindOf(rules.unicode.nfc(fields[Units("type")].text))
      && d.order as real == fields[Units("order")].number && d.defaultValue == fields[Units("default")]
  {
    hide Units, KindOf, ScopeOf, IsSettingKey, IsGroup;
  }

  /** Beside these, numbers may have bounds and a step, text lengths, an enumeration its options,
      and everything a condition; nothing else is allowed. */
  lemma DetailsAre(rules: Rules, fields: map<Text, Value>, kind: Kind)
    ensures DetailsGiven(rules, fields, kind) <==>
        (&& fields.Keys <= {Units("key"), Units("scope"), Units("type"), Units("label"), Units("description"),
                            Units("group"), Units("order"), Units("default"), Units("visibleWhen")}
              + (if kind in {Integer, Decimal} then {Units("minimum"), Units("maximum"), Units("step")} else {})
              + (if kind == PlainText then {Units("minimumLength"), Units("maximumLength")} else {})
              + (if kind == Enumeration then {Units("options")} else {})
         && (kind in {Integer, Decimal} ==> BoundsGiven(fields, kind))
         && (kind == PlainText ==> LengthsGiven(fields))
         && (kind == Enumeration ==> OptionsGiven(rules, fields)))
  {
    hide Units, BoundsGiven, LengthsGiven, OptionsGiven;
  }

  lemma NumbersAre(fields: map<Text, Value>, kind: Kind, d: Definition)
    requires kind == d.kind
    ensures BoundsGiven(fields, kind) <==>
        (&& Units("minimum") in fields && fields[Units("minimum")].Number?
         && Units("maximum") in fields && fields[Units("maximum")].Number?
         && fields[Units("minimum")].number <= fields[Units("maximum")].number
         && (Units("step") in fields ==> fields[Units("step")].Number? && fields[Units("step")].number > 0.0)
         && (kind == Integer ==>
               && ExactInteger(fields[Units("minimum")].number) && ExactInteger(fields[Units("maximum")].number)
               && (Units("step") in fields ==> ExactInteger(fields[Units("step")].number))))
    ensures BoundsGiven(fields, kind) ==>
        Bounded(fields, d) == d.(minimum := Some(fields[Units("minimum")].number),
                                 maximum := Some(fields[Units("maximum")].number),
                                 step := if Units("step") in fields then Some(fields[Units("step")].number) else None)
  {
    hide Units, ExactInteger;
  }

  lemma LengthsAre(fields: map<Text, Value>, d: Definition)
    ensures LengthsGiven(fields) <==>
        (&& WholeNumber(fields, Units("maximumLength"), 1, 4096)
         && (Units("minimumLength") in fields ==>
               && WholeNumber(fields, Units("minimumLength"), 0, 4096)
               && fields[Units("minimumLength")].number <= fields[Units("maximumLength")].number))
    ensures LengthsGiven(fields) ==>
        && Measured(fields, d) == d.(minimumLength := Measured(fields, d).minimumLength,
                                     maximumLength := Measured(fields, d).maximumLength)
        && Measured(fields, d).maximumLength == Some(fields[Units("maximumLength")].number.Floor)
        && Measured(fields, d).minimumLength ==
             Some(if Units("minimumLength") in fields then fields[Units("minimumLength")].number.Floor else 0)
  {
    hide Units, WholeNumber;
    IntegersAreWhole(fields, Units("maximumLength"), 1, 4096);
    IntegersAreWhole(fields, Units("minimumLength"), 0, 4096);
    if Units("minimumLength") in fields && IntegerGiven(fields, Units("minimumLength"), 0, 4096)
       && IntegerGiven(fields, Units("maximumLength"), 1, 4096) {
      assert LeastLength(fields) as real == fields[Units("minimumLength")].number;
    }
  }

  /** One to 64 options, each a value and a label and nothing else, with distinct values. */
  lemma OptionsAre(rules: Rules, fields: map<Text, Value>)
    ensures OptionsGiven(rules, fields) <==>
        (&& Units("options") in fields && fields[Units("options")].Array?
         && 1 <= |fields[Units("options")].items| <= 64
         && (forall item <- fields[Units("options")].items :: OptionWritten(rules, item))
         && var items := fields[Units("options")].items;
            forall i, j | 0 <= i < j < |items| ::
              OptionText(rules, items[i], Units("value")) != OptionText(rules, items[j], Units("value")))
    ensures OptionsGiven(rules, fields) ==>
        var items := fields[Units("options")].items;
        && |OptionsOf(rules, items)| == |items|
        && forall i | 0 <= i < |items| ::
             && OptionsOf(rules, items)[i].value == OptionText(rules, items[i], Units("value"))
             && OptionsOf(rules, items)[i].caption == OptionText(rules, items[i], Units("label"))
  {
    hide Units, OptionGiven, OptionWritten;
    if OPTIONS in fields && fields[OPTIONS].Array? {
      forall i | 0 <= i < |fields[OPTIONS].items|
        ensures OptionGiven(rules, fields[OPTIONS].items[i]) <==> OptionWritten(rules, fields[OPTIONS].items[i])
        ensures fields[OPTIONS].items[i] in fields[OPTIONS].items
      {
        OptionIsWritten(rules, fields[OPTIONS].items[i]);
      }
    }
  }

  ghost predicate OptionWritten(rules: Rules, item: Value) {
    && item.Object? && item.fields.Keys == {Units("value"), Units("label")}
    && Written(rules, item.fields, Units("value"), 128) && Written(rules, item.fields, Units("label"), 128)
  }

  ghost function OptionText(rules: Rules, item: Value, key: Text): Text
    requires OptionWritten(rules, item) && key in {Units("value"), Units("label")}
  {
    rules.unicode.nfc(item.fields[key].text)
  }

  lemma OptionIsWritten(rules: Rules, item: Value)
    ensures OptionGiven(rules, item) <==> OptionWritten(rules, item)
  {
    hide Units;
  }

  /** A default is what its value becomes under the definition; a file or directory has none. */
  lemma DefaultsAre(rules: Rules, d: Definition, e: Definition)
    ensures WithDefault(rules, d) == Some(e) <==>
        (&& e.(defaultValue := Null) == d.(defaultValue := Null)
         && Normal(rules.unicode, d, d.defaultValue) == Some(e.defaultValue)
         && (d.kind in {File, Directory} ==> e.defaultValue == Null))
  {
    hide Normal;
  }

  lemma ConditionsAre(rules: Rules, fields: map<Text, Value>)
    ensures ConditionGiven(rules, fields) <==>
        (Units("visibleWhen") in fields ==>
           && fields[Units("visibleWhen")].Object?
           && fields[Units("visibleWhen")].fields.Keys == {Units("key"), Units("equals")}
           && Written(rules, fields[Units("visibleWhen")].fields, Units("key"), 64))
  {
    hide Units;
  }

  lemma SchemasAre(fields: map<Text, Value>)
    ensures SchemaFields(fields) <==>
        (&& fields.Keys == {Units("schemaVersion"), Units("settings")}
         && fields[Units("schemaVersion")] == Number(1.0)
         && fields[Units("settings")].Array? && |fields[Units("settings")].items| <= 128)
  {
    hide Units;
  }

  // ---- What is read is settled ----

  ghost predicate HeadSettled(rules: Rules, d: Definition) {
    && TextSettled(rules, d.key, 64) && IsSettingKey(d.key)
    && TextSettled(rules, d.group, 64) && IsGroup(d.group)
    && 0 <= d.order <= 100000
  }

  ghost predicate DetailsSettled(rules: Rules, d: Definition) {
    && (Numeric(d.kind) ==> BoundsSettled(d))
    && (d.kind == PlainText ==> LengthsSettled(d))
    && (d.kind == Enumeration ==> OptionsSettled(rules, d.options))
  }

  ghost predicate SameHead(d: Definition, e: Definition) {
    d.key == e.key && d.group == e.group && d.order == e.order && d.kind == e.kind && d.scope == e.scope
  }

  lemma SettledFrom(rules: Rules, head: Definition, detailed: Definition, conditional: Definition, d: Definition)
    requires HeadSettled(rules, head) && SameHead(head, detailed) && DetailsSettled(rules, detailed)
    requires conditional == detailed.(visibleWhen := conditional.visibleWhen)
    requires d == conditional.(defaultValue := d.defaultValue)
    requires Normal(rules.unicode, conditional, conditional.defaultValue) == Some(d.defaultValue)
    requires Selects(d.kind) ==> d.defaultValue == Null
    ensures Settled(rules, d)
  {
    NormalIgnoresTheRest(rules.unicode, conditional, d, conditional.defaultValue);
  }

  /** Neither the default nor the condition of a definition bears on its values. */
  lemma NormalIgnoresTheRest(unicode: Unicode, d: Definition, e: Definition, value: Value)
    requires e == d.(defaultValue := e.defaultValue, visibleWhen := e.visibleWhen)
    ensures Normal(unicode, d, value) == Normal(unicode, e, value)
  {
  }

  lemma SettledBesideCondition(rules: Rules, d: Definition, resolved: Definition)
    requires Settled(rules, d) && resolved == d.(visibleWhen := resolved.visibleWhen)
    ensures Settled(rules, resolved)
  {
    var given :| Normal(rules.unicode, d, given) == Some(d.defaultValue);
    NormalIgnoresTheRest(rules.unicode, d, resolved, given);
  }

  lemma SchemaGrows(rules: Rules, settings: seq<Definition>, d: Definition)
    requires SchemaSettled(rules, settings) && |settings| < MAXIMUM_SETTINGS && Settled(rules, d)
    requires forall e <- settings :: e.key != d.key
    requires d.visibleWhen.Some? ==> exists previous <- settings :: ReferenceSettled(rules, d, previous)
    ensures SchemaSettled(rules, settings + [d])
  {
    hide Settled, ReferenceSettled;
    var more := settings + [d];
    forall i | 0 <= i < |more|
      ensures ConditionSettled(rules, more, i)
    {
      if i < |settings| {
        assert ConditionSettled(rules, settings, i);
        if more[i].visibleWhen.Some? {
          var j :| 0 <= j < i && ReferenceSettled(rules, settings[i], settings[j]);
          assert ReferenceSettled(rules, more[i], more[j]);
        }
      } else if d.visibleWhen.Some? {
        var previous :| previous in settings && ReferenceSettled(rules, d, previous);
        var j :| 0 <= j < |settings| && settings[j] == previous;
        assert ReferenceSettled(rules, more[i], more[j]);
      }
    }
  }

  lemma DetailedIsSettled(rules: Rules, fields: map<Text, Value>, d: Definition)
    requires DetailsGiven(rules, fields, d.kind)
    ensures SameHead(d, Detailed(rules, fields, d)) && DetailsSettled(rules, Detailed(rules, fields, d))
  {
    hide ExactInteger;
    if d.kind == PlainText {
      IntegerIsItsFloor(fields, MAXIMUM_LENGTH, 1, 4096);
      if MINIMUM_LENGTH in fields {
        IntegerIsItsFloor(fields, MINIMUM_LENGTH, 0, 4096);
      }
    }
  }

  lemma IntegerIsItsFloor(fields: map<Text, Value>, key: Text, low: int, high: int)
    requires IntegerGiven(fields, key, low, high)
    ensures low <= fields[key].number.Floor <= high
  {
  }

  lemma DefinitionIsSettled(rules: Rules, value: Value)
    requires ReadDefinition(rules, value).Some?
    ensures Settled(rules, ReadDefinition(rules, value).value)
  {
    hide Normal, DetailsGiven, DetailsSettled, Detailed, IsSettingKey, IsGroup;
    var head := HeadOf(rules, value.fields);
    var detailed := Detailed(rules, value.fields, head);
    DetailedIsSettled(rules, value.fields, head);
    IntegerIsItsFloor(value.fields, ORDER, 0, 100000);
    var conditional := detailed.(visibleWhen := ConditionOf(rules, value.fields));
    SettledFrom(rules, head, detailed, conditional, ReadDefinition(rules, value).value);
  }

  lemma ResolvedIsSettled(rules: Rules, settings: seq<Definition>, d: Definition)
    requires Settled(rules, d) && Resolved(rules, settings, d).Some?
    ensures
      var resolved := Resolved(rules, settings, d).value;
      && Settled(rules, resolved) && resolved == d.(visibleWhen := resolved.visibleWhen)
      && (resolved.visibleWhen.Some? ==> exists previous <- settings :: ReferenceSettled(rules, resolved, previous))
  {
    hide Normal, Settled;
    var resolved := Resolved(rules, settings, d).value;
    SettledBesideCondition(rules, d, resolved);
    if resolved.visibleWhen.Some? {
      assert ReferenceSettled(rules, resolved, Find(settings, d.visibleWhen.value.key).value);
    }
  }

  /** What is read has unique keys, defaults that are normal values, and conditions on earlier
      settings of the same scope. */
  lemma {:induction false} ReadIsSettled(rules: Rules, items: seq<Value>)
    requires |items| <= MAXIMUM_SETTINGS && ReadSettings(rules, items).Some?
    ensures SchemaSettled(rules, ReadSettings(rules, items).value)
  {
    hide Settled, ReadDefinition, Resolved, ReferenceSettled;
    if items != [] {
      var n := |items| - 1;
      ReadIsSettled(rules, items[..n]);
      var front, d := ReadSettings(rules, items[..n]).value, ReadDefinition(rules, items[n]).value;
      DefinitionIsSettled(rules, items[n]);
      ResolvedIsSettled(rules, front, d);
      SchemaGrows(rules, front, Resolved(rules, front, d).value);
    }
  }

  // ---- The parser ----

  class Parser {
    const rules: Rules
    var errors: seq<string>

    constructor (rules: Rules)
      ensures this.rules == rules && errors == []
    {
      this.rules := rules;
      errors := [];
    }

    method Report(code: string)
      modifies this
      ensures errors == old(errors) + [code]
    {
      errors := errors + [code];
    }

    method RejectUnknownFields(fields: map<Text, Value>, allowed: set<Text>)
      modifies this
      ensures old(errors) <= errors
      ensures errors == old(errors) <==> fields.Keys <= allowed
    {
      var more := UnknownFields(fields, allowed);
      errors := errors + more;
    }

    method RequiredText(fields: map<Text, Value>, key: Text, maximum: nat) returns (text: Text)
      modifies this
      ensures old(errors) <= errors
      ensures errors == old(errors) <==> TextGiven(rules, fields, key, maximum)
      ensures text == if TextGiven(rules, fields, key, maximum) then NormalText(rules, fields, key) else []
    {
      if key !in fields || !fields[key].String? {
        Report("settings-schema.string-required");
        return [];
      }
      var normalized := rules.unicode.nfc(fields[key].text);
      if normalized == [] || |normalized| > maximum || normalized != rules.trim(normalized)
         || rules.disallowed(normalized) {
        Report("settings-schema.invalid-string");
        return [];
      }
      return normalized;
    }

    method RequiredFiniteNumber(fields: map<Text, Value>, key: Text) returns (number: Option<real>)
      modifies this
      ensures old(errors) <= errors
      ensures errors == old(errors) <==> NumberGiven(fields, key)
      ensures number == if NumberGiven(fields, key) then Some(fields[key].number) else None
    {
      if key !in fields || !fields[key].Number? {
        Report("settings-schema.finite-number-required");
        return None;
      }
      return Some(fields[key].number);
    }

    method RequiredInteger(fields: map<Text, Value>, key: Text, low: int, high: int) returns (integer: Option<int>)
      modifies this
      ensures old(errors) <= errors
      ensures errors == old(errors) <==> IntegerGiven(fields, key, low, high)
      ensures integer == if IntegerGiven(fields, key, low, high) then Some(fields[key].number.Floor) else None
    {
      var number := RequiredFiniteNumber(fields, key);
      if number.None? {
        return None;
      }
      if !ExactInteger(number.value) || number.value < low as real || number.value > high as real {
        Report("settings-schema.integer-out-of-range");
        return None;
      }
      return Some(number.value.Floor);
    }

    /** One option; its value joins the ones already seen. */
    method ParseOption(item: Value, values: set<Text>) returns (option: Option<EnumOption>)
      modifies this
      ensures old(errors) <= errors
      ensures errors == old(errors)
        <==> (OptionGiven(rules, item) && OptionOf(rules, item).value !in values)
      ensures errors == old(errors) ==> option == Some(OptionOf(rules, item))
    {
      hide TextSettled;
      if !item.Object? {
        Report("settings-schema.object-required");
        return None;
      }
      RejectUnknownFields(item.fields, {VALUE, CAPTION});
      var value := RequiredText(item.fields, VALUE, 128);
      var caption := RequiredText(item.fields, CAPTION, 128);
      if value in values {
        Report("settings-schema.duplicate-option");
      }
      return Some(EnumOption(value, caption));
    }

    method ParseEnumOptions(fields: map<Text, Value>) returns (options: seq<EnumOption>)
      modifies this
      ensures old(errors) <= errors
      ensures errors == old(errors) <==> OptionsGiven(rules, fields)
      ensures errors == old(errors) ==> options == OptionsOf(rules, fields[OPTIONS].items)
    {
      hide OptionGiven;
      options := [];
      if OPTIONS !in fields || !fields[OPTIONS].Array? || fields[OPTIONS].items == []
         || |fields[OPTIONS].items| > 64 {
        Report("settings-schema.invalid-options");
        return;
      }
      var items := fields[OPTIONS].items;
      var values: set<Text> := {};
      for index := 0 to |items|
        invariant old(errors) <= errors
        invariant errors == old(errors) <==> OptionsRead(rules, items[..index])
        invariant errors == old(errors) ==> options == OptionsOf(rules, items[..index])
        invariant errors == old(errors) ==> values == ValuesOf(options)
      {
        OneMoreOption(rules, items[..index], items[index]);
        assert items[..index + 1] == items[..index] + [items[index]];
        var option := ParseOption(items[index], values);
        if option.Some? {
          values := values + {option.value.value};
          options := options + [option.value];
        }
      }
      assert items[..|items|] == items;
    }

    method ParseNumberBounds(fields: map<Text, Value>, d: Definition) returns (bounded: Definition)
      requires Numeric(d.kind) && d.step.None?
      modifies this
      ensures old(errors) <= errors
      ensures errors == old(errors) <==> BoundsGiven(fields, d.kind)
      ensures errors == old(errors) ==> bounded == Bounded(fields, d)
      ensures bounded.kind == d.kind
    {
      hide ExactInteger;
      var minimum := RequiredFiniteNumber(fields, MINIMUM);
      var maximum := RequiredFiniteNumber(fields, MAXIMUM);
      bounded := d.(minimum := minimum, maximum := maximum);
      if minimum.Some? && maximum.Some? && minimum.value > maximum.value {
        Report("settings-schema.invalid-range");
      }
      if d.kind == Integer
         && ((minimum.Some? && !ExactInteger(minimum.value)) || (maximum.Some? && !ExactInteger(maximum.value))) {
        Report("settings-schema.integer-bounds-required");
      }
      if STEP in fields {
        var step := ParseStep(fields, d.kind);
        bounded := bounded.(step := step);
      }
    }

    method ParseStep(fields: map<Text, Value>, kind: Kind) returns (step: Option<real>)
      modifies this
      ensures old(errors) <= errors
      ensures errors == old(errors) <==> StepGiven(fields, kind)
      ensures errors == old(errors) ==> step == Some(fields[STEP].number)
    {
      hide ExactInteger;
      step := RequiredFiniteNumber(fields, STEP);
      if step.Some? && (step.value <= 0.0 || (kind == Integer && !ExactInteger(step.value))) {
        Report("settings-schema.invalid-step");
      }
    }

    method ParseLengths(fields: map<Text, Value>, d: Definition) returns (bounded: Definition)
      requires d.minimumLength.None? && d.maximumLength.None?
      modifies this
      ensures old(errors) <= errors
      ensures errors == old(errors) <==> LengthsGiven(fields)
      ensures errors == old(errors) ==> bounded == Measured(fields, d)
      ensures bounded.kind == d.kind
    {
      hide ExactInteger;
      var minimum := Some(0);
      if MINIMUM_LENGTH in fields {
        minimum := RequiredInteger(fields, MINIMUM_LENGTH, 0, 4096);
      }
      var maximum := RequiredInteger(fields, MAXIMUM_LENGTH, 1, 4096);
      bounded := d.(minimumLength := minimum, maximumLength := maximum);
      if minimum.Some? && maximum.Some? && minimum.value > maximum.value {
        Report("settings-schema.invalid-length-range");
      }
    }

    method ParseCondition(fields: map<Text, Value>) returns (condition: Option<Condition>)
      modifies this
      ensures old(errors) <= errors
      ensures errors == old(errors) <==> ConditionGiven(rules, fields)
      ensures errors == old(errors) ==> condition == ConditionOf(rules, fields)
    {
      hide TextSettled;
      if VISIBLE_WHEN !in fields {
        return None;
      }
      if !fields[VISIBLE_WHEN].Object? {
        Report("settings-schema.invalid-condition");
        return None;
      }
      var given := fields[VISIBLE_WHEN].fields;
      RejectUnknownFields(given, {NAME, EQUALS});
      if EQUALS !in given {
        Report("settings-schema.condition-value-required");
      }
      var key := RequiredText(given, NAME, 64);
      return Some(Condition(key, if EQUALS in given then given[EQUALS] else Null));
    }

    method ParseKey(fields: map<Text, Value>) returns (key: Text)
      modifies this
      ensures old(errors) <= errors
      ensures errors == old(errors)
        <==> (TextGiven(rules, fields, NAME, 64) && IsSettingKey(NormalText(rules, fields, NAME)))
      ensures errors == old(errors) ==> key == NormalText(rules, fields, NAME)
    {
      key := RequiredText(fields, NAME, 64);
      if key != [] && !IsSettingKey(key) {
        Report("settings-schema.invalid-key");
      }
    }

    method ParseScope(fields: map<Text, Value>) returns (scope: Option<Scope>)
      modifies this
      ensures old(errors) <= errors
      ensures errors == old(errors)
        <==> (TextGiven(rules, fields, SCOPE, 16) && ScopeOf(NormalText(rules, fields, SCOPE)).Some?)
      ensures errors == old(errors) ==> scope.Some? && scope == ScopeOf(NormalText(rules, fields, SCOPE))
    {
      hide ScopeOf;
      var scopeText := RequiredText(fields, SCOPE, 16);
      scope := ScopeOf(scopeText);
      if scope.None? {
        Report("settings-schema.invalid-scope");
      }
    }

    method ParseKind(fields: map<Text, Value>) returns (kind: Option<Kind>)
      modifies this
      ensures old(errors) <= errors
      ensures errors == old(errors)
        <==> (TextGiven(rules, fields, TYPE, 16) && KindOf(NormalText(rules, fields, TYPE)).Some?)
      ensures errors == old(errors) ==> kind.Some? && kind == KindOf(NormalText(rules, fields, TYPE))
    {
      hide KindOf;
      var kindText := RequiredText(fields, TYPE, 16);
      kind := KindOf(kindText);
      if kind.None? {
        Report("settings-schema.invalid-type");
      }
    }

    method ParseGroup(fields: map<Text, Value>) returns (group: Text)
      modifies this
      ensures old(errors) <= errors
      ensures errors == old(errors)
        <==> (TextGiven(rules, fields, GROUP, 64) && IsGroup(NormalText(rules, fields, GROUP)))
      ensures errors == old(errors) ==> group == NormalText(rules, fields, GROUP)
    {
      group := RequiredText(fields, GROUP, 64);
      if group != [] && !IsGroup(group) {
        Report("settings-schema.invalid-group");
      }
    }

    method ParseLabels(fields: map<Text, Value>)
      modifies this
      ensures old(errors) <= errors
      ensures errors == old(errors) <==>
          (TextGiven(rules, fields, CAPTION, 128) && TextGiven(rules, fields, DESCRIPTION, 1024))
    {
      hide TextGiven, NormalText;
      var caption := RequiredText(fields, CAPTION, 128);
      var description := RequiredText(fields, DESCRIPTION, 1024);
    }

    /** The text fields, the order and the given default. */
    method ParseHead(fields: map<Text, Value>) returns (d: Definition, kind: Option<Kind>)
      modifies this
      ensures old(errors) <= errors
      ensures errors == old(errors) <==> HeadGiven(rules, fields)
      ensures errors == old(errors) ==> d == HeadOf(rules, fields) && kind == Some(d.kind) && DEFAULT in fields
      ensures kind.Some? ==> d.kind == kind.value
      ensures d.minimum.None? && d.maximum.None? && d.step.None? && d.minimumLength.None? && d.maximumLength.None?
    {
      hide TextGiven, NormalText, IntegerGiven, Units, ScopeOf, KindOf, IsSettingKey, IsGroup;
      var key := ParseKey(fields);
      var scope := ParseScope(fields);
      kind := ParseKind(fields);
      ParseLabels(fields);
      var group := ParseGroup(fields);
      var order := RequiredInteger(fields, ORDER, 0, 100000);
      if DEFAULT !in fields {
        Report("settings-schema.default-required");
      }
      d := Definition(
        key,
        if scope.Some? then scope.value else InstanceScope,
        if kind.Some? then kind.value else Boolean,
        group,
        if order.Some? then order.value else 0,
        if DEFAULT in fields then fields[DEFAULT] else Null,
        None, None, None, None, None, [], None);
    }

    method ParseDetails(fields: map<Text, Value>, d: Definition, kind: Option<Kind>) returns (detailed: Definition)
      requires d.minimum.None? && d.maximum.None? && d.step.None? && d.minimumLength.None? && d.maximumLength.None?
      requires kind.Some? ==> d.kind == kind.value
      modifies this
      ensures old(errors) <= errors
      ensures kind.Some? ==> (errors == old(errors) <==> DetailsGiven(rules, fields, d.kind))
      ensures kind.Some? && errors == old(errors) ==> detailed == Detailed(rules, fields, d)
      ensures detailed.kind == d.kind
    {
      hide BoundsGiven, LengthsGiven, OptionsGiven, Bounded, Measured, OptionsOf;
      detailed := d;
      var allowed := BASE_FIELDS;
      if kind.Some? {
        allowed := AllowedFields(kind.value);
        if Numeric(kind.value) {
          detailed := ParseNumberBounds(fields, d);
        } else if kind.value == PlainText {
          detailed := ParseLengths(fields, d);
        } else if kind.value == Enumeration {
          var options := ParseEnumOptions(fields);
          detailed := d.(options := options);
        }
      }
      RejectUnknownFields(fields, allowed);
    }

    method ParseDefault(fields: map<Text, Value>, d: Definition, kind: Option<Kind>) returns (settled: Definition)
      requires kind.Some? ==> d.kind == kind.value
      modifies this
      ensures old(errors) <= errors
      ensures kind.Some? && DEFAULT in fields ==> (errors == old(errors) <==> WithDefault(rules, d).Some?)
      ensures kind.Some? && DEFAULT in fields && errors == old(errors) ==> WithDefault(rules, d) == Some(settled)
    {
      hide Normal;
      settled := d;
      if DEFAULT in fields && kind.Some? {
        var normalized := NormalizeSettingValue(rules.unicode, d, d.defaultValue);
        if normalized.Invalid? {
          errors := errors + normalized.errors;
        } else {
          settled := d.(defaultValue := normalized.value);
        }
        if Selects(kind.value) && !settled.defaultValue.Null? {
          Report("settings-schema.portal-default-must-be-null");
        }
      }
    }

    /** No error exactly when the definition is well formed, and then what it is read as. */
    method ParseDefinition(value: Value) returns (d: Definition)
      modifies this
      ensures old(errors) <= errors
      ensures errors == old(errors) <==> ReadDefinition(rules, value).Some?
      ensures errors == old(errors) ==> ReadDefinition(rules, value) == Some(d)
    {
      hide WithDefault, HeadGiven, HeadOf, DetailsGiven, Detailed, ConditionGiven, ConditionOf;
      if !value.Object? {
        Report("settings-schema.object-required");
        return Definition([], InstanceScope, Boolean, [], 0, Null, None, None, None, None, None, [], None);
      }
      var fields := value.fields;
      var head, kind := ParseHead(fields);
      var detailed := ParseDetails(fields, head, kind);
      var condition := ParseCondition(fields);
      d := ParseDefault(fields, detailed.(visibleWhen := condition), kind);
    }

    /** What the condition of a definition refers to, among the definitions before it. */
    method ResolveCondition(settings: seq<Definition>, d: Definition) returns (resolved: Definition)
      modifies this
      ensures old(errors) <= errors
      ensures errors == old(errors) <==> Resolved(rules, settings, d).Some?
      ensures errors == old(errors) ==> Resolved(rules, settings, d) == Some(resolved)
      ensures resolved.key == d.key
    {
      hide Normal;
      resolved := d;
      if d.visibleWhen.None? {
        return;
      }
      var condition := d.visibleWhen.value;
      var previous := Find(settings, condition.key);
      if previous.None? || previous.value.scope != d.scope {
        Report("settings-schema.invalid-condition-reference");
      } else if previous.value.kind == Keybinding || Selects(previous.value.kind) {
        Report("settings-schema.unsupported-condition-type");
      } else {
        var normalized := NormalizeSettingValue(rules.unicode, previous.value, condition.equals);
        if normalized.Invalid? {
          errors := errors + normalized.errors;
        } else {
          resolved := d.(visibleWhen := Some(condition.(equals := normalized.value)));
        }
      }
    }

    method ParseSettings(items: seq<Value>) returns (settings: seq<Definition>)
      modifies this
      ensures old(errors) <= errors
      ensures errors == old(errors) <==> ReadSettings(rules, items).Some?
      ensures errors == old(errors) ==> ReadSettings(rules, items) == Some(settings)
    {
      hide ReadDefinition, Resolved;
      settings := [];
      var keys: set<Text> := {};
      for index := 0 to |items|
        invariant old(errors) <= errors
        invariant errors == old(errors) <==> ReadSettings(rules, items[..index]).Some?
        invariant errors == old(errors) ==>
            ReadSettings(rules, items[..index]) == Some(settings) && keys == KeysOf(settings)
      {
        assert items[..index + 1][..index] == items[..index];
        var d := ParseDefinition(items[index]);
        if d.key in keys {
          Report("settings-schema.duplicate-key");
        }
        keys := keys + {d.key};
        var resolved := ResolveCondition(settings, d);
        KeysOfMore(settings, resolved);
        settings := settings + [resolved];
      }
      assert items[..|items|] == items;
    }
  }

  ghost function ValuesOf(options: seq<EnumOption>): set<Text> {
    set o | o in options :: o.value
  }

  lemma OneMoreOption(rules: Rules, items: seq<Value>, item: Value)
    ensures OptionsRead(rules, items + [item])
      <==> (OptionsRead(rules, items) && OptionGiven(rules, item)
            && OptionOf(rules, item).value !in ValuesOf(OptionsOf(rules, items)))
    ensures OptionsRead(rules, items + [item]) ==>
        OptionsOf(rules, items + [item]) == OptionsOf(rules, items) + [OptionOf(rules, item)]
  {
    hide OptionGiven;
    var more := items + [item];
    if OptionsRead(rules, items) && OptionGiven(rules, item) {
      var options := OptionsOf(rules, items);
      assert forall i | 0 <= i < |items| :: options[i] in options && more[i] == items[i];
    }
    if OptionsRead(rules, more) {
      assert forall i | 0 <= i < |items| :: items[i] == more[i];
      assert more[|items|] == item;
    }
  }

  /** Accepted exactly when the fields are those of a schema, and then settled: unique keys,
      definitions whose defaults are normal values, conditions on earlier settings. */
  method ParseSettingsSchema(rules: Rules, fields: map<Text, Value>) returns (outcome: Outcome<seq<Definition>>)
    ensures outcome.Valid? <==> ReadSchema(rules, fields).Some?
    ensures outcome.Valid? ==> outcome.value == ReadSchema(rules, fields).value && SchemaSettled(rules, outcome.value)
    ensures outcome.Invalid? ==> outcome.errors != []
  {
    hide SchemaSettled, IntegerGiven, ReadSettings;
    var parser := new Parser(rules);
    parser.RejectUnknownFields(fields, {SCHEMA_VERSION, SETTINGS});
    var version := parser.RequiredInteger(fields, SCHEMA_VERSION, 1, 1);
    if SETTINGS !in fields || !fields[SETTINGS].Array? || |fields[SETTINGS].items| > MAXIMUM_SETTINGS {
      parser.Report("settings-schema.invalid-settings-array");
      return Invalid(parser.errors);
    }
    var settings := parser.ParseSettings(fields[SETTINGS].items);
    if parser.errors != [] {
      return Invalid(parser.errors);
    }
    ReadIsSettled(rules, fields[SETTINGS].items);
    return Valid(settings);
  }

  // ---- Defaults of an accepted schema ----

  /** What a definition is read as differs from it in the resolved condition alone. */
  lemma {:induction false} ReadAt(rules: Rules, items: seq<Value>, i: nat)
    requires ReadSettings(rules, items).Some? && i < |items|
    ensures
      var d := ReadSettings(rules, items).value[i];
      && ReadDefinition(rules, items[i]).Some?
      && d == ReadDefinition(rules, items[i]).value.(visibleWhen := d.visibleWhen)
  {
    hide ReadDefinition;
    var n := |items| - 1;
    if i < n {
      ReadAt(rules, items[..n], i);
      assert items[..n][i] == items[i];
    }
  }

  ghost predicate DefaultFits(unicode: Unicode, item: Value) {
    item.Object? && DEFAULT in item.fields ==> NormalFits(unicode, Keybinding, item.fields[DEFAULT])
  }

  /** Over an accepted schema as it is written: its defaults are all accepted again exactly when
      the normal form of every key name among them fits. */
  lemma AcceptedDefaultsSucceed(rules: Rules, fields: map<Text, Value>, scope: Scope)
    requires Idempotent(rules.unicode) && ReadSchema(rules, fields).Some?
    ensures
      var settings := ReadSchema(rules, fields).value;
      NormalSettings(rules.unicode, settings, scope, map[], true).Some?
      <==> forall i | 0 <= i < |settings| && settings[i].scope == scope && settings[i].kind == Keybinding ::
          DefaultFits(rules.unicode, fields[SETTINGS].items[i])
  {
    hide Normal, NormalSettings, NormalFits, ReadSettings, SchemaSettled, Idempotent;
    var items, settings := fields[SETTINGS].items, ReadSchema(rules, fields).value;
    ReadIsSettled(rules, items);
    DefaultsSucceed(rules, settings, scope);
    forall i | 0 <= i < |settings| && settings[i].kind == Keybinding
      ensures DefaultFits(rules.unicode, items[i]) <==> NormalFits(rules.unicode, Keybinding, settings[i].defaultValue)
    {
      ReadAt(rules, items, i);
      DefaultFitsAlike(rules, items[i], settings[i]);
    }
    forall d | d in settings && d.kind == Keybinding
      ensures exists i :: 0 <= i < |settings| && settings[i] == d
    {
    }
  }

  lemma DefaultFitsAlike(rules: Rules, item: Value, d: Definition)
    requires Idempotent(rules.unicode) && ReadDefinition(rules, item).Some? && d.kind == Keybinding
    requires d == ReadDefinition(rules, item).value.(visibleWhen := d.visibleWhen)
    ensures DefaultFits(rules.unicode, item) <==> NormalFits(rules.unicode, Keybinding, d.defaultValue)
  {
    hide Normal, NormalFits, DetailsGiven, ConditionGiven, Idempotent, IsSettingKey, IsGroup, TextGiven, ScopeOf,
      KindOf;
    var read := ReadDefinition(rules, item).value;
    var given := item.fields[DEFAULT];
    assert DEFAULT in item.fields;
    var conditional := Detailed(rules, item.fields, HeadOf(rules, item.fields)).(
                         visibleWhen := ConditionOf(rules, item.fields));
    assert conditional.defaultValue == given && conditional.kind == Keybinding;
    NormalIsFixpoint(rules.unicode, conditional, given);
  }

  ghost function ShortcutFields(): map<Text, Value> {
    map k | k in BASE_FIELDS - {VISIBLE_WHEN} ::
      if k == ORDER then Number(0.0)
      else if k == DEFAULT then ExcludedBinding()
      else if k == SCOPE then String(Units("instance"))
      else if k == TYPE then String(Units("keybinding"))
      else String(Units("shortcut"))
  }

  lemma {:induction false} ExcludedNfcOfOthers(t: Text)
    requires 0x0958 !in t
    ensures ExcludedNfc(t) == t
  {
    if t != [] {
      ExcludedNfcOfOthers(t[1..]);
    }
  }

  lemma FieldNamesDiffer()
    ensures NAME != ORDER && NAME != DEFAULT && NAME != SCOPE && NAME != TYPE
    ensures SCOPE != ORDER && SCOPE != DEFAULT && TYPE != ORDER && TYPE != DEFAULT && TYPE != SCOPE
    ensures CAPTION != ORDER && CAPTION != DEFAULT && CAPTION != SCOPE && CAPTION != TYPE
    ensures DESCRIPTION != ORDER && DESCRIPTION != DEFAULT && DESCRIPTION != SCOPE && DESCRIPTION != TYPE
    ensures GROUP != ORDER && GROUP != DEFAULT && GROUP != SCOPE && GROUP != TYPE && DEFAULT != ORDER
    ensures SCHEMA_VERSION != SETTINGS
  {
    assert ORDER[0] == 'o' as int && SCOPE[0] == 's' as int && CAPTION[0] == 'l' as int && GROUP[0] == 'g' as int;
    assert |NAME| == 3 && |SCOPE| == 5 && |TYPE| == 4 && |CAPTION| == 5 && |DESCRIPTION| == 11 && |GROUP| == 5;
    assert |ORDER| == 5 && |DEFAULT| == 7 && |SCHEMA_VERSION| == 13 && |SETTINGS| == 8;
  }

  ghost function PlainRules(): Rules {
    Rules(ExcludedUnicode(), t => t, t => false)
  }

  lemma PlainTextGiven(fields: map<Text, Value>, key: Text, maximum: nat, t: Text)
    requires key in fields && fields[key] == String(t) && 0 < |t| <= maximum && 0x0958 !in t
    ensures TextGiven(PlainRules(), fields, key, maximum) && NormalText(PlainRules(), fields, key) == t
  {
    ExcludedNfcOfOthers(t);
  }

  /** What the schema's words are. */
  lemma ShortcutWords()
    ensures |Units("shortcut")| == 8 && |Units("instance")| == 8 && |Units("keybinding")| == 10
    ensures 0x0958 !in Units("shortcut") && 0x0958 !in Units("instance") && 0x0958 !in Units("keybinding")
    ensures ScopeOf(Units("instance")) == Some(InstanceScope) && KindOf(Units("keybinding")) == Some(Keybinding)
    ensures IsSettingKey(Units("shortcut")) && IsGroup(Units("shortcut"))
  {
    var word := Units("shortcut");
    assert |Units("component")| == 9;
    assert word[7] == 't' as int && BeforeNewline(word) == word && forall i | 0 <= i < 8 :: Lower(word[i]);
  }

  lemma ShortcutAt()
    ensures forall k <- {NAME, CAPTION, DESCRIPTION, GROUP} ::
      k in ShortcutFields() && ShortcutFields()[k] == String(Units("shortcut"))
    ensures SCOPE in ShortcutFields() && ShortcutFields()[SCOPE] == String(Units("instance"))
    ensures TYPE in ShortcutFields() && ShortcutFields()[TYPE] == String(Units("keybinding"))
    ensures ORDER in ShortcutFields() && ShortcutFields()[ORDER] == Number(0.0)
    ensures DEFAULT in ShortcutFields() && ShortcutFields()[DEFAULT] == ExcludedBinding()
    ensures VISIBLE_WHEN !in ShortcutFields() && ShortcutFields().Keys <= BASE_FIELDS
  {
    hide ExcludedBinding, Units;
    FieldNamesDiffer();
    VisibilityIsNoField();
  }

  lemma ShortcutHead()
    ensures HeadGiven(PlainRules(), ShortcutFields())
    ensures HeadOf(PlainRules(), ShortcutFields()).kind == Keybinding
    ensures HeadOf(PlainRules(), ShortcutFields()).scope == InstanceScope
    ensures HeadOf(PlainRules(), ShortcutFields()).defaultValue == ExcludedBinding()
  {
    hide ExcludedBinding, TextGiven, NormalText, ShortcutFields, Units, ScopeOf, KindOf, IsSettingKey, IsGroup,
      PlainRules;
    var fields, word := ShortcutFields(), Units("shortcut");
    ShortcutAt();
    ShortcutWords();
    PlainTextGiven(fields, NAME, 64, word);
    PlainTextGiven(fields, SCOPE, 16, Units("instance"));
    PlainTextGiven(fields, TYPE, 16, Units("keybinding"));
    PlainTextGiven(fields, CAPTION, 128, word);
    PlainTextGiven(fields, DESCRIPTION, 1024, word);
    PlainTextGiven(fields, GROUP, 64, word);
  }

  lemma VisibilityIsNoField()
    ensures VISIBLE_WHEN !in {NAME, SCOPE, TYPE, CAPTION, DESCRIPTION, GROUP, ORDER, DEFAULT}
  {
    assert VISIBLE_WHEN[0] == 'v' as int && DESCRIPTION[0] == 'd' as int && |VISIBLE_WHEN| == 11;
  }

  lemma OneSetting(rules: Rules, item: Value)
    requires ReadDefinition(rules, item).Some? && ReadDefinition(rules, item).value.visibleWhen.None?
    ensures ReadSettings(rules, [item]) == Some([ReadDefinition(rules, item).value])
  {
    hide ReadDefinition;
    var items := [item];
    var none: seq<Definition> := [];
    assert items[..|items| - 1] == [] && items[|items| - 1] == item;
    assert ReadSettings(rules, items[..|items| - 1]) == Some(none) && KeysOf(none) == {};
    assert none + [ReadDefinition(rules, item).value] == [ReadDefinition(rules, item).value];
  }

  lemma ShortcutIsRead()
    ensures
      var d := ReadDefinition(PlainRules(), Object(ShortcutFields()));
      && d.Some? && d.value.kind == Keybinding && d.value.scope == InstanceScope && d.value.visibleWhen.None?
  {
    hide HeadGiven, HeadOf, Normal, ShortcutFields, Units, ExcludedBinding;
    ShortcutAt();
    ShortcutHead();
    var unicode, value := KeyNameMayOutgrowItsBound(HeadOf(PlainRules(), ShortcutFields()).(visibleWhen := None));
  }

  /** An accepted schema of one shortcut whose default key name is 64 letters U+0958: empty input
      with its own defaults is refused. */
  lemma AcceptedDefaultMayBeRefused() returns (fields: map<Text, Value>)
    ensures Idempotent(PlainRules().unicode) && ReadSchema(PlainRules(), fields).Some?
    ensures
      var rules := PlainRules();
      NormalSettings(rules.unicode, ReadSchema(rules, fields).value, InstanceScope, map[], true) == None
  {
    hide Normal, NormalSettings, Idempotent, ShortcutFields, Units, ReadDefinition;
    var rules, item := PlainRules(), Object(ShortcutFields());
    fields := map[SCHEMA_VERSION := Number(1.0), SETTINGS := Array([item])];
    FieldNamesDiffer();
    ShortcutIsRead();
    OneSetting(rules, item);
    var d := ReadDefinition(rules, item).value;
    var unicode, value := KeyNameMayOutgrowItsBound(d);
    ShortcutAt();
    ShortcutDefault();
    assert SchemaFields(fields);
    AcceptedDefaultsSucceed(rules, fields, InstanceScope);
    assert !DefaultFits(rules.unicode, fields[SETTINGS].items[0]);
  }

  lemma ShortcutDefault()
    ensures !NormalFits(ExcludedUnicode(), Keybinding, ExcludedBinding())
  {
    KeysDiffer();
    ExcludedNfcOfRepeated(64);
  }
}
