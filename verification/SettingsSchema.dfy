/** The loops around the value normaliser: key bindings, whole setting objects, and the schema
    parser whose accepted results make the normaliser a fixpoint map. */
module SettingsSchema {
  import opened Options
  import opened UnicodeText
  import opened SettingsNormalization

  const MAXIMUM_SETTINGS := 128

  datatype Outcome<T> = Valid(value: T) | Invalid(errors: seq<string>)

  // ---- Whole objects of settings ----

  function Find(settings: seq<Definition>, key: Text): (found: Option<Definition>)
    ensures found.Some? ==> found.value in settings && found.value.key == key
    ensures found.None? ==> forall d <- settings :: d.key != key
  {
    if settings == [] then None
    else if settings[0].key == key then Some(settings[0])
    else
      var found := Find(settings[1..], key);
      assert forall d <- settings :: d == settings[0] || d in settings[1..];
      found
  }

  predicate KeysKnown(settings: seq<Definition>, scope: Scope, values: map<Text, Value>) {
    forall k <- values :: Find(settings, k).Some? && Find(settings, k).value.scope == scope
  }

  predicate Wanted(d: Definition, scope: Scope, values: map<Text, Value>, applyDefaults: bool) {
    d.scope == scope && (d.key in values || applyDefaults)
  }

  function Given(d: Definition, values: map<Text, Value>): Value {
    if d.key in values then values[d.key] else d.defaultValue
  }

  function Collected(unicode: Unicode, settings: seq<Definition>, scope: Scope, values: map<Text, Value>,
                     applyDefaults: bool): Option<map<Text, Value>>
  {
    if settings == [] then Some(map[])
    else
      var d := settings[|settings| - 1];
      var rest := Collected(unicode, settings[..|settings| - 1], scope, values, applyDefaults);
      if !Wanted(d, scope, values, applyDefaults) then rest
      else
        var normal := Normal(unicode, d, Given(d, values));
        if rest.None? || normal.None? then None else Some(rest.value[d.key := normal.value])
  }

  ghost function NormalSettings(unicode: Unicode, settings: seq<Definition>, scope: Scope, values: map<Text, Value>,
                          applyDefaults: bool): Option<map<Text, Value>>
  {
    if KeysKnown(settings, scope, values) then Collected(unicode, settings, scope, values, applyDefaults) else None
  }

  ghost predicate UniqueKeys(settings: seq<Definition>) {
    forall i, j | 0 <= i < j < |settings| :: settings[i].key != settings[j].key
  }

  lemma {:induction false} FindIsUnique(settings: seq<Definition>, d: Definition)
    requires UniqueKeys(settings) && d in settings
    ensures Find(settings, d.key) == Some(d)
  {
    if settings[0] != d {
      assert d in settings[1..];
      FindIsUnique(settings[1..], d);
    }
  }

  ghost predicate AllNormal(unicode: Unicode, settings: seq<Definition>, scope: Scope, values: map<Text, Value>,
                            applyDefaults: bool)
  {
    forall d <- settings | Wanted(d, scope, values, applyDefaults) :: Normal(unicode, d, Given(d, values)).Some?
  }

  ghost predicate Puts(unicode: Unicode, d: Definition, values: map<Text, Value>, out: map<Text, Value>) {
    d.key in out && Some(out[d.key]) == Normal(unicode, d, Given(d, values))
  }

  ghost predicate WantedKey(settings: seq<Definition>, scope: Scope, values: map<Text, Value>, applyDefaults: bool,
                            k: Text)
  {
    exists d <- settings :: Wanted(d, scope, values, applyDefaults) && d.key == k
  }

  /** The result holds the wanted keys and no others, each with the normal form of what was given. */
  ghost predicate Gives(unicode: Unicode, settings: seq<Definition>, scope: Scope, values: map<Text, Value>,
                        applyDefaults: bool, out: map<Text, Value>)
  {
    && (forall d <- settings | Wanted(d, scope, values, applyDefaults) :: Puts(unicode, d, values, out))
    && (forall k <- out :: WantedKey(settings, scope, values, applyDefaults, k))
  }

  lemma {:induction false} CollectedSucceeds(unicode: Unicode, settings: seq<Definition>, scope: Scope,
                                             values: map<Text, Value>, applyDefaults: bool)
    ensures Collected(unicode, settings, scope, values, applyDefaults).Some?
      <==> AllNormal(unicode, settings, scope, values, applyDefaults)
  {
    hide Normal, Wanted, Given;
    if settings != [] {
      var n := |settings| - 1;
      CollectedSucceeds(unicode, settings[..n], scope, values, applyDefaults);
      assert settings == settings[..n] + [settings[n]];
    }
  }

  lemma WantedKeyAppend(front: seq<Definition>, d: Definition, scope: Scope, values: map<Text, Value>,
                        applyDefaults: bool, k: Text)
    requires WantedKey(front, scope, values, applyDefaults, k)
             || (Wanted(d, scope, values, applyDefaults) && d.key == k)
    ensures WantedKey(front + [d], scope, values, applyDefaults, k)
  {
    hide Wanted;
    var e :| (e in front || e == d) && Wanted(e, scope, values, applyDefaults) && e.key == k;
    assert e in front + [d];
  }

  lemma GivesSame(unicode: Unicode, front: seq<Definition>, d: Definition, scope: Scope, values: map<Text, Value>,
                  applyDefaults: bool, out: map<Text, Value>)
    requires Gives(unicode, front, scope, values, applyDefaults, out) && !Wanted(d, scope, values, applyDefaults)
    ensures Gives(unicode, front + [d], scope, values, applyDefaults, out)
  {
    hide Wanted, Puts, WantedKey;
    forall k | k in out
      ensures WantedKey(front + [d], scope, values, applyDefaults, k)
    {
      WantedKeyAppend(front, d, scope, values, applyDefaults, k);
    }
  }

  lemma GivesMore(unicode: Unicode, front: seq<Definition>, d: Definition, scope: Scope, values: map<Text, Value>,
                  applyDefaults: bool, out: map<Text, Value>, normal: Value)
    requires Gives(unicode, front, scope, values, applyDefaults, out) && forall e <- front :: e.key != d.key
    requires Wanted(d, scope, values, applyDefaults) && Normal(unicode, d, Given(d, values)) == Some(normal)
    ensures Gives(unicode, front + [d], scope, values, applyDefaults, out[d.key := normal])
  {
    hide Normal, Wanted, Given, WantedKey;
    var more := out[d.key := normal];
    forall e | e in front + [d] && Wanted(e, scope, values, applyDefaults)
      ensures Puts(unicode, e, values, more)
    {
      if e in front {
        assert Puts(unicode, e, values, out);
      }
    }
    forall k | k in more
      ensures WantedKey(front + [d], scope, values, applyDefaults, k)
    {
      WantedKeyAppend(front, d, scope, values, applyDefaults, k);
    }
  }

  /** With unique keys the result is, key by key, the normal form of what was given. */
  lemma {:induction false} CollectedMeans(unicode: Unicode, settings: seq<Definition>, scope: Scope,
                                          values: map<Text, Value>, applyDefaults: bool)
    requires UniqueKeys(settings)
    ensures
      var out := Collected(unicode, settings, scope, values, applyDefaults);
      && (out.Some? <==> AllNormal(unicode, settings, scope, values, applyDefaults))
      && (out.Some? ==> Gives(unicode, settings, scope, values, applyDefaults, out.value))
  {
    hide Normal, Wanted, Given, AllNormal, Gives;
    CollectedSucceeds(unicode, settings, scope, values, applyDefaults);
    if settings != [] {
      var n := |settings| - 1;
      CollectedMeans(unicode, settings[..n], scope, values, applyDefaults);
      assert settings == settings[..n] + [settings[n]];
      var front := Collected(unicode, settings[..n], scope, values, applyDefaults);
      if front.Some? {
        var normal := Normal(unicode, settings[n], Given(settings[n], values));
        if !Wanted(settings[n], scope, values, applyDefaults) {
          GivesSame(unicode, settings[..n], settings[n], scope, values, applyDefaults, front.value);
        } else if normal.Some? {
          GivesMore(unicode, settings[..n], settings[n], scope, values, applyDefaults, front.value, normal.value);
        }
      }
    } else {
      GivesNothing(unicode, scope, values, applyDefaults);
    }
  }

  /** The keys of the result are those of the scope's settings that are given or have their
      default applied, each with the normal form of the value given or of the default. */
  lemma SettingsMean(unicode: Unicode, settings: seq<Definition>, scope: Scope, values: map<Text, Value>,
                     applyDefaults: bool)
    requires UniqueKeys(settings) && Collected(unicode, settings, scope, values, applyDefaults).Some?
    ensures var out := Collected(unicode, settings, scope, values, applyDefaults).value;
      && (forall k :: k in out <==>
            exists d <- settings :: d.key == k && d.scope == scope && (k in values || applyDefaults))
      && (forall d <- settings | d.scope == scope && (d.key in values || applyDefaults) ::
            d.key in out
            && Some(out[d.key]) == Normal(unicode, d, if d.key in values then values[d.key] else d.defaultValue))
  {
    hide Normal;
    var out := Collected(unicode, settings, scope, values, applyDefaults).value;
    CollectedMeans(unicode, settings, scope, values, applyDefaults);
    forall d | d in settings && d.scope == scope && (d.key in values || applyDefaults)
      ensures Puts(unicode, d, values, out)
    {
      assert Wanted(d, scope, values, applyDefaults);
    }
    forall k | k in out
      ensures exists d <- settings :: d.key == k && d.scope == scope && (k in values || applyDefaults)
    {
      assert WantedKey(settings, scope, values, applyDefaults, k);
    }
  }

  lemma GivesNothing(unicode: Unicode, scope: Scope, values: map<Text, Value>, applyDefaults: bool)
    ensures Gives(unicode, [], scope, values, applyDefaults, map[])
  {
  }

  lemma GivesIsUnique(unicode: Unicode, settings: seq<Definition>, scope: Scope, values: map<Text, Value>,
                      applyDefaults: bool, out: map<Text, Value>, out': map<Text, Value>)
    requires Gives(unicode, settings, scope, values, applyDefaults, out)
    requires Gives(unicode, settings, scope, values, applyDefaults, out')
    ensures out == out'
  {
    hide Normal, Wanted, Given;
    forall k
      ensures k in out <==> k in out'
      ensures k in out && k in out' ==> out[k] == out'[k]
    {
      if k in out {
        var d :| d in settings && Wanted(d, scope, values, applyDefaults) && d.key == k;
        assert Puts(unicode, d, values, out) && Puts(unicode, d, values, out');
      }
      if k in out' {
        var d :| d in settings && Wanted(d, scope, values, applyDefaults) && d.key == k;
        assert Puts(unicode, d, values, out);
      }
    }
  }

  /** What a result asks of a definition the second time. */
  lemma WantedAgain(unicode: Unicode, settings: seq<Definition>, d: Definition, scope: Scope, values: map<Text, Value>,
                    applyDefaults: bool, out: map<Text, Value>, again: bool)
    requires Idempotent(unicode) && UniqueKeys(settings) && (again ==> applyDefaults) && d in settings
    requires Gives(unicode, settings, scope, values, applyDefaults, out)
    ensures Wanted(d, scope, out, again) <==> Wanted(d, scope, values, applyDefaults)
    ensures Wanted(d, scope, out, again) ==>
        && d.key in out
        && Normal(unicode, d, out[d.key])
         == if NormalFits(unicode, d.kind, Given(d, values)) then Some(out[d.key]) else None
  {
    hide Normal, NormalFits;
    if Wanted(d, scope, values, applyDefaults) {
      assert Puts(unicode, d, values, out);
      NormalIsFixpoint(unicode, d, Given(d, values));
    }
    if d.key in out {
      assert WantedKey(settings, scope, values, applyDefaults, d.key);
      var e :| e in settings && Wanted(e, scope, values, applyDefaults) && e.key == d.key;
      FindIsUnique(settings, d);
      FindIsUnique(settings, e);
    }
  }

  /** The normaliser maps its own results to themselves, exactly when the normal form of every key
      name and selection given fits its bounds; defaults may then be left off or asked for again. */
  lemma NormalSettingsIsFixpoint(unicode: Unicode, settings: seq<Definition>, scope: Scope, values: map<Text, Value>,
                                 applyDefaults: bool, again: bool)
    requires Idempotent(unicode) && UniqueKeys(settings) && (again ==> applyDefaults)
    requires NormalSettings(unicode, settings, scope, values, applyDefaults).Some?
    ensures
      var out := NormalSettings(unicode, settings, scope, values, applyDefaults).value;
      NormalSettings(unicode, settings, scope, out, again)
        == if AllFit(unicode, settings, scope, values, applyDefaults) then Some(out) else None
  {
    hide Normal, NormalFits, Collected, Wanted, Given;
    var out := NormalSettings(unicode, settings, scope, values, applyDefaults).value;
    CollectedMeans(unicode, settings, scope, values, applyDefaults);
    CollectedMeans(unicode, settings, scope, out, again);
    ResultKeysKnown(unicode, settings, scope, values, applyDefaults, out);
    forall d | d in settings
      ensures Wanted(d, scope, out, again) <==> Wanted(d, scope, values, applyDefaults)
      ensures Wanted(d, scope, out, again) <==> d.scope == scope && d.key in out
      ensures Wanted(d, scope, out, again) ==> Given(d, out) == out[d.key]
      ensures Wanted(d, scope, out, again) ==>
          (Normal(unicode, d, out[d.key])
           == if NormalFits(unicode, d.kind, Given(d, values)) then Some(out[d.key]) else None)
    {
      WantedAgain(unicode, settings, d, scope, values, applyDefaults, out, again);
      WantedGiven(d, scope, out, again);
    }
    if AllFit(unicode, settings, scope, values, applyDefaults) {
      GivesItself(unicode, settings, scope, values, applyDefaults, out, again);
      GivesIsUnique(unicode, settings, scope, out, again, out, Collected(unicode, settings, scope, out, again).value);
    }
  }

  lemma GivesItself(unicode: Unicode, settings: seq<Definition>, scope: Scope, values: map<Text, Value>,
                    applyDefaults: bool, out: map<Text, Value>, again: bool)
    requires Gives(unicode, settings, scope, values, applyDefaults, out)
    requires forall d <- settings :: Wanted(d, scope, out, again) <==> Wanted(d, scope, values, applyDefaults)
    requires forall d <- settings | Wanted(d, scope, out, again) :: Puts(unicode, d, out, out)
    ensures Gives(unicode, settings, scope, out, again, out)
  {
    hide Normal, Wanted, Given, Puts;
    forall k | k in out
      ensures WantedKey(settings, scope, out, again, k)
    {
      assert WantedKey(settings, scope, values, applyDefaults, k);
    }
  }

  lemma WantedGiven(d: Definition, scope: Scope, out: map<Text, Value>, again: bool)
    ensures d.key in out ==> Given(d, out) == out[d.key]
    ensures d.scope == scope && d.key in out ==> Wanted(d, scope, out, again)
    ensures Wanted(d, scope, out, again) ==> d.scope == scope
  {
  }

  lemma ResultKeysKnown(unicode: Unicode, settings: seq<Definition>, scope: Scope, values: map<Text, Value>,
                        applyDefaults: bool, out: map<Text, Value>)
    requires UniqueKeys(settings) && Gives(unicode, settings, scope, values, applyDefaults, out)
    ensures KeysKnown(settings, scope, out)
  {
    hide Normal;
    forall k | k in out
      ensures Find(settings, k).Some? && Find(settings, k).value.scope == scope
    {
      assert WantedKey(settings, scope, values, applyDefaults, k);
      var d :| d in settings && Wanted(d, scope, values, applyDefaults) && d.key == k;
      FindIsUnique(settings, d);
    }
  }

  /** The normal form of everything given fits its bounds. */
  ghost predicate AllFit(unicode: Unicode, settings: seq<Definition>, scope: Scope, values: map<Text, Value>,
                         applyDefaults: bool)
  {
    forall d <- settings | Wanted(d, scope, values, applyDefaults) :: NormalFits(unicode, d.kind, Given(d, values))
  }

  // ---- Schemas ----

  datatype Rules = Rules(
    unicode: Unicode,
    trim: Text -> Text,
    disallowed: Text -> bool)

  predicate Lower(u: Unit) {
    0x61 <= u <= 0x7A
  }

  predicate Digit(u: Unit) {
    0x30 <= u <= 0x39
  }

  predicate IsSettingKey(t: Text) {
    var body := BeforeNewline(t);
    && 1 <= |body| <= 64 && Lower(body[0])
    && forall i | 1 <= i < |body| :: Lower(body[i]) || 0x41 <= body[i] <= 0x5A || Digit(body[i])
  }

  /** Words of lower-case letters and digits, the first one led by a letter, with one hyphen
      between each two. */
  predicate IsGroup(t: Text) {
    var body := BeforeNewline(t);
    && |t| <= 64 && body != [] && Lower(body[0])
    && (forall i | 0 <= i < |body| :: Lower(body[i]) || Digit(body[i]) || body[i] == 0x2D)
    && (forall i | 0 <= i < |body| && body[i] == 0x2D :: i + 1 < |body| && body[i + 1] != 0x2D)
  }

  function ScopeOf(t: Text): Option<Scope> {
    if t == Units("component") then Some(ComponentScope)
    else if t == Units("instance") then Some(InstanceScope)
    else None
  }

  function KindOf(t: Text): Option<Kind> {
    if t == Units("boolean") then Some(Boolean)
    else if t == Units("integer") then Some(Integer)
    else if t == Units("number") then Some(Decimal)
    else if t == Units("string") then Some(PlainText)
    else if t == Units("enum") then Some(Enumeration)
    else if t == Units("color") then Some(Color)
    else if t == Units("keybinding") then Some(Keybinding)
    else if t == Units("file") then Some(File)
    else if t == Units("directory") then Some(Directory)
    else None
  }

  /** A key is a lower-case letter and up to 63 letters and digits, a group words of lower-case
      letters and digits with one hyphen between each two; either perhaps before a newline. */
  lemma NamesAre(body: Text, t: Text)
    requires t == body || t == body + [0x0A]
    requires body != [] && body[|body| - 1] != 0x0A
    ensures IsSettingKey(t) <==>
        |body| <= 64 && 0x61 <= body[0] <= 0x7A
        && forall i | 0 <= i < |body| :: 0x61 <= body[i] <= 0x7A || 0x41 <= body[i] <= 0x5A || 0x30 <= body[i] <= 0x39
    ensures IsGroup(t) <==>
        |t| <= 64 && 0x61 <= body[0] <= 0x7A && body[|body| - 1] != 0x2D
        && (forall i | 0 <= i < |body| :: 0x61 <= body[i] <= 0x7A || 0x30 <= body[i] <= 0x39 || body[i] == 0x2D)
        && (forall i | 0 < i < |body| :: body[i - 1] != 0x2D || body[i] != 0x2D)
  {
    assert BeforeNewline(t) == body by {
      assert (body + [0x0A])[..|body|] == body;
    }
    if IsGroup(t) {
      forall i | 0 < i < |body|
        ensures body[i - 1] != 0x2D || body[i] != 0x2D
      {
        assert body[i - 1] == 0x2D ==> body[i - 1 + 1] != 0x2D;
      }
    }
  }

  /** The words of a schema for scopes and types. */
  lemma WordsAre()
    ensures ScopeOf(Units("component")) == Some(ComponentScope) && ScopeOf(Units("instance")) == Some(InstanceScope)
    ensures KindOf(Units("boolean")) == Some(Boolean) && KindOf(Units("integer")) == Some(Integer)
    ensures KindOf(Units("number")) == Some(Decimal) && KindOf(Units("string")) == Some(PlainText)
    ensures KindOf(Units("enum")) == Some(Enumeration) && KindOf(Units("color")) == Some(Color)
    ensures KindOf(Units("keybinding")) == Some(Keybinding)
    ensures KindOf(Units("file")) == Some(File) && KindOf(Units("directory")) == Some(Directory)
  {
    assert Units("component")[0] != Units("instance")[0];
    assert Units("boolean")[0] != Units("integer")[0] && Units("number")[0] != Units("string")[0];
    assert Units("enum")[0] != Units("file")[0];
  }

  lemma NoOtherWords(t: Text)
    ensures ScopeOf(t).Some? ==> t == Units("component") || t == Units("instance")
    ensures KindOf(t).Some? ==>
        || t == Units("boolean") || t == Units("integer") || t == Units("number") || t == Units("string")
        || t == Units("enum") || t == Units("color") || t == Units("keybinding") || t == Units("file")
        || t == Units("directory")
  {
  }

  predicate Numeric(kind: Kind) {
    kind == Integer || kind == Decimal
  }

  predicate Selects(kind: Kind) {
    kind == File || kind == Directory
  }

  ghost predicate BoundsSettled(d: Definition) {
    && d.minimum.Some? && d.maximum.Some? && d.minimum.value <= d.maximum.value
    && (d.kind == Integer ==> ExactInteger(d.minimum.value) && ExactInteger(d.maximum.value))
    && (d.step.Some? ==> d.step.value > 0.0 && (d.kind == Integer ==> ExactInteger(d.step.value)))
  }

  ghost predicate LengthsSettled(d: Definition) {
    && d.minimumLength.Some? && d.maximumLength.Some?
    && 0 <= d.minimumLength.value <= d.maximumLength.value <= 4096 && 1 <= d.maximumLength.value
  }

  ghost predicate OptionsSettled(rules: Rules, options: seq<EnumOption>) {
    && 1 <= |options| <= 64
    && (forall i | 0 <= i < |options| :: TextSettled(rules, options[i].value, 128))
    && (forall i, j | 0 <= i < j < |options| :: options[i].value != options[j].value)
  }

  predicate TextSettled(rules: Rules, t: Text, maximum: nat) {
    0 < |t| <= maximum && rules.trim(t) == t && !rules.disallowed(t)
  }

  /** What a definition satisfies once it has been parsed without an error. */
  ghost predicate Settled(rules: Rules, d: Definition) {
    && TextSettled(rules, d.key, 64) && IsSettingKey(d.key)
    && TextSettled(rules, d.group, 64) && IsGroup(d.group)
    && 0 <= d.order <= 100000
    && (Numeric(d.kind) ==> BoundsSettled(d))
    && (d.kind == PlainText ==> LengthsSettled(d))
    && (d.kind == Enumeration ==> OptionsSettled(rules, d.options))
    && (Selects(d.kind) ==> d.defaultValue == Null)
    && exists given :: Normal(rules.unicode, d, given) == Some(d.defaultValue)
  }

  /** A visibility condition names an earlier setting of the same scope and a normal value of it. */
  ghost predicate ConditionSettled(rules: Rules, settings: seq<Definition>, i: nat)
    requires i < |settings|
  {
    settings[i].visibleWhen.Some? ==> exists j | 0 <= j < i :: ReferenceSettled(rules, settings[i], settings[j])
  }

  ghost predicate ReferenceSettled(rules: Rules, d: Definition, previous: Definition)
    requires d.visibleWhen.Some?
  {
    && previous.key == d.visibleWhen.value.key && previous.scope == d.scope
    && previous.kind != Keybinding && !Selects(previous.kind)
    && exists given :: Normal(rules.unicode, previous, given) == Some(d.visibleWhen.value.equals)
  }

  ghost predicate SchemaSettled(rules: Rules, settings: seq<Definition>) {
    && |settings| <= MAXIMUM_SETTINGS && UniqueKeys(settings)
    && (forall d <- settings :: Settled(rules, d))
    && (forall i | 0 <= i < |settings| :: ConditionSettled(rules, settings, i))
  }

  // ---- What an accepted schema guarantees ----

  /** Empty input with defaults succeeds for an accepted schema, exactly when the normalised
      default key bindings still fit; only those can be out of bounds. */
  lemma DefaultsSucceed(rules: Rules, settings: seq<Definition>, scope: Scope)
    requires Idempotent(rules.unicode) && SchemaSettled(rules, settings)
    ensures NormalSettings(rules.unicode, settings, scope, map[], true).Some?
      <==> forall d <- settings | d.scope == scope && d.kind == Keybinding ::
          NormalFits(rules.unicode, Keybinding, d.defaultValue)
  {
    hide Normal, NormalFits, Collected;
    CollectedMeans(rules.unicode, settings, scope, map[], true);
    forall d | d in settings && d.scope == scope
      ensures Normal(rules.unicode, d, d.defaultValue).Some?
        <==> (d.kind == Keybinding ==> NormalFits(rules.unicode, Keybinding, d.defaultValue))
    {
      assert Settled(rules, d);
      var given :| Normal(rules.unicode, d, given) == Some(d.defaultValue);
      NormalIsFixpoint(rules.unicode, d, given);
      OnlyKeysMayOutgrow(rules.unicode, d.kind, d.defaultValue);
    }
  }

  lemma OnlyKeysMayOutgrow(unicode: Unicode, kind: Kind, value: Value)
    ensures kind != Keybinding && (Selects(kind) ==> value == Null) ==> NormalFits(unicode, kind, value)
  {
  }

  /** The value a condition compares with is one its setting can take, unconditionally. */
  lemma ConditionValueIsStable(rules: Rules, settings: seq<Definition>, i: nat) returns (j: nat)
    requires Idempotent(rules.unicode) && SchemaSettled(rules, settings)
    requires i < |settings| && settings[i].visibleWhen.Some?
    ensures
      var condition := settings[i].visibleWhen.value;
      && j < i && Find(settings, condition.key) == Some(settings[j])
      && Normal(rules.unicode, settings[j], condition.equals) == Some(condition.equals)
  {
    hide Normal;
    assert ConditionSettled(rules, settings, i);
    j :| 0 <= j < i && ReferenceSettled(rules, settings[i], settings[j]);
    FindIsUnique(settings, settings[j]);
    var given :| Normal(rules.unicode, settings[j], given) == Some(settings[i].visibleWhen.value.equals);
    NormalIsFixpoint(rules.unicode, settings[j], given);
  }

  ghost predicate Refers(settings: seq<Definition>, i: nat, j: nat)
    requires i < |settings| && j < |settings|
  {
    settings[i].visibleWhen.Some? && settings[i].visibleWhen.value.key == settings[j].key
  }

  ghost predicate Chain(settings: seq<Definition>, path: seq<nat>) {
    && (forall k | 0 <= k < |path| :: path[k] < |settings|)
    && forall k | 0 < k < |path| :: Refers(settings, path[k - 1], path[k])
  }

  /** Visibility references never come back to where they started. */
  lemma {:induction false} VisibilityIsAcyclic(rules: Rules, settings: seq<Definition>, path: seq<nat>)
    requires SchemaSettled(rules, settings) && Chain(settings, path)
    ensures forall a, b | 0 <= a < b < |path| :: path[a] > path[b]
  {
    if |path| > 1 {
      var n := |path| - 1;
      VisibilityIsAcyclic(rules, settings, path[..n]);
      assert Refers(settings, path[n - 1], path[n]);
      assert ConditionSettled(rules, settings, path[n - 1]);
      var j :| 0 <= j < path[n - 1] && ReferenceSettled(rules, settings[path[n - 1]], settings[j]);
      assert j == path[n];
      assert forall a | 0 <= a < n :: path[..n][a] == path[a];
    }
  }

  // ---- The normalising loops ----

  method UnknownFields(fields: map<Text, Value>, allowed: set<Text>) returns (errors: seq<string>)
    ensures errors == [] <==> fields.Keys <= allowed
  {
    errors := [];
    var todo := fields.Keys;
    while todo != {}
      invariant todo <= fields.Keys
      invariant errors == [] <==> fields.Keys - todo <= allowed
    {
      var key :| key in todo;
      todo := todo - {key};
      if key !in allowed {
        errors := errors + ["settings-schema.unknown-field"];
      }
    }
  }

  method ChosenModifiers(items: seq<Value>) returns (modifiers: set<Text>, errors: seq<string>)
    ensures errors == [] <==> ModifierNames(items)
    ensures modifiers == Names(items)
  {
    modifiers, errors := {}, [];
    assert items[..0] == [];
    for index := 0 to |items|
      invariant errors == [] <==> ModifierNames(items[..index])
      invariant modifiers == Names(items[..index])
    {
      var front := items[..index];
      assert items[..index + 1] == front + [items[index]];
      NamesAppend(front, items[index]);
      if !items[index].String? {
        errors := errors + ["settings-value.invalid-modifier"];
      } else {
        var modifier := items[index].text;
        if modifier !in CANONICAL_MODIFIERS {
          errors := errors + ["settings-value.invalid-modifier"];
        } else if modifier in modifiers {
          errors := errors + ["settings-value.duplicate-modifier"];
        }
        modifiers := modifiers + {modifier};
      }
    }
    assert items[..|items|] == items;
  }

  lemma NamesAppend(front: seq<Value>, item: Value)
    ensures Names(front + [item]) == Names(front) + if item.String? then {item.text} else {}
    ensures ModifierNames(front + [item])
      <==> (ModifierNames(front) && item.String? && item.text in CANONICAL_MODIFIERS && item.text !in Names(front))
  {
    var items := front + [item];
    forall t
      ensures t in Names(items) <==> t in Names(front) || (item.String? && item.text == t)
    {
      if t in Names(front) {
        var i :| 0 <= i < |front| && front[i].String? && front[i].text == t;
        assert items[i] == front[i];
      }
      if item.String? && item.text == t {
        assert items[|front|] == item;
      }
    }
    if ModifierNames(items) {
      assert forall i | 0 <= i < |front| :: front[i] == items[i];
      assert items[|front|] == item;
    }
    if ModifierNames(front) && item.String? && item.text !in Names(front) {
      assert forall i | 0 <= i < |front| :: front[i] != item;
    }
  }

  method NormalizeKeybinding(unicode: Unicode, value: Value) returns (outcome: Outcome<Value>)
    ensures outcome.Valid? ==> NormalKeybinding(unicode, value) == Some(outcome.value)
    ensures outcome.Invalid? ==> NormalKeybinding(unicode, value) == None && outcome.errors != []
  {
    hide Ordered, ModifierNames, KeyFits;
    KeysDiffer();
    if value.Null? {
      return Valid(Null);
    }
    if !value.Object? {
      return Invalid(["settings-value.keybinding-required"]);
    }
    var fields := value.fields;
    var errors := UnknownFields(fields, {MODIFIERS, KEY});
    if MODIFIERS !in fields || !fields[MODIFIERS].Array? || |fields[MODIFIERS].items| > 5 {
      errors := errors + ["settings-value.invalid-modifiers"];
    }
    if KEY !in fields || !fields[KEY].String? || !KeyFits(unicode, fields[KEY].text) {
      errors := errors + ["settings-value.invalid-key"];
    }
    var modifiers: set<Text> := {};
    if MODIFIERS in fields && fields[MODIFIERS].Array? {
      var more;
      modifiers, more := ChosenModifiers(fields[MODIFIERS].items);
      errors := errors + more;
    }
    if errors != [] {
      return Invalid(errors);
    }
    var normalized: seq<Value> := [];
    OrderedNone(modifiers);
    assert CANONICAL_MODIFIERS[..0] == [];
    for index := 0 to |CANONICAL_MODIFIERS|
      invariant normalized == Ordered(CANONICAL_MODIFIERS[..index], modifiers)
    {
      var modifier := CANONICAL_MODIFIERS[index];
      OrderedAppend(CANONICAL_MODIFIERS[..index], modifier, modifiers);
      assert CANONICAL_MODIFIERS[..index + 1] == CANONICAL_MODIFIERS[..index] + [modifier];
      if modifier in modifiers {
        normalized := normalized + [String(modifier)];
      }
    }
    assert CANONICAL_MODIFIERS[..|CANONICAL_MODIFIERS|] == CANONICAL_MODIFIERS;
    return Valid(Object(map[MODIFIERS := Array(normalized), KEY := String(unicode.nfc(fields[KEY].text))]));
  }

  lemma OrderedNone(chosen: set<Text>)
    ensures Ordered([], chosen) == []
  {
  }

  lemma OrderedAppend(front: seq<Text>, modifier: Text, chosen: set<Text>)
    ensures Ordered(front + [modifier], chosen)
         == Ordered(front, chosen) + if modifier in chosen then [String(modifier)] else []
  {
    assert (front + [modifier])[..|front|] == front;
  }

  method NormalizeSettingValue(unicode: Unicode, d: Definition, value: Value) returns (outcome: Outcome<Value>)
    ensures outcome.Valid? ==> Normal(unicode, d, value) == Some(outcome.value)
    ensures outcome.Invalid? ==> Normal(unicode, d, value) == None && outcome.errors != []
  {
    match d.kind
    case Boolean =>
      if !value.Bool? {
        return Invalid(["settings-value.boolean-required"]);
      }
      return Valid(value);
    case Integer => outcome := NormalizeNumber(unicode, d, value);
    case Decimal => outcome := NormalizeNumber(unicode, d, value);
    case PlainText =>
      if !value.String? {
        return Invalid(["settings-value.string-required"]);
      }
      var normalized := unicode.nfc(value.text);
      if !TextAllowed(unicode, d, normalized) {
        return Invalid(["settings-value.invalid-string"]);
      }
      return Valid(String(normalized));
    case Enumeration =>
      if !value.String? {
        return Invalid(["settings-value.enum-required"]);
      }
      var normalized := unicode.nfc(value.text);
      if !exists o <- d.options :: o.value == normalized {
        return Invalid(["settings-value.unknown-enum-option"]);
      }
      return Valid(String(normalized));
    case Color =>
      if !value.String? || !IsColor(value.text) {
        return Invalid(["settings-value.invalid-color"]);
      }
      return Valid(String(Upper(value.text)));
    case Keybinding => outcome := NormalizeKeybinding(unicode, value);
    case _ =>
      if value.Null? {
        return Valid(Null);
      }
      if !value.String? || !SelectionFits(unicode, value.text) {
        return Invalid(["settings-value.invalid-portal-selection"]);
      }
      return Valid(String(unicode.nfc(value.text)));
  }

  method NormalizeNumber(unicode: Unicode, d: Definition, value: Value) returns (outcome: Outcome<Value>)
    requires Numeric(d.kind)
    ensures outcome.Valid? ==> Normal(unicode, d, value) == Some(outcome.value)
    ensures outcome.Invalid? ==> Normal(unicode, d, value) == None && outcome.errors != []
  {
    hide OnStep, ExactInteger;
    if !value.Number? || (d.kind == Integer && !ExactInteger(value.number)) {
      return Invalid(["settings-value.invalid-number"]);
    }
    var number := value.number;
    if d.minimum.None? || d.maximum.None? || number < d.minimum.value || number > d.maximum.value {
      return Invalid(["settings-value.number-out-of-range"]);
    }
    if d.step.Some? && !OnStep(d, number) {
      return Invalid(["settings-value.step-mismatch"]);
    }
    return Valid(Number(number));
  }

  method UnknownKeys(settings: seq<Definition>, scope: Scope, values: map<Text, Value>) returns (errors: seq<string>)
    ensures errors == [] <==> KeysKnown(settings, scope, values)
  {
    errors := [];
    var todo := values;
    while todo != map[]
      invariant forall k <- todo :: k in values && todo[k] == values[k]
      invariant errors == []
        <==> forall k <- values | k !in todo :: Find(settings, k).Some? && Find(settings, k).value.scope == scope
      decreases |todo|
    {
      var key :| key in todo;
      var found := Find(settings, key);
      if found.None? || found.value.scope != scope {
        errors := errors + ["settings-value.unknown-or-wrong-scope"];
      }
      todo := todo - {key};
    }
  }

  method NormalizeSettings(unicode: Unicode, settings: seq<Definition>, scope: Scope, values: map<Text, Value>,
                           applyDefaults: bool)
    returns (outcome: Outcome<map<Text, Value>>)
    ensures outcome.Valid? ==> NormalSettings(unicode, settings, scope, values, applyDefaults) == Some(outcome.value)
    ensures outcome.Invalid? ==>
        NormalSettings(unicode, settings, scope, values, applyDefaults) == None && outcome.errors != []
  {
    hide Normal, KeysKnown;
    var errors := UnknownKeys(settings, scope, values);
    var normalized: map<Text, Value> := map[];
    assert settings[..0] == [];
    for index := 0 to |settings|
      invariant errors == []
        <==> (KeysKnown(settings, scope, values)
              && Collected(unicode, settings[..index], scope, values, applyDefaults).Some?)
      invariant Collected(unicode, settings[..index], scope, values, applyDefaults).Some? ==>
          normalized == Collected(unicode, settings[..index], scope, values, applyDefaults).value
    {
      var d := settings[index];
      assert settings[..index + 1][..index] == settings[..index];
      if d.scope == scope && (d.key in values || applyDefaults) {
        var value := if d.key in values then values[d.key] else d.defaultValue;
        var normal := NormalizeSettingValue(unicode, d, value);
        if normal.Invalid? {
          errors := errors + normal.errors;
        } else {
          normalized := normalized[d.key := normal.value];
        }
      }
    }
    assert settings[..|settings|] == settings;
    return if errors == [] then Valid(normalized) else Invalid(errors);
  }
}
