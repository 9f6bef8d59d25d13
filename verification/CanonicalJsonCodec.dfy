/** `Serializer` and `Reader` of the canonical JSON codec: an output buffer, a position and a
    value counter, advanced step by step and stopped by the first failure. */
module CanonicalJsonCodec {
  import opened Options
  import opened UnicodeText
  import opened Binary64Numbers
  import opened CanonicalJson
  import opened CanonicalJsonInversion

  /** `t`, holding `values` values, still fits behind what is already written. */
  ghost predicate Fits(c: Settings, written: nat, counted: nat, t: Text, values: nat) {
    WellFormed(t) && written + |Utf8(t)| <= c.maximumBytes && counted + values <= c.maximumValues
  }

  class Serializer {
    const c: Settings
    var output: Bytes
    var valueCount: nat

    ghost predicate Valid()
      reads this
    {
      Sound(c.codec) && |output| <= c.maximumBytes && valueCount <= c.maximumValues
    }

    constructor (c: Settings)
      requires Sound(c.codec) && LimitsOk(c)
      ensures Valid() && this.c == c && output == [] && valueCount == 0
    {
      this.c, output, valueCount := c, [], 0;
    }

    method Append(bytes: Bytes) returns (ok: bool)
      requires Valid()
      modifies this`output
      ensures Valid()
      ensures ok <==> |old(output)| + |bytes| <= c.maximumBytes
      ensures output == if ok then old(output) + bytes else old(output)
    {
      ok := |bytes| <= c.maximumBytes - |output|;
      if ok {
        output := output + bytes;
      }
    }

    method WriteString(t: Text) returns (ok: bool)
      requires Valid()
      modifies this`output
      ensures Valid()
      ensures ok <==>
          (ValidText(c.policy, t) && WellFormed(Quoted(t)) && |old(output)| + |Utf8(Quoted(t))| <= c.maximumBytes)
      ensures ok ==> output == old(output) + Utf8(Quoted(t))
    {
      if !ValidText(c.policy, t) {
        return false;
      }
      ok := WriteQuoted(t);
    }

    method WriteQuoted(t: Text) returns (ok: bool)
      requires Valid() && WellFormed(t)
      modifies this`output
      ensures Valid()
      ensures WellFormed(Quoted(t))
      ensures ok <==> |old(output)| + |Utf8(Quoted(t))| <= c.maximumBytes
      ensures ok ==> output == old(output) + Utf8(Quoted(t))
    {
      hide Utf8, Escaped, WellFormed, EscapedUnit, Quoted;
      EscapedIsWellFormed(t);
      QuotedBytes(t);
      ghost var whole, done := Utf8(Escaped(t)), [QUOTE];
      ok := Append([QUOTE]);
      var index := 0;
      assert t[0..] == t;
      while ok && index < |t|
        invariant Valid() && index <= |t| && WellFormed(t[index..]) && WellFormed(Escaped(t[index..]))
        invariant done + Utf8(Escaped(t[index..])) == [QUOTE] + whole
        invariant if ok then output == old(output) + done else |old(output)| + |done| > c.maximumBytes
        decreases |t| - index, ok
      {
        var encoded := EncodeNext(t, index);
        var n := if High(t[index]) then 2 else 1;
        ghost var rest := Utf8(Escaped(t[index + n..]));
        Associates(done, encoded, rest);
        done := done + encoded;
        ok := Append(encoded);
        index := index + n;
      }
      if ok {
        EmptyText(t[index..]);
        assert done == [QUOTE] + whole;
        ok := Append([QUOTE]);
      }
    }

    method WriteValue(v: Value, depth: nat) returns (ok: bool)
      requires Valid()
      modifies this`output, this`valueCount
      ensures Valid()
      ensures ok <==> Encodable(c, v, depth) && Fits(c, |old(output)|, old(valueCount), Render(c, v), Count(v))
      ensures ok ==> output == old(output) + Utf8(Render(c, v)) && valueCount == old(valueCount) + Count(v)
      decreases v, 1
    {
      hide Utf8, WellFormed, Sound, Quoted, RenderItems, RenderMembers, CountItems, CountMembers;
      CountIsPositive(v);
      if valueCount >= c.maximumValues {
        return false;
      }
      valueCount := valueCount + 1;
      match v {
        case Null => LiteralBytes(NULL_TEXT); ok := Append(NULL_TEXT);
        case Bool(b) =>
          LiteralBytes(TRUE_TEXT);
          LiteralBytes(FALSE_TEXT);
          ok := Append(if b then TRUE_TEXT else FALSE_TEXT);
        case Num(n) => ok := WriteNumber(n);
        case Str(t) => ok := WriteString(t);
        case Arr(items) => ok := WriteArray(v, depth);
        case Obj(m) => ok := WriteObject(v, depth);
      }
    }

    method WriteNumber(n: Number) returns (ok: bool)
      requires Valid()
      modifies this`output
      ensures Valid()
      ensures var lexeme := c.codec.show(BitsOf(n));
        && WellFormed(lexeme)
        && (ok <==> NumberOk(n) && |old(output)| + |Utf8(lexeme)| <= c.maximumBytes)
        && (ok ==> output == old(output) + Utf8(lexeme))
      ensures ok ==> !n.NotFinite? && ValueOf(BitsOf(n)) == RealOf(n)
    {
      hide Utf8, WellFormed, ValueOf;
      RenderIsWellFormed(c, Num(Real(BitsOf(n))), 0);
      ok := false;
      if NumberOk(n) {
        NumberIsKept(n);
        ok := Append(Utf8(c.codec.show(BitsOf(n))));
      }
    }

    /** `[`, every element, `]`; `done` follows the bytes of an encodable array. */
    method WriteArray(v: Value, depth: nat) returns (ok: bool)
      requires Valid() && v.Arr?
      modifies this`output, this`valueCount
      ensures Valid()
      ensures ok <==> Encodable(c, v, depth) && Fits(c, |old(output)|, old(valueCount), Render(c, v), CountItems(v, 0))
      ensures ok ==> output == old(output) + Utf8(Render(c, v)) && valueCount == old(valueCount) + CountItems(v, 0)
      decreases v, 0, 1
    {
      hide Utf8, WellFormed, Render, Sound, Element, ItemsAfter, Encodable, CountItems;
      NoDeeper(c, v, depth);
      if depth > c.maximumDepth {
        return false;
      }
      ghost var encodable, done := Encodable(c, v, depth), [OPEN_BRACKET];
      if encodable {
        ArrayBytes(c, v, depth);
      }
      ok := Append([OPEN_BRACKET]);
      var index := 0;
      while ok && index < |v.items|
        invariant Valid() && index <= |v.items|
        invariant encodable ==>
            && WellFormed(Render(c, v)) && WellFormed(ItemsAfter(c, v, index))
            && done + Utf8(ItemsAfter(c, v, index)) == Utf8(Render(c, v))
        invariant ok && encodable ==> output == old(output) + done
        invariant ok ==> valueCount + CountItems(v, index) == old(valueCount) + CountItems(v, 0)
        invariant ok ==> forall i | 0 <= i < index :: Encodable(c, v.items[i], depth + 1)
        invariant !ok ==> !(encodable && Fits(c, |old(output)|, old(valueCount), Render(c, v), CountItems(v, 0)))
        decreases |v.items| - index, ok
      {
        ItemsCount(v, index);
        ok := WriteElement(v, index, depth);
        if encodable {
          ItemsAfterStep(c, v, index, depth);
          ghost var element, rest := Utf8(Element(c, v, index)), Utf8(ItemsAfter(c, v, index + 1));
          Associates(done, element, rest);
          done := done + element;
        }
        index := index + 1;
      }
      if ok {
        AllItemsEncodable(c, v, depth);
        ItemsAfterEnd(c, v);
        NoItemsCount(v);
        ok := Append([CLOSE_BRACKET]);
      }
    }

    method WriteElement(v: Value, i: nat, depth: nat) returns (ok: bool)
      requires Valid() && v.Arr? && i < |v.items|
      modifies this`output, this`valueCount
      ensures Valid()
      ensures ok <==>
          && Encodable(c, v.items[i], depth + 1)
          && Fits(c, |old(output)|, old(valueCount), Element(c, v, i), Count(v.items[i]))
      ensures ok ==>
          && output == old(output) + Utf8(Element(c, v, i))
          && valueCount == old(valueCount) + Count(v.items[i])
      decreases v, 0, 0
    {
      hide Utf8, WellFormed, Render, Encodable, Sound;
      if Encodable(c, v.items[i], depth + 1) {
        ElementBytes(c, v, i, depth);
      }
      if i > 0 {
        ok := Append([COMMA]);
        if !ok {
          return;
        }
      }
      ok := WriteValue(v.items[i], depth + 1);
    }

    method WriteObject(v: Value, depth: nat) returns (ok: bool)
      requires Valid() && v.Obj?
      modifies this`output, this`valueCount
      ensures Valid()
      ensures ok <==>
          (Encodable(c, v, depth) && Fits(c, |old(output)|, old(valueCount), Render(c, v), CountMembers(v, 0)))
      ensures ok ==> output == old(output) + Utf8(Render(c, v)) && valueCount == old(valueCount) + CountMembers(v, 0)
      decreases v, 0, 1
    {
      hide Utf8, WellFormed, Render, Sound, Keys, Member, MembersAfter, ValidText, Encodable, CountMembers, Count;
      NoDeeper(c, v, depth);
      if depth > c.maximumDepth {
        return false;
      }
      ghost var encodable, done := Encodable(c, v, depth), [OPEN_BRACE];
      if encodable {
        ObjectBytes(c, v, depth);
      }
      ok := Append([OPEN_BRACE]);
      var keys := SortedKeysOf(v);
      var index := 0;
      while ok && index < |keys|
        invariant Valid() && index <= |keys|
        invariant encodable ==>
            && WellFormed(Render(c, v)) && WellFormed(MembersAfter(c, v, index))
            && done + Utf8(MembersAfter(c, v, index)) == Utf8(Render(c, v))
        invariant ok && encodable ==> output == old(output) + done
        invariant ok ==> valueCount + CountMembers(v, index) == old(valueCount) + CountMembers(v, 0)
        invariant ok ==> forall i | 0 <= i < index ::
            ValidText(c.policy, keys[i]) && Encodable(c, v.members[keys[i]], depth + 1)
        invariant !ok ==> !(encodable && Fits(c, |old(output)|, old(valueCount), Render(c, v), CountMembers(v, 0)))
        decreases |keys| - index, ok
      {
        MembersCount(v, index);
        ok := WriteMember(v, keys, index, depth);
        if encodable {
          MembersAfterStep(c, v, index, depth);
          ghost var member, rest := Utf8(Member(c, v, index)), Utf8(MembersAfter(c, v, index + 1));
          Associates(done, member, rest);
          done := done + member;
        }
        index := index + 1;
      }
      if ok {
        AllMembersEncodable(c, v, depth);
        MembersAfterEnd(c, v);
        NoMembersCount(v);
        ok := Append([CLOSE_BRACE]);
      }
    }

    method WriteMember(v: Value, keys: seq<Text>, i: nat, depth: nat) returns (ok: bool)
      requires Valid() && v.Obj? && keys == Keys(v) && i < |keys|
      modifies this`output, this`valueCount
      ensures Valid()
      ensures ok <==>
          && ValidText(c.policy, keys[i]) && Encodable(c, v.members[keys[i]], depth + 1)
          && Fits(c, |old(output)|, old(valueCount), Member(c, v, i), Count(v.members[keys[i]]))
      ensures ok ==>
          && output == old(output) + Utf8(Member(c, v, i))
          && valueCount == old(valueCount) + Count(v.members[keys[i]])
      decreases v, 0, 0
    {
      hide Utf8, WellFormed, Render, Encodable, Sound, Keys, Quoted, MemberHead, Member;
      if ValidText(c.policy, keys[i]) && Encodable(c, v.members[keys[i]], depth + 1) {
        MemberBytes(c, v, i, depth);
      }
      ok := WriteMemberHead(keys[i], i > 0);
      if ok {
        ok := WriteValue(v.members[keys[i]], depth + 1);
      }
    }

    method WriteMemberHead(key: Text, behind: bool) returns (ok: bool)
      requires Valid()
      modifies this`output
      ensures Valid()
      ensures ok <==> ValidText(c.policy, key) && WellFormed(Quoted(key))
                      && |old(output)| + |MemberHead(key, behind)| <= c.maximumBytes
      ensures ok ==> output == old(output) + MemberHead(key, behind)
    {
      hide Utf8, WellFormed, Quoted, ValidText;
      if behind {
        ok := Append([COMMA]);
        if !ok {
          return;
        }
      }
      ok := WriteString(key);
      if ok {
        ok := Append([COLON]);
      }
    }
  }

  /** The bytes of the next character: a pair at once, anything else escaped on its own. */
  method EncodeNext(t: Text, index: nat) returns (encoded: Bytes)
    requires index < |t| && WellFormed(t[index..])
    ensures var n := if High(t[index]) then 2 else 1;
      && index + n <= |t| && WellFormed(t[index + n..]) && WellFormed(Escaped(t[index + n..]))
      && WellFormed(Escaped(t[index..]))
      && Utf8(Escaped(t[index..])) == encoded + Utf8(Escaped(t[index + n..]))
  {
    hide Utf8, Escaped, WellFormed, EscapedUnit;
    NextPiece(t[index..]);
    var n := if High(t[index]) then 2 else 1;
    assert t[index..][n..] == t[index + n..];
    encoded := if High(t[index]) then BytesOf(Pair(t[index], t[index + 1])) else Utf8(EscapedUnit(t[index]));
  }

  method SortedKeysOf(v: Value) returns (keys: seq<Text>)
    requires v.Obj?
    ensures keys == Keys(v)
  {
    keys := SortKeys(v.members.Keys);
  }

  // ---- The bytes of arrays and objects, element by element ----

  ghost function Element(c: Settings, v: Value, i: nat): Text
    requires v.Arr? && i < |v.items|
  {
    (if i > 0 then [COMMA] else []) + Render(c, v.items[i])
  }

  /** What is still to be written of an array behind its first `i` elements. */
  ghost function ItemsAfter(c: Settings, v: Value, i: nat): Text
    requires v.Arr? && i <= |v.items|
  {
    (if 0 < i < |v.items| then [COMMA] else []) + RenderItems(c, v, i) + [CLOSE_BRACKET]
  }

  lemma AsciiBytes(u: Unit)
    requires u < 0x80
    ensures WellFormed([u]) && Utf8([u]) == [u]
  {
    assert [u][1..] == [];
  }

  lemma {:induction false} LiteralBytes(t: Text)
    requires forall i | 0 <= i < |t| :: t[i] < 0x80
    ensures WellFormed(t) && Utf8(t) == t
  {
    if t != [] {
      LiteralBytes(t[1..]);
    }
  }

  lemma CountIsPositive(v: Value)
    ensures Count(v) >= 1
  {
  }

  lemma NoDeeper(c: Settings, v: Value, depth: nat)
    ensures (v.Arr? || v.Obj?) && Encodable(c, v, depth) ==> depth <= c.maximumDepth
  {
  }

  lemma ItemsCount(v: Value, i: nat)
    requires v.Arr? && i < |v.items|
    ensures CountItems(v, i) == Count(v.items[i]) + CountItems(v, i + 1)
  {
  }

  lemma NoItemsCount(v: Value)
    requires v.Arr?
    ensures CountItems(v, |v.items|) == 0
  {
  }

  lemma MembersCount(v: Value, i: nat)
    requires v.Obj? && i < |Keys(v)|
    ensures CountMembers(v, i) == Count(v.members[Keys(v)[i]]) + CountMembers(v, i + 1)
  {
  }

  lemma NoMembersCount(v: Value)
    requires v.Obj?
    ensures CountMembers(v, |Keys(v)|) == 0
  {
  }

  lemma ElementBytes(c: Settings, v: Value, i: nat, depth: nat)
    requires v.Arr? && i < |v.items| && Sound(c.codec) && Encodable(c, v.items[i], depth + 1)
    ensures WellFormed(Render(c, v.items[i])) && WellFormed(Element(c, v, i))
    ensures Utf8(Element(c, v, i)) == (if i > 0 then [COMMA] else []) + Utf8(Render(c, v.items[i]))
  {
    hide Render, Encodable;
    RenderIsWellFormed(c, v.items[i], depth + 1);
    AsciiBytes(COMMA);
    WellFormedAppend([COMMA], Render(c, v.items[i]));
    assert [] + Render(c, v.items[i]) == Render(c, v.items[i]);
  }

  lemma ItemsAfterSplits(c: Settings, v: Value, i: nat)
    requires v.Arr? && i < |v.items|
    ensures ItemsAfter(c, v, i) == Element(c, v, i) + ItemsAfter(c, v, i + 1)
  {
    hide Render;
  }

  lemma ItemsAfterStep(c: Settings, v: Value, i: nat, depth: nat)
    requires v.Arr? && i < |v.items| && Sound(c.codec) && Encodable(c, v, depth)
    ensures Encodable(c, v.items[i], depth + 1) && Count(v.items[i]) <= CountItems(v, i) <= CountItems(v, 0)
    ensures WellFormed(Element(c, v, i)) && WellFormed(ItemsAfter(c, v, i)) && WellFormed(ItemsAfter(c, v, i + 1))
    ensures Utf8(ItemsAfter(c, v, i)) == Utf8(Element(c, v, i)) + Utf8(ItemsAfter(c, v, i + 1))
  {
    hide Render, Encodable, Utf8, WellFormed, RenderItems, Element;
    ItemEncodable(c, v, i, depth);
    ElementBytes(c, v, i, depth);
    ItemsAreWellFormed(c, v, i + 1, depth);
    AsciiBytes(COMMA);
    AsciiBytes(CLOSE_BRACKET);
    EmptyText([]);
    var mark: Text, next := if i + 1 < |v.items| then [COMMA] else [], RenderItems(c, v, i + 1);
    WellFormedAppend(mark, next);
    WellFormedAppend(mark + next, [CLOSE_BRACKET]);
    ItemsAfterSplits(c, v, i);
    WellFormedAppend(Element(c, v, i), ItemsAfter(c, v, i + 1));
    ItemsCountDown(v, i);
  }

  lemma {:induction false} ItemsCountDown(v: Value, i: nat)
    requires v.Arr? && i <= |v.items|
    ensures CountItems(v, i) <= CountItems(v, 0)
  {
    if i > 0 {
      ItemsCountDown(v, i - 1);
    }
  }

  lemma ArrayBytes(c: Settings, v: Value, depth: nat)
    requires v.Arr? && Sound(c.codec) && Encodable(c, v, depth)
    ensures WellFormed(Render(c, v)) && WellFormed(ItemsAfter(c, v, 0))
    ensures [OPEN_BRACKET] + Utf8(ItemsAfter(c, v, 0)) == Utf8(Render(c, v))
  {
    hide Encodable, Utf8, WellFormed, RenderItems;
    ItemsAreWellFormed(c, v, 0, depth);
    AsciiBytes(OPEN_BRACKET);
    AsciiBytes(CLOSE_BRACKET);
    WellFormedAppend(RenderItems(c, v, 0), [CLOSE_BRACKET]);
    assert [] + RenderItems(c, v, 0) == RenderItems(c, v, 0);
    assert Render(c, v) == [OPEN_BRACKET] + ItemsAfter(c, v, 0);
    WellFormedAppend([OPEN_BRACKET], ItemsAfter(c, v, 0));
  }

  lemma AllItemsEncodable(c: Settings, v: Value, depth: nat)
    requires v.Arr? && depth <= c.maximumDepth
    requires forall i | 0 <= i < |v.items| :: Encodable(c, v.items[i], depth + 1)
    ensures Encodable(c, v, depth)
  {
  }

  lemma ItemsAfterEnd(c: Settings, v: Value)
    requires v.Arr?
    ensures WellFormed(ItemsAfter(c, v, |v.items|)) && Utf8(ItemsAfter(c, v, |v.items|)) == [CLOSE_BRACKET]
  {
    AsciiBytes(CLOSE_BRACKET);
    assert ItemsAfter(c, v, |v.items|) == [CLOSE_BRACKET];
  }

  // ---- Objects likewise ----

  ghost function Member(c: Settings, v: Value, i: nat): Text
    requires v.Obj? && i < |Keys(v)|
  {
    (if i > 0 then [COMMA] else []) + Quoted(Keys(v)[i]) + [COLON] + Render(c, v.members[Keys(v)[i]])
  }

  ghost function MembersAfter(c: Settings, v: Value, i: nat): Text
    requires v.Obj? && i <= |Keys(v)|
  {
    (if 0 < i < |Keys(v)| then [COMMA] else []) + RenderMembers(c, v, i) + [CLOSE_BRACE]
  }

  /** What is written of a member before its value. */
  ghost function MemberHead(key: Text, behind: bool): Bytes
    requires WellFormed(Quoted(key))
  {
    (if behind then [COMMA] else []) + Utf8(Quoted(key)) + [COLON]
  }

  lemma MemberBytes(c: Settings, v: Value, i: nat, depth: nat)
    requires v.Obj? && i < |Keys(v)| && Sound(c.codec)
    requires ValidText(c.policy, Keys(v)[i]) && Encodable(c, v.members[Keys(v)[i]], depth + 1)
    ensures var key := Keys(v)[i];
      && WellFormed(Quoted(key)) && WellFormed(Render(c, v.members[key])) && WellFormed(Member(c, v, i))
      && Utf8(Member(c, v, i)) == MemberHead(key, i > 0) + Utf8(Render(c, v.members[key]))
  {
    hide Render, Encodable, Keys, Quoted, Utf8, WellFormed;
    var key := Keys(v)[i];
    WellFormedText(c.policy, key);
    QuotedIsWellFormed(key);
    RenderIsWellFormed(c, v.members[key], depth + 1);
    AsciiBytes(COMMA);
    AsciiBytes(COLON);
    EmptyText([]);
    var mark: Text := if i > 0 then [COMMA] else [];
    WellFormedAppend(mark, Quoted(key));
    WellFormedAppend(mark + Quoted(key), [COLON]);
    WellFormedAppend(mark + Quoted(key) + [COLON], Render(c, v.members[key]));
  }

  lemma MembersAfterSplits(c: Settings, v: Value, i: nat)
    requires v.Obj? && i < |Keys(v)|
    ensures MembersAfter(c, v, i) == Member(c, v, i) + MembersAfter(c, v, i + 1)
  {
    hide Render, Keys, Quoted;
  }

  lemma MembersAfterStep(c: Settings, v: Value, i: nat, depth: nat)
    requires v.Obj? && i < |Keys(v)| && Sound(c.codec) && Encodable(c, v, depth)
    ensures var key := Keys(v)[i];
      && ValidText(c.policy, key) && Encodable(c, v.members[key], depth + 1)
      && Count(v.members[key]) <= CountMembers(v, i) <= CountMembers(v, 0)
    ensures WellFormed(Member(c, v, i)) && WellFormed(MembersAfter(c, v, i)) && WellFormed(MembersAfter(c, v, i + 1))
    ensures Utf8(MembersAfter(c, v, i)) == Utf8(Member(c, v, i)) + Utf8(MembersAfter(c, v, i + 1))
  {
    hide Render, Encodable, Keys, Quoted, Utf8, WellFormed, ValidText, RenderMembers, Member, CountMembers;
    MemberEncodable(c, v, Keys(v)[i], depth);
    MemberBytes(c, v, i, depth);
    MembersAreWellFormed(c, v, i + 1, depth);
    AsciiBytes(COMMA);
    AsciiBytes(CLOSE_BRACE);
    EmptyText([]);
    var mark: Text, next := if i + 1 < |Keys(v)| then [COMMA] else [], RenderMembers(c, v, i + 1);
    WellFormedAppend(mark, next);
    WellFormedAppend(mark + next, [CLOSE_BRACE]);
    MembersAfterSplits(c, v, i);
    WellFormedAppend(Member(c, v, i), MembersAfter(c, v, i + 1));
    MembersCount(v, i);
    MembersCountDown(v, i);
  }

  lemma {:induction false} MembersCountDown(v: Value, i: nat)
    requires v.Obj? && i <= |Keys(v)|
    ensures CountMembers(v, i) <= CountMembers(v, 0)
  {
    if i > 0 {
      MembersCountDown(v, i - 1);
    }
  }

  lemma ObjectBytes(c: Settings, v: Value, depth: nat)
    requires v.Obj? && Sound(c.codec) && Encodable(c, v, depth)
    ensures WellFormed(Render(c, v)) && WellFormed(MembersAfter(c, v, 0))
    ensures [OPEN_BRACE] + Utf8(MembersAfter(c, v, 0)) == Utf8(Render(c, v))
  {
    hide Encodable, Utf8, WellFormed, RenderMembers;
    MembersAreWellFormed(c, v, 0, depth);
    AsciiBytes(OPEN_BRACE);
    AsciiBytes(CLOSE_BRACE);
    WellFormedAppend(RenderMembers(c, v, 0), [CLOSE_BRACE]);
    assert [] + RenderMembers(c, v, 0) == RenderMembers(c, v, 0);
    assert Render(c, v) == [OPEN_BRACE] + MembersAfter(c, v, 0);
    WellFormedAppend([OPEN_BRACE], MembersAfter(c, v, 0));
  }

  lemma AllMembersEncodable(c: Settings, v: Value, depth: nat)
    requires v.Obj? && depth <= c.maximumDepth
    requires forall i | 0 <= i < |Keys(v)| ::
        ValidText(c.policy, Keys(v)[i]) && Encodable(c, v.members[Keys(v)[i]], depth + 1)
    ensures Encodable(c, v, depth)
  {
    hide ValidText;
    KeysAreSorted(v);
    forall k | k in v.members
      ensures ValidText(c.policy, k) && Encodable(c, v.members[k], depth + 1)
    {
      assert k in Keys(v);
    }
  }

  lemma MembersAfterEnd(c: Settings, v: Value)
    requires v.Obj?
    ensures WellFormed(MembersAfter(c, v, |Keys(v)|)) && Utf8(MembersAfter(c, v, |Keys(v)|)) == [CLOSE_BRACE]
  {
    hide Keys;
    AsciiBytes(CLOSE_BRACE);
    assert MembersAfter(c, v, |Keys(v)|) == [CLOSE_BRACE];
  }

  lemma EmptyText(t: Text)
    requires t == []
    ensures WellFormed(t) && Escaped(t) == [] && Utf8(t) == []
  {
  }

  lemma QuotedBytes(t: Text)
    requires WellFormed(Escaped(t))
    ensures WellFormed(Quoted(t)) && Utf8(Quoted(t)) == [QUOTE] + Utf8(Escaped(t)) + [QUOTE]
  {
    WellFormedAppend([QUOTE], Escaped(t));
    WellFormedAppend([QUOTE] + Escaped(t), [QUOTE]);
    assert Utf8([QUOTE]) == [QUOTE];
  }

  /** The first character of a text, escaped on its own. */
  lemma NextPiece(t: Text)
    requires t != [] && WellFormed(t)
    ensures High(t[0]) ==> |t| > 1 && Low(t[1])
    ensures !High(t[0]) ==> Scalar(t[0])
    ensures var n := if High(t[0]) then 2 else 1;
      && WellFormed(t[n..]) && WellFormed(Escaped(t[n..])) && WellFormed(Escaped(t))
      && (!High(t[0]) ==> WellFormed(EscapedUnit(t[0])))
      && Utf8(Escaped(t)) == (if High(t[0]) then BytesOf(Pair(t[0], t[1])) else Utf8(EscapedUnit(t[0])))
                             + Utf8(Escaped(t[n..]))
  {
    EscapedIsWellFormed(t);
    if High(t[0]) {
      EscapedIsWellFormed(t[2..]);
      assert t[1..][1..] == t[2..];
      assert Escaped(t) == [t[0], t[1]] + Escaped(t[2..]);
      assert Escaped(t)[2..] == Escaped(t[2..]);
    } else {
      EscapedIsWellFormed(t[1..]);
      EscapedUnitIsWellFormed(t[0]);
      WellFormedAppend(EscapedUnit(t[0]), Escaped(t[1..]));
    }
  }

  // ---- The reader ----

  class Reader {
    const c: Settings
    const text: Text
    var position: nat
    var valueCount: nat
    var failed: bool

    constructor (c: Settings, text: Text)
      ensures Valid() && this.c == c && this.text == text && Rest() == text && valueCount == 0 && !failed
    {
      this.c, this.text, position, valueCount, failed := c, text, 0, 0, false;
    }

    predicate Valid()
      reads this
    {
      position <= |text|
    }

    ghost function Rest(): Text
      reads this
      requires Valid()
    {
      text[position..]
    }

    /** The reader stands where the specification does. */
    ghost predicate At<T>(spec: Reading<T>, from: nat)
      reads this
    {
      && Valid() && from <= position
      && (failed <==> spec.Failed?)
      && (spec.Read? ==> Rest() == spec.rest)
    }

    predicate AtEnd()
      reads this
    {
      position >= |text|
    }

    predicate Sees(u: Unit)
      reads this
    {
      position < |text| && text[position] == u
    }

    predicate SeesDigit()
      reads this
    {
      position < |text| && Digit(text[position])
    }

    method SkipWhitespace()
      requires Valid()
      modifies this`position
      ensures Valid() && old(position) <= position
      ensures Rest() == SkipSpace(old(Rest()))
    {
      while position < |text| && Space(text[position])
        invariant Valid() && old(position) <= position
        invariant SkipSpace(Rest()) == SkipSpace(old(Rest()))
      {
        assert Rest()[1..] == text[position + 1..];
        position := position + 1;
      }
    }

    method SkipDecimal()
      requires Valid()
      modifies this`position
      ensures Valid() && old(position) <= position
      ensures Rest() == SkipDigits(old(Rest()))
    {
      while SeesDigit()
        invariant Valid() && old(position) <= position
        invariant SkipDigits(Rest()) == SkipDigits(old(Rest()))
        decreases |text| - position
      {
        assert Rest()[1..] == text[position + 1..];
        position := position + 1;
      }
    }

    method ReadHexCodeUnit() returns (value: Option<Unit>)
      requires Valid()
      modifies this`position
      ensures Valid() && old(position) <= position
      ensures value == HexUnit(old(Rest()))
      ensures value.Some? ==> position == old(position) + 4
    {
      if position + 4 > |text| {
        return None;
      }
      var start := position;
      var number: nat := 0;
      for count := 0 to 4
        invariant position == start + count <= |text|
        invariant AllHex(text[start..position]) && number == HexNumber(text[start..position])
      {
        var digit := HexValue(text[position]);
        position := position + 1;
        if digit.None? {
          assert old(Rest())[count] == text[start + count];
          return None;
        }
        AppendDigit(text[start..position - 1], text[position - 1]);
        assert text[start..position] == text[start..position - 1] + [text[position - 1]];
        number := number * 16 + digit.value;
      }
      FourDigits(text[start..position], old(Rest()));
      value := Some(number);
    }

    /** One character or escape of a string. */
    method ReadCharacter() returns (units: Option<Text>)
      requires Valid() && position < |text|
      modifies this`position
      ensures Valid() && old(position) <= position
      ensures var piece := ReadPiece(old(Rest()));
        && units.None? == piece.None?
        && (piece.Some? ==> units.value == piece.value.0 && position == old(position) + piece.value.1)
    {
      ghost var s := Rest();
      var unit := text[position];
      position := position + 1;
      if unit < 0x20 || Low(unit) {
        return None;
      }
      if unit != BACKSLASH {
        if !High(unit) {
          return Some([unit]);
        }
        if position >= |text| || !Low(text[position]) {
          return None;
        }
        position := position + 1;
        return Some([unit, text[position - 1]]);
      }
      if position >= |text| {
        return None;
      }
      var escape := text[position];
      assert escape == s[1];
      position := position + 1;
      if escape != 0x75 {
        var plain := Unescape(escape);
        return if plain.None? then None else Some([plain.value]);
      }
      assert Rest() == s[2..];
      units := ReadCodeUnits();
    }

    /** The units of a `\\u` escape, with its second half when it starts a pair. */
    method ReadCodeUnits() returns (units: Option<Text>)
      requires Valid() && position >= 2
      requires text[position - 2] == BACKSLASH && text[position - 1] == 0x75
      modifies this`position
      ensures Valid() && old(position) <= position
      ensures var piece := ReadPiece(text[old(position) - 2..]);
        && units.None? == piece.None?
        && (piece.Some? ==> units.value == piece.value.0 && position == old(position) - 2 + piece.value.1)
    {
      ghost var s := text[position - 2..];
      assert s[2..] == Rest();
      var high := ReadHexCodeUnit();
      if high.None? || Low(high.value) {
        return None;
      }
      if !High(high.value) {
        return Some([high.value]);
      }
      if position + 2 > |text| || text[position] != BACKSLASH || text[position + 1] != 0x75 {
        return None;
      }
      position := position + 2;
      assert s[8..] == Rest();
      var low := ReadHexCodeUnit();
      if low.None? || !Low(low.value) {
        return None;
      }
      units := Some([high.value, low.value]);
    }

    method ReadString() returns (value: Text)
      requires Valid() && position < |text| && !failed
      modifies this`position, this`failed
      ensures var spec := ReadText(c.policy, old(Rest())[1..], []);
        At(spec, old(position) + 1) && (spec.Read? ==> value == spec.value)
    {
      ghost var spec := ReadText(c.policy, Rest()[1..], []);
      value := [];
      position := position + 1;
      while position < |text| && text[position] != QUOTE
        invariant Valid() && !failed && old(position) + 1 <= position
        invariant ReadText(c.policy, Rest(), value) == spec
        decreases |text| - position
      {
        ghost var s := Rest();
        var units := ReadCharacter();
        if units.None? {
          failed := true;
          return;
        }
        assert Rest() == s[ReadPiece(s).value.1..];
        value := value + units.value;
      }
      if position >= |text| || !ValidText(c.policy, value) {
        failed := true;
        return;
      }
      position := position + 1;
    }

    /** Sign and whole part, as far as the grammar allows them. */
    method ScanInteger() returns (ok: bool)
      requires Valid()
      modifies this`position
      ensures Valid() && old(position) <= position
      ensures ok <==> IntegerRest(old(Rest())).Some?
      ensures ok ==> Rest() == IntegerRest(old(Rest())).value
    {
      ghost var s := Rest();
      if Sees(ZERO) {
        position := position + 1;
        assert Rest() == s[1..];
        return !SeesDigit();
      }
      ok := SeesDigit();
      if ok {
        position := position + 1;
        assert Rest() == s[1..];
        SkipDecimal();
      }
    }

    method ScanFraction() returns (ok: bool)
      requires Valid()
      modifies this`position
      ensures Valid() && old(position) <= position
      ensures ok <==> FractionRest(old(Rest())).Some?
      ensures ok ==> Rest() == FractionRest(old(Rest())).value
    {
      ghost var s := Rest();
      ok := true;
      if Sees(POINT) {
        position := position + 1;
        assert Rest() == s[1..];
        ok := SeesDigit();
        SkipDecimal();
      }
    }

    method ScanExponent() returns (ok: bool)
      requires Valid()
      modifies this`position
      ensures Valid() && old(position) <= position
      ensures ok <==> ExponentRest(old(Rest())).Some?
      ensures ok ==> Rest() == ExponentRest(old(Rest())).value
    {
      ghost var s := Rest();
      ok := true;
      if Sees(LOWER_E) || Sees(UPPER_E) {
        position := position + 1;
        assert Rest() == s[1..];
        if Sees(PLUS) || Sees(MINUS) {
          position := position + 1;
          assert Rest() == s[2..];
        }
        ok := SeesDigit();
        SkipDecimal();
      }
    }

    method ScanNumber() returns (ok: bool)
      requires Valid()
      modifies this`position
      ensures Valid() && old(position) <= position
      ensures ok <==> NumberRest(old(Rest())).Some?
      ensures ok ==> Rest() == NumberRest(old(Rest())).value
    {
      hide IntegerRest, FractionRest, ExponentRest;
      ghost var s := Rest();
      if Sees(MINUS) {
        position := position + 1;
        assert Rest() == s[1..];
      }
      ok := ScanInteger();
      if ok {
        ok := ScanFraction();
      }
      if ok {
        ok := ScanExponent();
      }
    }

    method ReadNumber() returns (v: Value)
      requires Valid() && !failed
      modifies this`position, this`failed
      ensures var spec := CanonicalJson.ReadNumber(c, old(Rest()), valueCount);
        At(spec, old(position)) && (spec.Read? ==> v == spec.value && old(position) < position)
    {
      hide NumberRest, LosesValue;
      v := Null;
      ghost var s := Rest();
      var start := position;
      var ok := ScanNumber();
      if !ok {
        failed := true;
        return;
      }
      var lexeme := text[start..position];
      assert lexeme == s[..|s| - |Rest()|];
      var n := c.codec.read(lexeme);
      if |lexeme| > MAXIMUM_LEXEME || LosesValue(lexeme, n) {
        failed := true;
        return;
      }
      v := Num(n);
    }

    method ReadLiteral(literal: Text, value: Value) returns (v: Value)
      requires Valid() && !failed && literal != []
      modifies this`position, this`failed
      ensures var spec := CanonicalJson.ReadLiteral(old(Rest()), literal, value, valueCount);
        At(spec, old(position)) && (spec.Read? ==> v == spec.value && old(position) < position)
    {
      v := value;
      ghost var s := Rest();
      PrefixAt(text, position, literal);
      if |literal| > |text| - position || text[position..position + |literal|] != literal {
        failed := true;
        return;
      }
      position := position + |literal|;
      assert Rest() == s[|literal|..];
    }

    method ReadValue(depth: nat) returns (v: Value)
      requires Valid() && !failed
      modifies this
      ensures var spec := CanonicalJson.ReadValue(c, old(Rest()), depth, old(valueCount));
        At(spec, old(position)) && (spec.Read? ==> v == spec.value && valueCount == spec.count)
      decreases |text| - position, 1
    {
      hide CanonicalJson.ReadObject, CanonicalJson.ReadArray, CanonicalJson.ReadNumber, CanonicalJson.ReadLiteral,
        ReadText;
      v := Null;
      if valueCount >= c.maximumValues {
        failed := true;
        return;
      }
      valueCount := valueCount + 1;
      SkipWhitespace();
      if AtEnd() {
        failed := true;
      } else if Sees(OPEN_BRACE) {
        v := ReadObject(depth);
      } else if Sees(OPEN_BRACKET) {
        v := ReadArray(depth);
      } else if Sees(QUOTE) {
        var t := ReadString();
        v := Str(t);
      } else if Sees(TRUE_TEXT[0]) {
        v := ReadLiteral(TRUE_TEXT, Bool(true));
      } else if Sees(FALSE_TEXT[0]) {
        v := ReadLiteral(FALSE_TEXT, Bool(false));
      } else if Sees(NULL_TEXT[0]) {
        v := ReadLiteral(NULL_TEXT, Null);
      } else if Sees(MINUS) || SeesDigit() {
        v := ReadNumber();
      } else {
        failed := true;
      }
    }

    method ReadArray(depth: nat) returns (v: Value)
      requires Valid() && !failed && position < |text|
      modifies this
      ensures var spec := CanonicalJson.ReadArray(c, old(Rest()), depth, old(valueCount));
        At(spec, old(position)) && (spec.Read? ==> v == spec.value && valueCount == spec.count)
      decreases |text| - position, 0
    {
      hide CanonicalJson.ReadValue;
      v := Null;
      ghost var spec := CanonicalJson.ReadArray(c, Rest(), depth, valueCount);
      if depth > c.maximumDepth {
        failed := true;
        return;
      }
      ghost var s := Rest();
      position := position + 1;
      assert Rest() == s[1..];
      SkipWhitespace();
      if Sees(CLOSE_BRACKET) {
        s := Rest();
        position := position + 1;
        assert Rest() == s[1..];
        return Arr([]);
      }
      var items: seq<Value>, open := [], true;
      while open
        invariant Valid() && !failed && old(position) < position
        invariant open ==> ReadItems(c, Rest(), depth, valueCount, items) == spec
        invariant !open ==> spec == Read(Arr(items), Rest(), valueCount)
        decreases open, |text| - position
      {
        var item := ReadValue(depth + 1);
        if failed {
          return;
        }
        items := items + [item];
        SkipWhitespace();
        if !Sees(CLOSE_BRACKET) && !Sees(COMMA) {
          failed := true;
          return;
        }
        open := Sees(COMMA);
        s := Rest();
        position := position + 1;
        assert Rest() == s[1..];
      }
      v := Arr(items);
    }

    method ReadObject(depth: nat) returns (v: Value)
      requires Valid() && !failed && position < |text|
      modifies this
      ensures var spec := CanonicalJson.ReadObject(c, old(Rest()), depth, old(valueCount));
        At(spec, old(position)) && (spec.Read? ==> v == spec.value && valueCount == spec.count)
      decreases |text| - position, 0
    {
      hide CanonicalJson.ReadValue, ReadText;
      v := Null;
      ghost var spec := CanonicalJson.ReadObject(c, Rest(), depth, valueCount);
      if depth > c.maximumDepth {
        failed := true;
        return;
      }
      ghost var s := Rest();
      position := position + 1;
      assert Rest() == s[1..];
      SkipWhitespace();
      if Sees(CLOSE_BRACE) {
        s := Rest();
        position := position + 1;
        assert Rest() == s[1..];
        return Obj(map[]);
      }
      var members: map<Text, Value>, open := map[], true;
      while open
        invariant Valid() && !failed && old(position) < position
        invariant open ==> ReadMembers(c, Rest(), depth, valueCount, members) == spec
        invariant !open ==> spec == Read(Obj(members), Rest(), valueCount)
        decreases open, |text| - position
      {
        members, open := ReadMember(depth, members);
        if failed {
          return;
        }
      }
      v := Obj(members);
    }

    /** One member; `open` when a comma announces another. */
    method ReadMember(depth: nat, members: map<Text, Value>) returns (more: map<Text, Value>, open: bool)
      requires Valid() && !failed
      modifies this
      ensures Valid() && old(position) <= position && (!failed ==> old(position) < position)
      ensures var spec := ReadMembers(c, old(Rest()), depth, old(valueCount), members);
        && (failed ==> spec.Failed?)
        && (!failed && open ==> spec == ReadMembers(c, Rest(), depth, valueCount, more))
        && (!failed && !open ==> spec == Read(Obj(more), Rest(), valueCount))
      decreases |text| - position, 2
    {
      hide CanonicalJson.ReadValue, ReadText, SkipSpace;
      more, open := members, false;
      var key := ReadKey();
      if failed || key in members {
        failed := true;
        return;
      }
      SkipWhitespace();
      if !Sees(COLON) {
        failed := true;
        return;
      }
      Advance();
      var item := ReadValue(depth + 1);
      if failed {
        return;
      }
      more := members[key := item];
      SkipWhitespace();
      if !Sees(CLOSE_BRACE) && !Sees(COMMA) {
        failed := true;
        return;
      }
      open := Sees(COMMA);
      Advance();
    }

    method Advance()
      requires Valid() && position < |text|
      modifies this`position
      ensures Valid() && position == old(position) + 1 && Rest() == old(Rest())[1..]
    {
      position := position + 1;
    }

    /** The quoted name of a member, white space before it skipped. */
    method ReadKey() returns (key: Text)
      requires Valid() && !failed
      modifies this`position, this`failed
      ensures Valid() && old(position) <= position
      ensures var s := SkipSpace(old(Rest()));
        if s == [] || s[0] != QUOTE then failed
        else var spec := ReadText(c.policy, s[1..], []);
          At(spec, old(position)) && (spec.Read? ==> key == spec.value)
    {
      hide ReadText;
      key := [];
      SkipWhitespace();
      if !Sees(QUOTE) {
        failed := true;
        return;
      }
      key := ReadString();
    }

    method Run() returns (v: Option<Value>)
      requires Valid() && position == 0 && valueCount == 0 && !failed
      modifies this
      ensures v == ReadRoot(c, text)
    {
      hide CanonicalJson.ReadObject;
      assert Rest() == text;
      SkipWhitespace();
      if !Sees(OPEN_BRACE) || valueCount >= c.maximumValues {
        return None;
      }
      valueCount := valueCount + 1;
      var root := ReadObject(1);
      if failed {
        return None;
      }
      SkipWhitespace();
      v := if AtEnd() then Some(root) else None;
    }
  }

  lemma PrefixAt(text: Text, position: nat, literal: Text)
    requires position <= |text|
    ensures literal <= text[position..]
        <==> |literal| <= |text| - position && text[position..position + |literal|] == literal
  {
    if |literal| <= |text| - position {
      assert text[position..][..|literal|] == text[position..position + |literal|];
    }
  }

  ghost predicate AllHex(s: Text) {
    forall i | 0 <= i < |s| :: HexValue(s[i]).Some?
  }

  ghost function HexNumber(s: Text): nat
    requires AllHex(s)
  {
    if s == [] then 0 else HexNumber(s[..|s| - 1]) * 16 + HexValue(s[|s| - 1]).value
  }

  lemma FourDigits(digits: Text, s: Text)
    requires AllHex(digits) && |digits| == 4 && digits <= s
    ensures HexUnit(s) == Some(HexNumber(digits))
  {
    AppendDigit([], digits[0]);
    AppendDigit(digits[..1], digits[1]);
    AppendDigit(digits[..2], digits[2]);
    AppendDigit(digits[..3], digits[3]);
    assert [] + [digits[0]] == digits[..1] && digits[..1] + [digits[1]] == digits[..2];
    assert digits[..2] + [digits[2]] == digits[..3] && digits[..3] + [digits[3]] == digits;
    assert s[..4] == digits;
  }

  lemma AppendDigit(s: Text, u: Unit)
    requires AllHex(s) && HexValue(u).Some?
    ensures AllHex(s + [u]) && HexNumber(s + [u]) == HexNumber(s) * 16 + HexValue(u).value
  {
    assert (s + [u])[..|s|] == s;
  }

  // ---- The two entry points ----

  method Serialize(c: Settings, v: Value) returns (r: Option<Bytes>)
    requires Sound(c.codec)
    ensures r == Serialized(c, v)
  {
    hide Utf8, WellFormed, Render, Sound;
    if !LimitsOk(c) {
      return None;
    }
    if Encodable(c, v, 1) {
      RenderIsWellFormed(c, v, 1);
    }
    var serializer := new Serializer(c);
    var ok := serializer.WriteValue(v, 1);
    assert ok ==> serializer.output == Utf8(Render(c, v));
    if ok && c.framing == OneTrailingLineFeed {
      ok := serializer.Append([LINE_FEED]);
    }
    r := if ok then Some(serializer.output) else None;
  }

  method ParseCanonicalObject(c: Settings, bytes: Bytes) returns (r: Option<Value>)
    requires Sound(c.codec)
    ensures r == Parsed(c, bytes)
  {
    hide Sound, Serialized, ReadRoot;
    if !LimitsOk(c) || |bytes| > c.maximumBytes {
      return None;
    }
    var payload := Unframed(c, bytes);
    if payload.None? || BYTE_ORDER_MARK <= payload.value {
      return None;
    }
    var text := FromUtf8(payload.value);
    if text.None? {
      return None;
    }
    var reader := new Reader(c, text.value);
    r := reader.Run();
    if r.None? {
      return;
    }
    var encoded := Serialize(c, r.value);
    if encoded != Some(bytes) {
      r := None;
    }
  }
}
