/** Text as UTF-16 code units, its UTF-8 bytes, and the order of object keys. */
module UnicodeText {
  import opened Options

  type Unit = u: nat | u < 0x1_0000
  type Byte = b: nat | b < 0x100
  type Text = seq<Unit>
  type Bytes = seq<Byte>

  /** The code units of a literal. */
  function Units(s: string): (t: Text)
    ensures |t| == |s|
  {
    seq(|s|, i requires 0 <= i < |s| => if s[i] as int < 0x1_0000 then s[i] as int else 0xFFFD)
  }

  predicate High(u: Unit) {
    0xD800 <= u < 0xDC00
  }

  predicate Low(u: Unit) {
    0xDC00 <= u < 0xE000
  }

  predicate Scalar(c: nat) {
    c < 0x11_0000 && !(0xD800 <= c < 0xE000)
  }

  /** No lone surrogate. */
  predicate WellFormed(t: Text) {
    if t == [] then true
    else if High(t[0]) then |t| > 1 && Low(t[1]) && WellFormed(t[2..])
    else !Low(t[0]) && WellFormed(t[1..])
  }

  function Pair(high: Unit, low: Unit): (c: nat)
    requires High(high) && Low(low)
    ensures Scalar(c) && c >= 0x1_0000
  {
    0x1_0000 + (high - 0xD800) * 0x400 + (low - 0xDC00)
  }

  function UnitsOf(c: nat): Text
    requires Scalar(c)
  {
    if c < 0x1_0000 then [c] else [0xD800 + (c - 0x1_0000) / 0x400, 0xDC00 + (c - 0x1_0000) % 0x400]
  }

  function BytesOf(c: nat): (b: Bytes)
    requires Scalar(c)
    ensures 1 <= |b| <= 4
  {
    if c < 0x80 then [c]
    else if c < 0x800 then [0xC0 + c / 0x40, 0x80 + c % 0x40]
    else if c < 0x1_0000 then [0xE0 + c / 0x1000, 0x80 + c / 0x40 % 0x40, 0x80 + c % 0x40]
    else [0xF0 + c / 0x4_0000, 0x80 + c / 0x1000 % 0x40, 0x80 + c / 0x40 % 0x40, 0x80 + c % 0x40]
  }

  function Utf8(t: Text): Bytes
    requires WellFormed(t)
  {
    if t == [] then []
    else if High(t[0]) then BytesOf(Pair(t[0], t[1])) + Utf8(t[2..])
    else BytesOf(t[0]) + Utf8(t[1..])
  }

  predicate Continues(b: Bytes, count: nat) {
    |b| > count && forall i | 1 <= i <= count :: 0x80 <= b[i] < 0xC0
  }

  /** One scalar from the front: shortest form only, no surrogates. */
  function FirstScalar(b: Bytes): (r: Option<(nat, nat)>)
    ensures r.Some? ==> Scalar(r.value.0) && 1 <= r.value.1 <= |b|
  {
    if b == [] then None
    else if b[0] < 0x80 then Some((b[0], 1))
    else if 0xC2 <= b[0] < 0xE0 && Continues(b, 1) then
      Some(((b[0] as int - 0xC0) * 0x40 + (b[1] as int - 0x80), 2))
    else if 0xE0 <= b[0] < 0xF0 && Continues(b, 2) then
      var c := (b[0] as int - 0xE0) * 0x1000 + (b[1] as int - 0x80) * 0x40 + (b[2] as int - 0x80);
      if c >= 0x800 && Scalar(c) then Some((c, 3)) else None
    else if 0xF0 <= b[0] < 0xF5 && Continues(b, 3) then
      var c := (b[0] as int - 0xF0) * 0x4_0000 + (b[1] as int - 0x80) * 0x1000
        + (b[2] as int - 0x80) * 0x40 + (b[3] as int - 0x80);
      if c >= 0x1_0000 && Scalar(c) then Some((c, 4)) else None
    else None
  }

  function FromUtf8(b: Bytes): Option<Text> {
    if b == [] then Some([])
    else
      var first := FirstScalar(b);
      if first.None? then None
      else
        var rest := FromUtf8(b[first.value.1..]);
        if rest.None? then None else Some(UnitsOf(first.value.0) + rest.value)
  }

  /** The bytes and surrogates at the limits of each form (RFC 3629 section 3). */
  lemma FormsOfScalars()
    ensures BytesOf(0x7F) == [0x7F] && BytesOf(0x80) == [0xC2, 0x80] && BytesOf(0x7FF) == [0xDF, 0xBF]
    ensures BytesOf(0x800) == [0xE0, 0xA0, 0x80] && BytesOf(0xFFFF) == [0xEF, 0xBF, 0xBF]
    ensures BytesOf(0x1_0000) == [0xF0, 0x90, 0x80, 0x80] && BytesOf(0x10_FFFF) == [0xF4, 0x8F, 0xBF, 0xBF]
    ensures Utf8([0x41, 0xD800, 0xDC00, 0xDBFF, 0xDFFF, 0x20AC]) ==
        [0x41, 0xF0, 0x90, 0x80, 0x80, 0xF4, 0x8F, 0xBF, 0xBF, 0xE2, 0x82, 0xAC]
    ensures forall t: Text :: t in {[0xD800], [0xDBFF], [0xDC00], [0xDFFF], [0xDC00, 0xD800]} ==> !WellFormed(t)
  {
    var t: Text := [0xD800, 0xDC00, 0xDBFF, 0xDFFF, 0x20AC];
    assert ([0x41] + t)[1..] == t;
    assert t[2..] == [0xDBFF, 0xDFFF, 0x20AC] && t[2..][2..] == [0x20AC] && t[2..][2..][1..] == [];
    assert Pair(0xD800, 0xDC00) == 0x1_0000 && Pair(0xDBFF, 0xDFFF) == 0x10_FFFF;
    assert Utf8([0x20AC]) == [0xE2, 0x82, 0xAC] + [];
    assert Utf8([0xDBFF, 0xDFFF, 0x20AC]) == [0xF4, 0x8F, 0xBF, 0xBF] + [0xE2, 0x82, 0xAC];
    assert Utf8(t) == [0xF0, 0x90, 0x80, 0x80] + ([0xF4, 0x8F, 0xBF, 0xBF] + [0xE2, 0x82, 0xAC]);
  }

  lemma Associates(a: Bytes, b: Bytes, c: Bytes)
    ensures a + (b + c) == a + b + c
  {
  }

  lemma SixBitDigits(c: nat)
    ensures c == c / 0x40 * 0x40 + c % 0x40
    ensures c / 0x40 == c / 0x1000 * 0x40 + c / 0x40 % 0x40
    ensures c / 0x1000 == c / 0x4_0000 * 0x40 + c / 0x1000 % 0x40
  {
    assert c / 0x1000 == c / 0x40 / 0x40;
    assert c / 0x4_0000 == c / 0x1000 / 0x40;
  }

  lemma FirstScalarOfBytes(c: nat, rest: Bytes)
    requires Scalar(c)
    ensures FirstScalar(BytesOf(c) + rest) == Some((c, |BytesOf(c)|))
  {
    var b := BytesOf(c) + rest;
    SixBitDigits(c);
    if c < 0x80 {
      assert b[0] == c;
    } else if c < 0x800 {
      assert b[0] == 0xC0 + c / 0x40 && b[1] == 0x80 + c % 0x40;
      assert Continues(b, 1);
    } else if c < 0x1_0000 {
      assert b[0] == 0xE0 + c / 0x1000 && b[1] == 0x80 + c / 0x40 % 0x40 && b[2] == 0x80 + c % 0x40;
      assert Continues(b, 2);
    } else {
      assert b[0] == 0xF0 + c / 0x4_0000 && b[1] == 0x80 + c / 0x1000 % 0x40;
      assert b[2] == 0x80 + c / 0x40 % 0x40 && b[3] == 0x80 + c % 0x40;
      assert Continues(b, 3);
    }
  }

  lemma UnitsOfScalar(t: Text)
    requires t != [] && WellFormed(t)
    ensures High(t[0]) ==> UnitsOf(Pair(t[0], t[1])) == t[..2]
    ensures !High(t[0]) ==> Scalar(t[0]) && UnitsOf(t[0]) == t[..1]
  {
  }

  /** Decoding inverts encoding on every well-formed text. */
  lemma {:induction false} Utf8RoundTrip(t: Text)
    requires WellFormed(t)
    ensures FromUtf8(Utf8(t)) == Some(t)
  {
    hide FirstScalar, BytesOf, UnitsOf;
    if t != [] {
      var n := if High(t[0]) then 2 else 1;
      var c := if High(t[0]) then Pair(t[0], t[1]) else t[0];
      Utf8RoundTrip(t[n..]);
      FirstScalarOfBytes(c, Utf8(t[n..]));
      assert Utf8(t) == BytesOf(c) + Utf8(t[n..]);
      assert Utf8(t)[|BytesOf(c)|..] == Utf8(t[n..]);
      UnitsOfScalar(t);
      assert t == t[..n] + t[n..];
    }
  }

  lemma SixBitsBehind(q: nat, r: nat)
    requires r < 0x40
    ensures (q * 0x40 + r) / 0x40 == q && (q * 0x40 + r) % 0x40 == r
  {
  }

  lemma SixBitParts(a: nat, x: nat, y: nat, z: nat)
    requires x < 0x40 && y < 0x40 && z < 0x40
    ensures var c := (a * 0x40 + x) * 0x40 + y;
      c / 0x1000 == a && c / 0x40 % 0x40 == x && c % 0x40 == y
    ensures var c := ((a * 0x40 + x) * 0x40 + y) * 0x40 + z;
      c / 0x4_0000 == a && c / 0x1000 % 0x40 == x && c / 0x40 % 0x40 == y && c % 0x40 == z
  {
    SixBitsBehind(a, x);
    SixBitsBehind(a * 0x40 + x, y);
    SixBitsBehind((a * 0x40 + x) * 0x40 + y, z);
    SixBitDigits((a * 0x40 + x) * 0x40 + y);
    SixBitDigits(((a * 0x40 + x) * 0x40 + y) * 0x40 + z);
  }

  lemma FirstScalarIsShortest(b: Bytes)
    requires FirstScalar(b).Some?
    ensures var (c, n) := FirstScalar(b).value; BytesOf(c) == b[..n]
  {
    var (c, n) := FirstScalar(b).value;
    if n == 2 {
      SixBitsBehind(b[0] as int - 0xC0, b[1] as int - 0x80);
    } else if n == 3 {
      SixBitParts(b[0] as int - 0xE0, b[1] as int - 0x80, b[2] as int - 0x80, 0);
    } else if n == 4 {
      SixBitParts(b[0] as int - 0xF0, b[1] as int - 0x80, b[2] as int - 0x80, b[3] as int - 0x80);
    }
    assert |BytesOf(c)| == n;
  }

  /** Nothing but an encoding is decoded: no longer form, no surrogate, no cut sequence. */
  lemma {:induction false} OnlyEncodingsDecode(b: Bytes)
    ensures FromUtf8(b).Some? ==> WellFormed(FromUtf8(b).value) && Utf8(FromUtf8(b).value) == b
  {
    if b != [] && FromUtf8(b).Some? {
      var (c, n) := FirstScalar(b).value;
      OnlyEncodingsDecode(b[n..]);
      FirstScalarIsShortest(b);
      var t, rest := FromUtf8(b).value, FromUtf8(b[n..]).value;
      assert t == UnitsOf(c) + rest && t[|UnitsOf(c)|..] == rest;
      assert c >= 0x1_0000 ==> High(t[0]) && Low(t[1]) && Pair(t[0], t[1]) == c;
      assert b == b[..n] + b[n..];
    }
  }

  /** A unit of the first surrogate range stands right before one of the second, and one of the
      second right behind one of the first. */
  ghost predicate Paired(t: Text, i: nat)
    requires i < |t|
  {
    && (0xD800 <= t[i] <= 0xDBFF ==> i + 1 < |t| && 0xDC00 <= t[i + 1] <= 0xDFFF)
    && (0xDC00 <= t[i] <= 0xDFFF ==> i > 0 && 0xD800 <= t[i - 1] <= 0xDBFF)
  }

  lemma {:induction false} WellFormedMeans(t: Text)
    ensures WellFormed(t) <==> forall i: nat | i < |t| :: Paired(t, i)
  {
    if t != [] && Paired(t, 0) {
      var n := if High(t[0]) then 2 else 1;
      WellFormedMeans(t[n..]);
      forall k: nat | k < |t[n..]|
        ensures Paired(t, n + k) <==> Paired(t[n..], k)
      {
      }
      forall i: nat | n <= i < |t|
        ensures Paired(t, i) <==> Paired(t[n..], i - n)
      {
        assert Paired(t, n + (i - n)) <==> Paired(t[n..], i - n);
      }
      assert n == 2 ==> Paired(t, 1);
    }
  }

  lemma {:induction false} WellFormedAppend(a: Text, b: Text)
    requires WellFormed(a)
    ensures WellFormed(a + b) == WellFormed(b)
    ensures WellFormed(b) ==> Utf8(a + b) == Utf8(a) + Utf8(b)
  {
    if a == [] {
      assert a + b == b;
    } else {
      var n := if High(a[0]) then 2 else 1;
      WellFormedAppend(a[n..], b);
      assert (a + b)[n..] == a[n..] + b;
    }
  }

  // ---- Key order ----

  /** The order of RFC 8785 section 3.2.3: by UTF-16 code units, a prefix first. */
  predicate Less(a: Text, b: Text) {
    if b == [] then false
    else if a == [] then true
    else if a[0] != b[0] then a[0] < b[0]
    else Less(a[1..], b[1..])
  }

  /** One key precedes another exactly when it is a proper prefix of it, or has the smaller
      code unit at the first place where they differ. */
  lemma {:induction false} LessMeans(a: Text, b: Text)
    ensures Less(a, b) <==>
        a < b || exists i: nat :: i < |a| && i < |b| && a[..i] == b[..i] && a[i] < b[i]
    decreases |a|
  {
    if a != [] && b != [] && a[0] == b[0] {
      LessMeans(a[1..], b[1..]);
      assert a == [a[0]] + a[1..] && b == [b[0]] + b[1..];
      if i: nat :| i < |a[1..]| && i < |b[1..]| && a[1..][..i] == b[1..][..i] && a[1..][i] < b[1..][i] {
        assert a[..i + 1] == [a[0]] + a[1..][..i] && b[..i + 1] == [b[0]] + b[1..][..i];
        assert a[i + 1] < b[i + 1];
      }
      if i: nat :| i < |a| && i < |b| && a[..i] == b[..i] && a[i] < b[i] {
        assert a[1..][..i - 1] == a[..i][1..] && b[1..][..i - 1] == b[..i][1..];
        assert a[1..][i - 1] < b[1..][i - 1];
      }
    } else if a != [] && b != [] {
      assert a[..0] == b[..0];
      assert forall i: nat :: 0 < i < |a| && i < |b| ==> a[..i][0] != b[..i][0];
    }
  }

  method CompareKeys(left: Text, right: Text) returns (less: bool)
    ensures less == Less(left, right)
    ensures less <==>
        left < right
        || exists i: nat :: i < |left| && i < |right| && left[..i] == right[..i] && left[i] < right[i]
  {
    LessMeans(left, right);
    var common := if |left| < |right| then |left| else |right|;
    for index := 0 to common
      invariant Less(left, right) == Less(left[index..], right[index..])
    {
      if left[index] != right[index] {
        return left[index] < right[index];
      }
      assert left[index..][1..] == left[index + 1..] && right[index..][1..] == right[index + 1..];
    }
    less := |left| < |right|;
  }

  lemma {:induction false} LessIsTotal(a: Text, b: Text)
    ensures Less(a, b) || Less(b, a) || a == b
    ensures !(Less(a, b) && Less(b, a)) && !Less(a, a)
    decreases |a| + |b|
  {
    if a != [] && b != [] && a[0] == b[0] {
      LessIsTotal(a[1..], b[1..]);
      assert a == [a[0]] + a[1..] && b == [b[0]] + b[1..];
    }
    LessIsIrreflexive(a);
  }

  lemma {:induction false} LessIsIrreflexive(a: Text)
    ensures !Less(a, a)
  {
    if a != [] {
      LessIsIrreflexive(a[1..]);
    }
  }

  lemma {:induction false} LessIsTransitive(a: Text, b: Text, c: Text)
    requires Less(a, b) && Less(b, c)
    ensures Less(a, c)
  {
    if a != [] && a[0] == b[0] == c[0] {
      LessIsTransitive(a[1..], b[1..], c[1..]);
    }
  }

  ghost predicate Sorted(keys: seq<Text>) {
    forall i, j | 0 <= i < j < |keys| :: Less(keys[i], keys[j])
  }

  lemma NoMembers(keys: seq<Text>)
    ensures keys == [] || exists k :: k in keys
  {
    assert keys == [] || keys[0] in keys;
  }

  /** A set of keys has one sorted arrangement. */
  lemma {:induction false} SortedIsUnique(a: seq<Text>, b: seq<Text>)
    requires Sorted(a) && Sorted(b)
    requires forall k :: k in a <==> k in b
    ensures a == b
  {
    if a == [] || b == [] {
      NoMembers(a);
      NoMembers(b);
    } else {
      assert a[0] in a && b[0] in b;
      if a[0] != b[0] {
        assert a[0] in b && b[0] in a;
        var i :| 0 <= i < |b| && b[i] == a[0];
        var j :| 0 <= j < |a| && a[j] == b[0];
        LessIsTotal(a[0], b[0]);
      }
      forall k
        ensures k in a[1..] <==> k in b[1..]
      {
        LessIsIrreflexive(a[0]);
        assert k in a[1..] ==> Less(a[0], k) && k in a;
        assert k in b[1..] ==> Less(b[0], k) && k in b;
        assert k in a ==> k == a[0] || k in a[1..];
        assert k in b ==> k == b[0] || k in b[1..];
      }
      SortedIsUnique(a[1..], b[1..]);
      assert a == [a[0]] + a[1..] && b == [b[0]] + b[1..];
    }
  }

  lemma SmallestExists(keys: set<Text>)
    requires keys != {}
    ensures exists k :: Smallest(keys, k)
  {
    var k :| k in keys;
    if keys == {k} {
      assert Smallest(keys, k);
    } else {
      SmallestExists(keys - {k});
      var m :| Smallest(keys - {k}, m);
      LessIsTotal(k, m);
      if Less(k, m) {
        forall j | j in keys
          ensures j == k || Less(k, j)
        {
          if j != k && j != m {
            LessIsTransitive(k, m, j);
          }
        }
        assert Smallest(keys, k);
      } else {
        assert Smallest(keys, m);
      }
    }
  }

  ghost predicate Smallest(keys: set<Text>, k: Text) {
    k in keys && forall j | j in keys :: j == k || Less(k, j)
  }

  ghost function SortedKeys(keys: set<Text>): (s: seq<Text>)
    ensures Sorted(s) && |s| == |keys| && (forall k :: k in s <==> k in keys)
    decreases |keys|
  {
    if keys == {} then [] else
      SmallestExists(keys);
      var first :| Smallest(keys, first);
      var rest := SortedKeys(keys - {first});
      assert forall k | k in rest :: Less(first, k);
      [first] + rest
  }

  /** Insertion sort over the keys of an object, in whatever order they come. */
  method SortKeys(keys: set<Text>) returns (sorted: seq<Text>)
    ensures sorted == SortedKeys(keys)
  {
    var todo := keys;
    sorted := [];
    while todo != {}
      invariant todo <= keys && Sorted(sorted)
      invariant forall k :: k in sorted <==> k in keys && k !in todo
    {
      var k :| k in todo;
      todo := todo - {k};
      sorted := InsertKey(sorted, k);
    }
    SortedIsUnique(sorted, SortedKeys(keys));
  }

  method InsertKey(sorted: seq<Text>, k: Text) returns (r: seq<Text>)
    requires Sorted(sorted) && k !in sorted
    ensures Sorted(r) && forall j :: j in r <==> j in sorted || j == k
  {
    var i := 0;
    while i < |sorted|
      invariant 0 <= i <= |sorted|
      invariant forall j | 0 <= j < i :: Less(sorted[j], k)
    {
      var before := CompareKeys(sorted[i], k);
      if !before {
        break;
      }
      i := i + 1;
    }
    r := sorted[..i] + [k] + sorted[i..];
    forall j | i <= j < |sorted|
      ensures Less(k, sorted[j])
    {
      LessIsTotal(sorted[i], k);
      if j > i {
        LessIsTransitive(k, sorted[i], sorted[j]);
      }
    }
    assert forall j | j in sorted :: j in sorted[..i] || j in sorted[i..];
  }
}
