/** The preflight over the bytes of a component archive, before any ZIP library sees them: it
    finds the end record and walks the central directory entry by entry. */
module ZipPreflight {
  import opened Options
  import opened UnicodeText

  const END_SIGNATURE := 0x0605_4b50
  const CENTRAL_SIGNATURE := 0x0201_4b50
  const LOCAL_SIGNATURE := 0x0403_4b50
  const ZIP64_FIELD := 0x0001
  const UNSIGNED_MAX := 0xffff_ffff
  const STORE := 0
  const DEFLATE := 8
  const UNIX := 3
  const MAXIMUM_ENTRIES := 512
  const SLASH: Unit := 0x2F
  const PAYLOAD := Units("payload")
  const LICENSES := Units("LICENSES")

  /** The text codec, the path rules shared with the rest of the package code, and case folding. */
  datatype Names = Names(
    decode: Bytes -> Text,
    encode: Text -> Bytes,
    canonical: Text -> bool,
    fileAllowed: Text -> bool,
    fold: Text -> Text)

  datatype RawEntry = RawEntry(name: Bytes, directory: bool, compressionMethod: nat)

  function U16(b: Bytes, offset: nat): (n: nat)
    requires offset + 2 <= |b|
    ensures n < 0x1_0000
  {
    b[offset] as int + 0x100 * b[offset + 1] as int
  }

  function U32(b: Bytes, offset: nat): (n: nat)
    requires offset + 4 <= |b|
    ensures n <= UNSIGNED_MAX
  {
    U16(b, offset) + 0x1_0000 * U16(b, offset + 2)
  }

  // ---- Tiling by pieces that carry their own length ----

  ghost function Joined(pieces: seq<Bytes>): Bytes {
    if pieces == [] then [] else Joined(pieces[..|pieces| - 1]) + pieces[|pieces| - 1]
  }

  ghost predicate Tiles(pieces: seq<Bytes>, area: Bytes, piece: Bytes -> bool) {
    Joined(pieces) == area && forall p <- pieces :: piece(p) && p != []
  }

  ghost predicate PrefixFree(piece: Bytes -> bool) {
    forall p, q | piece(p) && piece(q) && p <= q :: p == q
  }

  lemma JoinedAppend(pieces: seq<Bytes>, next: Bytes)
    ensures Joined(pieces + [next]) == Joined(pieces) + next
  {
    assert (pieces + [next])[..|pieces|] == pieces;
  }

  lemma {:induction false} JoinedPrefix(all: seq<Bytes>, count: nat)
    requires count <= |all|
    ensures Joined(all[..count]) <= Joined(all)
    decreases |all|
  {
    if count == |all| {
      assert all[..count] == all;
    } else {
      var front := all[..|all| - 1];
      JoinedPrefix(front, count);
      assert front[..count] == all[..count];
    }
  }

  lemma OneMore(all: seq<Bytes>, done: seq<Bytes>)
    requires done <= all && |done| < |all|
    ensures all[..|done| + 1] == done + [all[|done|]]
  {
  }

  /** Behind the pieces already walked, any tiling goes on with a piece that starts right there. */
  lemma NextPiece(all: seq<Bytes>, area: Bytes, piece: Bytes -> bool, done: seq<Bytes>)
    requires Tiles(all, area, piece) && done <= all
    ensures done < all || Joined(done) == area
    ensures done < all ==> piece(all[|done|]) && all[|done|] != [] && Joined(done) + all[|done|] <= area
  {
    hide Joined;
    if |done| < |all| {
      var next := all[|done|];
      assert next in all;
      JoinedAppend(done, next);
      JoinedPrefix(all, |done| + 1);
      OneMore(all, done);
    } else {
      assert done == all;
    }
  }

  lemma CancelPrefix(before: Bytes, p: Bytes, q: Bytes, area: Bytes)
    requires before + p <= area && before + q <= area && |p| <= |q|
    ensures p <= q
  {
    assert p == area[|before|..|before| + |p|];
    assert q == area[|before|..|before| + |q|];
  }

  /** A walk along a tiling has no choice: whatever it has passed begins every tiling. */
  lemma WalkIsForced(all: seq<Bytes>, area: Bytes, piece: Bytes -> bool, done: seq<Bytes>, next: Bytes)
    requires PrefixFree(piece) && Tiles(all, area, piece) && done <= all
    requires Joined(done) != area && piece(next) && Joined(done) + next <= area
    ensures done + [next] <= all
  {
    NextPiece(all, area, piece, done);
    var other := all[|done|];
    if |next| <= |other| {
      CancelPrefix(Joined(done), next, other, area);
    } else {
      CancelPrefix(Joined(done), other, next, area);
    }
  }

  // ---- Extra fields ----

  ghost predicate PlainField(f: Bytes) {
    |f| >= 4 && |f| == 4 + U16(f, 2) && U16(f, 0) != ZIP64_FIELD
  }

  lemma FieldsArePrefixFree()
    ensures PrefixFree(PlainField)
  {
    forall p, q | PlainField(p) && PlainField(q) && p <= q
      ensures p == q
    {
      assert p == q[..|p|];
      assert U16(p, 2) == U16(q, 2);
    }
  }

  ghost predicate FieldsTile(area: Bytes) {
    exists fields :: Tiles(fields, area, PlainField)
  }

  /** No tiling passes a place where no plain field fits. */
  lemma NoFieldFits(all: seq<Bytes>, bytes: Bytes, done: seq<Bytes>, offset: nat)
    requires Tiles(all, bytes, PlainField) && done <= all
    requires offset < |bytes| && Joined(done) == bytes[..offset]
    ensures offset + 4 <= |bytes|
    ensures offset + 4 + U16(bytes, offset + 2) <= |bytes| && U16(bytes, offset) != ZIP64_FIELD
  {
    NextPiece(all, bytes, PlainField, done);
    HeadOfField(all[|done|], bytes, bytes[..offset]);
  }

  lemma HeadOfField(f: Bytes, bytes: Bytes, before: Bytes)
    requires before + f <= bytes && |f| >= 4
    ensures U16(f, 0) == U16(bytes, |before|) && U16(f, 2) == U16(bytes, |before| + 2)
  {
    assert f == bytes[|before|..|before| + |f|];
  }

  lemma FieldFits(bytes: Bytes, offset: nat, next: nat)
    requires offset + 4 <= next <= |bytes| && next == offset + 4 + U16(bytes, offset + 2)
    requires U16(bytes, offset) != ZIP64_FIELD
    ensures PlainField(bytes[offset..next])
    ensures bytes[..offset] + bytes[offset..next] == bytes[..next]
  {
  }

  method ExtraFieldsAreSupported(bytes: Bytes) returns (ok: bool)
    ensures ok <==> FieldsTile(bytes)
  {
    hide Joined, PlainField;
    FieldsArePrefixFree();
    var offset := 0;
    ghost var done: seq<Bytes> := [];
    JoinedNone();
    while offset < |bytes|
      invariant offset <= |bytes| && Tiles(done, bytes[..offset], PlainField)
      invariant forall all | Tiles(all, bytes, PlainField) :: done <= all
    {
      forall all | Tiles(all, bytes, PlainField)
        ensures offset + 4 <= |bytes|
        ensures offset + 4 + U16(bytes, offset + 2) <= |bytes| && U16(bytes, offset) != ZIP64_FIELD
      {
        NoFieldFits(all, bytes, done, offset);
      }
      if |bytes| - offset < 4 {
        return false;
      }
      var identifier, size := U16(bytes, offset), U16(bytes, offset + 2);
      if size > |bytes| - (offset + 4) || identifier == ZIP64_FIELD {
        return false;
      }
      ghost var next := bytes[offset..offset + 4 + size];
      FieldFits(bytes, offset, offset + 4 + size);
      JoinedAppend(done, next);
      forall all | Tiles(all, bytes, PlainField)
        ensures done + [next] <= all
      {
        WalkIsForced(all, bytes, PlainField, done, next);
      }
      done := done + [next];
      offset := offset + 4 + size;
    }
    assert bytes[..offset] == bytes;
    return true;
  }

  lemma JoinedNone()
    ensures Joined([]) == []
  {
  }

  // ---- Central records ----

  ghost predicate CentralRecord(r: Bytes) {
    |r| >= 46 && U32(r, 0) == CENTRAL_SIGNATURE && |r| == 46 + U16(r, 28) + U16(r, 30) + U16(r, 32)
  }

  lemma HeadOfRecord(r: Bytes, rest: Bytes)
    requires r <= rest && |r| >= 46
    ensures forall k | 0 <= k <= 44 :: U16(r, k) == U16(rest, k)
    ensures forall k | 0 <= k <= 42 :: U32(r, k) == U32(rest, k)
  {
    assert forall k | 0 <= k < 46 :: r[k] == rest[k];
  }

  lemma RecordsArePrefixFree()
    ensures PrefixFree(CentralRecord)
  {
    forall p, q | CentralRecord(p) && CentralRecord(q) && p <= q
      ensures p == q
    {
      HeadOfRecord(p, q);
      assert |p| == |q|;
    }
  }

  function NameOf(r: Bytes): Bytes
    requires CentralRecord(r)
  {
    r[46..46 + U16(r, 28)]
  }

  function ExtraOf(r: Bytes): Bytes
    requires CentralRecord(r)
  {
    r[46 + U16(r, 28)..46 + U16(r, 28) + U16(r, 30)]
  }

  /** Only the bits for compression options (1, 2), the data descriptor (3) and UTF-8 names
      (11), and compression options only where deflate uses them. */
  predicate FlagsSupported(flags: nat, compressionMethod: nat) {
    && flags % 2 == 0 && flags / 0x10 % 0x80 == 0 && flags / 0x1000 == 0
    && (compressionMethod == DEFLATE || flags / 2 % 4 == 0)
  }

  predicate AttributesSafe(operatingSystem: nat, attributes: nat, directory: bool) {
    if operatingSystem == UNIX then
      var mode := attributes / 0x1_0000;
      var kind := mode / 0x1000 % 0x10;
      mode / 0x200 % 8 == 0 && (kind == 0 || kind == if directory then 4 else 8)
    else
      attributes / 0x40 % 2 == 0 && ((attributes / 0x10 % 2 == 1) <==> directory)
  }

  /** The flags that may be set are the compression options of deflate, the data descriptor and
      UTF-8 names, and no other. */
  lemma FlagsAreKnown(flags: nat, compressionMethod: nat)
    ensures FlagsSupported(flags, compressionMethod) <==>
        exists options: nat, descriptor: nat, utf8: nat :: options < 4 && descriptor < 2 && utf8 < 2
          && flags == 2 * options + 8 * descriptor + 0x800 * utf8 && (compressionMethod == 8 || options == 0)
  {
    hide FlagsSupported;
    if FlagsSupported(flags, compressionMethod) {
      FlagsSplit(flags, compressionMethod);
    }
    if options: nat, descriptor: nat, utf8: nat :|
        && options < 4 && descriptor < 2 && utf8 < 2
        && flags == 2 * options + 8 * descriptor + 0x800 * utf8 && (compressionMethod == 8 || options == 0) {
      FlagsJoin(options, descriptor, utf8, compressionMethod);
    }
  }

  lemma FlagsSplit(flags: nat, compressionMethod: nat)
    requires FlagsSupported(flags, compressionMethod)
    ensures flags == 2 * (flags / 2 % 4) + 8 * (flags / 8 % 2) + 0x800 * (flags / 0x800 % 2)
    ensures compressionMethod == 8 || flags / 2 % 4 == 0
  {
  }

  lemma FlagsJoin(options: nat, descriptor: nat, utf8: nat, compressionMethod: nat)
    requires options < 4 && descriptor < 2 && utf8 < 2 && (compressionMethod == 8 || options == 0)
    ensures FlagsSupported(2 * options + 8 * descriptor + 0x800 * utf8, compressionMethod)
  {
  }

  /** Only the payload, the licences and what lies below them may be directories. */
  lemma DirectoriesAreKnown(names: Names, plain: Text)
    ensures DirectoryAllowed(names, plain + [0x2F]) <==>
        names.canonical(plain)
        && (plain == [0x70, 0x61, 0x79, 0x6C, 0x6F, 0x61, 0x64]
            || [0x70, 0x61, 0x79, 0x6C, 0x6F, 0x61, 0x64, 0x2F] <= plain
            || plain == [0x4C, 0x49, 0x43, 0x45, 0x4E, 0x53, 0x45, 0x53]
            || [0x4C, 0x49, 0x43, 0x45, 0x4E, 0x53, 0x45, 0x53, 0x2F] <= plain)
  {
    assert (plain + [0x2F])[..|plain|] == plain;
    assert PAYLOAD == [0x70, 0x61, 0x79, 0x6C, 0x6F, 0x61, 0x64];
    assert LICENSES == [0x4C, 0x49, 0x43, 0x45, 0x4E, 0x53, 0x45, 0x53];
  }

  /** What a Unix archiver says an entry is: nothing, or exactly a directory or a regular file,
      and never with the set-user, set-group or sticky bit. Elsewhere the directory bit decides,
      and nothing is a device. */
  lemma KindsAreSafe(operatingSystem: nat, attributes: nat, directory: bool)
    ensures operatingSystem == 3 ==>
        (AttributesSafe(operatingSystem, attributes, directory) <==>
           attributes / 0x200_0000 % 8 == 0
           && (attributes / 0x1000_0000 % 16 == 0 || attributes / 0x1000_0000 % 16 == if directory then 4 else 8))
    ensures operatingSystem != 3 ==>
        (AttributesSafe(operatingSystem, attributes, directory) <==>
           attributes / 64 % 2 == 0 && (directory <==> attributes / 16 % 2 == 1))
  {
    assert attributes / 0x1_0000 / 0x200 == attributes / 0x200_0000;
    assert attributes / 0x1_0000 / 0x1000 == attributes / 0x1000_0000;
  }

  predicate IsDirectory(path: Text) {
    path != [] && path[|path| - 1] == SLASH
  }

  function WithoutSlash(path: Text): Text {
    if IsDirectory(path) then path[..|path| - 1] else path
  }

  predicate DirectoryAllowed(names: Names, path: Text) {
    var plain := WithoutSlash(path);
    && names.canonical(plain)
    && (plain == PAYLOAD || plain == LICENSES || PAYLOAD + [SLASH] <= plain || LICENSES + [SLASH] <= plain)
  }

  /** The strict decoding of a raw name: encoding it again gives the same bytes. */
  predicate StrictName(names: Names, raw: Bytes) {
    0 < |raw| <= 255 && 0 !in raw && names.encode(names.decode(raw)) == raw
  }

  predicate NameAllowed(names: Names, raw: Bytes) {
    var path := names.decode(raw);
    && StrictName(names, raw)
    && if IsDirectory(path) then DirectoryAllowed(names, path) else names.canonical(path) && names.fileAllowed(path)
  }

  /** A raw name has 1 to 255 bytes, none of them zero, and its decoding encodes to it again; a
      final slash makes it a directory, and anything else must be a permitted file. */
  lemma NamesAreKnown(names: Names, raw: Bytes)
    ensures var path := names.decode(raw);
      NameAllowed(names, raw) <==>
        && 1 <= |raw| < 256 && (forall b <- raw :: b > 0) && names.encode(path) == raw
        && if exists plain :: path == plain + [0x2F] then DirectoryAllowed(names, path)
           else names.canonical(path) && names.fileAllowed(path)
  {
    var path := names.decode(raw);
    if path != [] && path[|path| - 1] == 0x2F {
      assert path == path[..|path| - 1] + [0x2F];
    }
  }

  function Folded(names: Names, raw: Bytes): Text {
    names.fold(WithoutSlash(names.decode(raw)))
  }

  function LocalAt(r: Bytes): nat
    requires CentralRecord(r)
  {
    U32(r, 42)
  }

  predicate FieldsSupported(r: Bytes)
    requires CentralRecord(r)
  {
    && U16(r, 34) == 0 && U16(r, 28) != 0
    && U32(r, 20) != UNSIGNED_MAX && U32(r, 24) != UNSIGNED_MAX && LocalAt(r) != UNSIGNED_MAX
    && FlagsSupported(U16(r, 8), U16(r, 10))
    && (U16(r, 10) == STORE || U16(r, 10) == DEFLATE)
  }

  /** On one disk, named, stored or deflated, and with no field that defers to ZIP64. */
  lemma FieldsAreKnown(r: Bytes)
    requires CentralRecord(r)
    ensures FieldsSupported(r) <==>
        && U16(r, 34) == 0 && U16(r, 28) >= 1 && U16(r, 10) in {0, 8} && FlagsSupported(U16(r, 8), U16(r, 10))
        && U32(r, 20) < 0xFFFF_FFFF && U32(r, 24) < 0xFFFF_FFFF && U32(r, 42) < 0xFFFF_FFFF
  {
    hide FlagsSupported;
  }

  /** The header the entry points at carries the same name, flags and method. */
  ghost predicate LocalAgrees(bytes: Bytes, r: Bytes)
    requires CentralRecord(r)
  {
    var at, length := LocalAt(r), U16(r, 28);
    && at + 30 + length <= |bytes|
    && U32(bytes, at) == LOCAL_SIGNATURE
    && U16(bytes, at + 26) == length
    && U16(bytes, at + 6) == U16(r, 8)
    && U16(bytes, at + 8) == U16(r, 10)
    && at + 30 + length + U16(bytes, at + 28) <= |bytes|
    && bytes[at + 30..at + 30 + length] == NameOf(r)
    && FieldsTile(bytes[at + 30 + length..at + 30 + length + U16(bytes, at + 28)])
  }

  ghost predicate Central(names: Names, r: Bytes)
    requires CentralRecord(r)
  {
    && FieldsSupported(r)
    && FieldsTile(ExtraOf(r))
    && NameAllowed(names, NameOf(r))
    && AttributesSafe(U16(r, 4) / 0x100, U32(r, 38), IsDirectory(names.decode(NameOf(r))))
  }

  /** A symbolic link, or any entry encrypted, of another method or in another volume, is refused. */
  lemma LinksAreRefused(bytes: Bytes, names: Names, r: Bytes)
    requires CentralRecord(r)
    requires (r[5] == 3 && r[41] / 16 == 10) || r[8] % 2 == 1 || (r[10] != 0 && r[10] != 8) || r[11] != 0 || r[34] != 0
    ensures !Acceptable(bytes, names, r)
  {
    hide U16, U32, FieldsTile, NameAllowed, AttributesSafe, LocalAgrees;
    BytesOfFields(r);
    KindsAreSafe(U16(r, 4) / 0x100, U32(r, 38), IsDirectory(names.decode(NameOf(r))));
  }

  lemma BytesOfFields(r: Bytes)
    requires |r| >= 46
    ensures U16(r, 4) / 0x100 == r[5] as int && U16(r, 8) % 2 == r[8] as int % 2
    ensures U16(r, 10) == 0 ==> r[10] == 0 && r[11] == 0
    ensures U16(r, 10) == 8 ==> r[10] == 8 && r[11] == 0
    ensures U16(r, 34) == 0 ==> r[34] == 0
    ensures U32(r, 38) / 0x1000_0000 % 16 == r[41] as int / 16
  {
  }

  ghost predicate Acceptable(bytes: Bytes, names: Names, r: Bytes)
    requires CentralRecord(r)
  {
    Central(names, r) && LocalAgrees(bytes, r)
  }

  // ---- The whole archive ----

  ghost predicate EndRecord(bytes: Bytes, end: nat) {
    end + 22 <= |bytes| && U32(bytes, end) == END_SIGNATURE && end + 22 + U16(bytes, end + 20) == |bytes|
  }

  ghost predicate LastEndRecord(bytes: Bytes, end: nat) {
    EndRecord(bytes, end) && forall later | end < later :: !EndRecord(bytes, later)
  }

  predicate Header(bytes: Bytes, end: nat)
    requires end + 22 <= |bytes|
  {
    && U16(bytes, end + 4) == 0 && U16(bytes, end + 6) == 0
    && U16(bytes, end + 8) == U16(bytes, end + 10) && 2 <= U16(bytes, end + 10) <= MAXIMUM_ENTRIES
    && U32(bytes, end + 12) != UNSIGNED_MAX && U32(bytes, end + 16) != UNSIGNED_MAX
  }

  /** One disk, as many entries there as in all, 2 to 512 of them, and no field that defers to
      ZIP64. */
  lemma EndRecordIsKnown(bytes: Bytes, end: nat)
    requires end + 22 <= |bytes|
    ensures Header(bytes, end) <==>
        && bytes[end + 4..end + 8] == [0, 0, 0, 0] && bytes[end + 8..end + 10] == bytes[end + 10..end + 12]
        && 2 <= bytes[end + 10] as int + 256 * bytes[end + 11] as int <= 512
        && bytes[end + 12..end + 16] != [0xFF, 0xFF, 0xFF, 0xFF]
        && bytes[end + 16..end + 20] != [0xFF, 0xFF, 0xFF, 0xFF]
  {
    hide U16, U32;
    FieldsAreBytes(bytes, end + 8, bytes, end + 10);
    ZeroFields(bytes, end + 4);
    FullField(bytes, end + 12);
    FullField(bytes, end + 16);
    LittleEndianAt(bytes, end + 10);
  }

  lemma ZeroFields(b: Bytes, k: nat)
    requires k + 4 <= |b|
    ensures U16(b, k) == U16(b, k + 2) == 0 <==> b[k..k + 4] == [0, 0, 0, 0]
  {
    assert b[k..k + 4] == [b[k], b[k + 1], b[k + 2], b[k + 3]];
  }

  lemma FullField(b: Bytes, k: nat)
    requires k + 4 <= |b|
    ensures U32(b, k) == 0xFFFF_FFFF <==> b[k..k + 4] == [0xFF, 0xFF, 0xFF, 0xFF]
  {
    assert b[k..k + 4] == [b[k], b[k + 1], b[k + 2], b[k + 3]];
  }

  lemma LittleEndianAt(b: Bytes, k: nat)
    requires k + 2 <= |b|
    ensures U16(b, k) == b[k] as int + 256 * b[k + 1] as int
  {
  }

  /** What the preflight promises about an archive: its last end record declares exactly as many
      entries as tile the bytes from the central offset to that record, every entry is
      acceptable, no two names fold alike, and some entry starts the archive. */
  ghost predicate Described(bytes: Bytes, names: Names, end: nat, records: seq<Bytes>) {
    && LastEndRecord(bytes, end) && Header(bytes, end)
    && U32(bytes, end + 16) + U32(bytes, end + 12) == end
    && |records| == U16(bytes, end + 10)
    && Tiles(records, bytes[U32(bytes, end + 16)..end], CentralRecord)
    && Accepted(bytes, names, records)
    && (exists r <- records :: LocalAt(r) == 0)
  }

  ghost predicate Accepted(bytes: Bytes, names: Names, records: seq<Bytes>)
    requires forall r <- records :: CentralRecord(r)
  {
    && (forall r <- records :: Acceptable(bytes, names, r))
    && (forall i, j | 0 <= i < j < |records| ::
          Folded(names, NameOf(records[i])) != Folded(names, NameOf(records[j])))
  }

  function EntryOf(names: Names, r: Bytes): RawEntry
    requires CentralRecord(r)
  {
    RawEntry(NameOf(r), IsDirectory(names.decode(NameOf(r))), U16(r, 10))
  }

  /** An entry is handed on with its name's bytes, whether they end in a slash, and its method. */
  lemma EntriesAreRead(names: Names, r: Bytes)
    requires CentralRecord(r)
    ensures var e := EntryOf(names, r);
      && e.name == r[46..46 + U16(r, 28)] && e.compressionMethod == r[10] as int + 256 * r[11] as int
      && (e.directory <==> exists plain :: names.decode(e.name) == plain + [0x2F])
  {
    LittleEndianAt(r, 10);
    var path := names.decode(NameOf(r));
    if path != [] && path[|path| - 1] == 0x2F {
      assert path == path[..|path| - 1] + [0x2F];
    }
  }

  ghost predicate EntriesOf(names: Names, records: seq<Bytes>, entries: seq<RawEntry>)
    requires forall r <- records :: CentralRecord(r)
  {
    |entries| == |records| && forall i | 0 <= i < |records| :: entries[i] == EntryOf(names, records[i])
  }

  lemma {:induction false} SameTiling(a: seq<Bytes>, b: seq<Bytes>, area: Bytes, count: nat)
    requires Tiles(a, area, CentralRecord) && Tiles(b, area, CentralRecord) && count <= |a|
    ensures a[..count] <= b
    decreases count
  {
    if count > 0 {
      hide CentralRecord, Joined;
      RecordsArePrefixFree();
      var done := a[..count - 1];
      SameTiling(a, b, area, count - 1);
      NextPiece(a, area, CentralRecord, done);
      WalkIsForced(b, area, CentralRecord, done, a[count - 1]);
      assert done + [a[count - 1]] == a[..count];
    }
  }

  /** At most one description fits, so the verdict and the entries depend on the bytes alone. */
  lemma DescriptionIsUnique(bytes: Bytes, names: Names, end: nat, records: seq<Bytes>, end': nat, records': seq<Bytes>)
    requires Described(bytes, names, end, records) && Described(bytes, names, end', records')
    ensures end == end' && records == records'
  {
    hide CentralRecord, Joined, Header, Accepted;
    var area := bytes[U32(bytes, end + 16)..end];
    SameTiling(records, records', area, |records|);
    SameTiling(records', records, area, |records'|);
    assert records[..|records|] == records && records'[..|records'|] == records';
  }

  /** Nothing lies between the directory and its end record, distinct entries have distinct raw
      names, and the archive starts with a local header. */
  lemma ArchiveIsTiled(bytes: Bytes, names: Names, end: nat, records: seq<Bytes>)
    requires Described(bytes, names, end, records)
    ensures bytes == bytes[..U32(bytes, end + 16)] + Joined(records) + bytes[end..]
    ensures forall i, j | 0 <= i < j < |records| :: NameOf(records[i]) != NameOf(records[j])
    ensures U32(bytes, 0) == LOCAL_SIGNATURE
    ensures bytes[..4] == [0x50, 0x4b, 3, 4] && bytes[end..end + 4] == [0x50, 0x4b, 5, 6]
    ensures 2 <= |records| <= 512 && forall i, j | 0 <= i < j < |records| ::
        names.fold(WithoutSlash(names.decode(NameOf(records[i])))) !=
          names.fold(WithoutSlash(names.decode(NameOf(records[j]))))
    ensures forall r <- records :: (1 <= |NameOf(r)| <= 255 && 0 !in NameOf(r)
        && names.encode(names.decode(NameOf(r))) == NameOf(r) && r[..4] == [0x50, 0x4b, 1, 2])
  {
    hide Joined, U32, U16, NameOf, Acceptable, Central, LocalAgrees;
    forall r | r in records
      ensures 1 <= |NameOf(r)| <= 255 && 0 !in NameOf(r) && names.encode(names.decode(NameOf(r))) == NameOf(r)
      ensures r[..4] == [0x50, 0x4b, 1, 2]
    {
      assert Acceptable(bytes, names, r);
      NameOfAcceptable(bytes, names, r);
    }
    SignatureBytes(bytes, end);
    var at := U32(bytes, end + 16);
    ThreeParts(bytes, at, end);
    var first :| first in records && LocalAt(first) == 0;
    StartsLocally(bytes, names, first);
    SignatureBytes(bytes, 0);
  }

  lemma NameOfAcceptable(bytes: Bytes, names: Names, r: Bytes)
    requires CentralRecord(r) && Acceptable(bytes, names, r)
    ensures 1 <= |NameOf(r)| <= 255 && 0 !in NameOf(r) && names.encode(names.decode(NameOf(r))) == NameOf(r)
    ensures r[..4] == [0x50, 0x4b, 1, 2]
  {
    hide LocalAgrees, FieldsTile, NameOf, U16, U32;
    SignatureBytes(r, 0);
  }

  /** The signatures of the format, byte by byte. */
  lemma SignatureBytes(b: Bytes, k: nat)
    requires k + 4 <= |b|
    ensures U32(b, k) == LOCAL_SIGNATURE <==> b[k..k + 4] == [0x50, 0x4b, 3, 4]
    ensures U32(b, k) == CENTRAL_SIGNATURE <==> b[k..k + 4] == [0x50, 0x4b, 1, 2]
    ensures U32(b, k) == END_SIGNATURE <==> b[k..k + 4] == [0x50, 0x4b, 5, 6]
  {
    var s := b[k..k + 4];
    assert s == [s[0], s[1], s[2], s[3]] && s[0] == b[k] && s[1] == b[k + 1] && s[2] == b[k + 2] && s[3] == b[k + 3];
  }

  /** Two fields of 16 bits are equal exactly when their bytes are. */
  lemma FieldsAreBytes(a: Bytes, i: nat, b: Bytes, k: nat)
    requires i + 2 <= |a| && k + 2 <= |b|
    ensures U16(a, i) == U16(b, k) <==> a[i..i + 2] == b[k..k + 2]
  {
    assert a[i..i + 2] == [a[i], a[i + 1]] && b[k..k + 2] == [b[k], b[k + 1]];
  }

  /** The local header of an entry repeats the bytes of its flags, its method, the length of its
      name and the name itself, all of it inside the archive. */
  lemma LocalHeadersAgree(bytes: Bytes, names: Names, r: Bytes)
    requires CentralRecord(r) && Acceptable(bytes, names, r)
    ensures var at, length := U32(r, 42), U16(r, 28);
      && at + 30 + length <= |bytes| && bytes[at..at + 4] == [0x50, 0x4b, 3, 4]
      && bytes[at + 6..at + 8] == r[8..10] && bytes[at + 8..at + 10] == r[10..12]
      && bytes[at + 26..at + 28] == r[28..30] && bytes[at + 30..at + 30 + length] == r[46..46 + length]
      && at + 30 + length + U16(bytes, at + 28) <= |bytes|
  {
    hide FieldsTile, U16, U32, Central;
    var at := U32(r, 42);
    SignatureBytes(bytes, at);
    FieldsAreBytes(bytes, at + 6, r, 8);
    FieldsAreBytes(bytes, at + 8, r, 10);
    FieldsAreBytes(bytes, at + 26, r, 28);
  }

  lemma StartsLocally(bytes: Bytes, names: Names, r: Bytes)
    requires CentralRecord(r) && Acceptable(bytes, names, r) && LocalAt(r) == 0
    ensures U32(bytes, 0) == LOCAL_SIGNATURE
  {
    hide U32, U16, NameOf;
  }

  lemma ThreeParts(bytes: Bytes, a: nat, b: nat)
    requires a <= b <= |bytes|
    ensures bytes == bytes[..a] + bytes[a..b] + bytes[b..]
  {
  }

  // ---- The walk ----

  method FindEnd(bytes: Bytes) returns (end: int)
    requires |bytes| >= 22
    ensures end >= 0 ==> LastEndRecord(bytes, end)
    ensures end < 0 ==> forall o :: !EndRecord(bytes, o)
  {
    var earliest := if |bytes| > 65557 then |bytes| - 65557 else 0;
    var offset := |bytes| - 22;
    while offset >= earliest
      invariant earliest - 1 <= offset <= |bytes| - 22
      invariant forall later: nat | offset < later :: !EndRecord(bytes, later)
    {
      if U32(bytes, offset) == END_SIGNATURE && offset + 22 + U16(bytes, offset + 20) == |bytes| {
        return offset;
      }
      offset := offset - 1;
    }
    return -1;
  }

  /** The checks on an entry's own fields, and its extra data and name. */
  method CheckCentral(names: Names, r: Bytes) returns (ok: bool)
    requires CentralRecord(r)
    ensures ok <==> Central(names, r)
  {
    if !FieldsSupported(r) {
      return false;
    }
    var plain := ExtraFieldsAreSupported(ExtraOf(r));
    if !plain || !NameAllowed(names, NameOf(r)) {
      return false;
    }
    return AttributesSafe(U16(r, 4) / 0x100, U32(r, 38), IsDirectory(names.decode(NameOf(r))));
  }

  method CheckLocal(bytes: Bytes, r: Bytes) returns (ok: bool)
    requires CentralRecord(r)
    ensures ok <==> LocalAgrees(bytes, r)
  {
    hide FieldsTile;
    var at, length := LocalAt(r), U16(r, 28);
    if at + 30 + length > |bytes| || U32(bytes, at) != LOCAL_SIGNATURE {
      return false;
    }
    var localLength, localExtra := U16(bytes, at + 26), U16(bytes, at + 28);
    var localFlags, localMethod := U16(bytes, at + 6), U16(bytes, at + 8);
    if localLength != length || localFlags != U16(r, 8) || localMethod != U16(r, 10)
       || at + 30 + localLength + localExtra > |bytes|
       || bytes[at + 30..at + 30 + localLength] != NameOf(r) {
      return false;
    }
    ok := ExtraFieldsAreSupported(bytes[at + 30 + localLength..at + 30 + localLength + localExtra]);
  }

  // ---- The walk over the directory ----

  function RecordSize(bytes: Bytes, offset: nat): nat
    requires offset + 46 <= |bytes|
  {
    46 + U16(bytes, offset + 28) + U16(bytes, offset + 30) + U16(bytes, offset + 32)
  }

  predicate RecordStarts(bytes: Bytes, offset: nat, end: nat)
    requires end <= |bytes|
  {
    offset + 46 <= end && U32(bytes, offset) == CENTRAL_SIGNATURE && offset + RecordSize(bytes, offset) <= end
  }

  lemma RecordAt(bytes: Bytes, offset: nat, end: nat)
    requires end <= |bytes| && RecordStarts(bytes, offset, end)
    ensures CentralRecord(bytes[offset..offset + RecordSize(bytes, offset)])
  {
    var r := bytes[offset..offset + RecordSize(bytes, offset)];
    HeadOfRecord(r, bytes[offset..]);
  }

  lemma StartOfRecord(r: Bytes, bytes: Bytes, offset: nat, end: nat)
    requires CentralRecord(r) && offset + |r| <= end <= |bytes| && r == bytes[offset..offset + |r|]
    ensures RecordStarts(bytes, offset, end) && RecordSize(bytes, offset) == |r|
  {
    assert U16(r, 28) == U16(bytes, offset + 28) && U16(r, 30) == U16(bytes, offset + 30);
    assert U16(r, 32) == U16(bytes, offset + 32) && U32(r, 0) == U32(bytes, offset);
  }

  ghost predicate NewName(names: Names, done: seq<Bytes>, r: Bytes)
    requires CentralRecord(r) && forall d <- done :: CentralRecord(d)
  {
    forall i | 0 <= i < |done| :: Folded(names, NameOf(done[i])) != Folded(names, NameOf(r))
  }

  /** The record at the offset is complete, acceptable and newly named. */
  ghost predicate GoesOn(bytes: Bytes, names: Names, end: nat, done: seq<Bytes>, offset: nat)
    requires end <= |bytes| && forall d <- done :: CentralRecord(d)
  {
    && RecordStarts(bytes, offset, end)
    && var next := bytes[offset..offset + RecordSize(bytes, offset)];
    CentralRecord(next) && Acceptable(bytes, names, next) && NewName(names, done, next)
  }

  /** Where the walk stands, any description goes on with the record that starts there. */
  lemma DescriptionGoesOn(bytes: Bytes, names: Names, end: nat, all: seq<Bytes>, done: seq<Bytes>, offset: nat)
    requires Described(bytes, names, end, all) && done < all && forall d <- done :: CentralRecord(d)
    requires U32(bytes, end + 16) <= offset <= end && Joined(done) == bytes[U32(bytes, end + 16)..offset]
    ensures GoesOn(bytes, names, end, done, offset)
    ensures done + [bytes[offset..offset + RecordSize(bytes, offset)]] <= all
  {
    hide Joined, Acceptable, Header, U32, U16, Folded, NameOf, RecordSize, CentralRecord, RecordStarts;
    var at, next := U32(bytes, end + 16), all[|done|];
    NextPiece(all, bytes[at..end], CentralRecord, done);
    SliceOfSlice(bytes, at, offset, end, next);
    StartOfRecord(next, bytes, offset, end);
    assert next in all;
    assert forall i | 0 <= i < |done| :: done[i] == all[i] && all[i] in all;
  }

  lemma SliceOfSlice(bytes: Bytes, at: nat, offset: nat, end: nat, next: Bytes)
    requires at <= offset <= end <= |bytes| && bytes[at..offset] + next <= bytes[at..end]
    ensures offset + |next| <= end && next == bytes[offset..offset + |next|]
  {
    var before := bytes[at..offset];
    assert |before + next| <= end - at;
    forall k | 0 <= k < |next|
      ensures next[k] == bytes[offset + k]
    {
      assert next[k] == (before + next)[offset - at + k] == bytes[at..end][offset - at + k];
    }
  }

  lemma DescriptionEnds(bytes: Bytes, names: Names, end: nat, all: seq<Bytes>, done: seq<Bytes>, offset: nat)
    requires Described(bytes, names, end, all) && done <= all && |done| == U16(bytes, end + 10)
    requires U32(bytes, end + 16) <= offset <= end && Joined(done) == bytes[U32(bytes, end + 16)..offset]
    ensures done == all && offset == end
  {
    hide Joined, Accepted, U32, U16;
    assert done == all;
    assert |bytes[U32(bytes, end + 16)..offset]| == |bytes[U32(bytes, end + 16)..end]|;
  }

  lemma AcceptedAppend(bytes: Bytes, names: Names, done: seq<Bytes>, r: Bytes)
    requires (forall d <- done :: CentralRecord(d)) && Accepted(bytes, names, done)
    requires CentralRecord(r) && Acceptable(bytes, names, r) && NewName(names, done, r)
    ensures (forall d <- done + [r] :: CentralRecord(d)) && Accepted(bytes, names, done + [r])
  {
    hide CentralRecord, Acceptable, Folded, NameOf;
  }

  ghost predicate Owns(names: Names, owned: set<Text>, done: seq<Bytes>)
    requires forall d <- done :: CentralRecord(d)
  {
    && (forall d <- done :: Folded(names, NameOf(d)) in owned)
    && (forall t <- owned :: exists d <- done :: Folded(names, NameOf(d)) == t)
  }

  lemma OwnsAppend(names: Names, owned: set<Text>, done: seq<Bytes>, r: Bytes)
    requires (forall d <- done :: CentralRecord(d)) && CentralRecord(r) && Owns(names, owned, done)
    ensures (forall d <- done + [r] :: CentralRecord(d))
    ensures Owns(names, owned + {Folded(names, NameOf(r))}, done + [r])
  {
    hide CentralRecord, Folded, NameOf;
    var name, more := Folded(names, NameOf(r)), done + [r];
    assert r in more && forall d <- done :: d in more;
    forall t | t in owned + {name}
      ensures exists d <- more :: Folded(names, NameOf(d)) == t
    {
      if t in owned {
        var d :| d in done && Folded(names, NameOf(d)) == t;
        assert d in more;
      }
    }
  }

  lemma OwnsDecidesNew(names: Names, owned: set<Text>, done: seq<Bytes>, r: Bytes)
    requires (forall d <- done :: CentralRecord(d)) && CentralRecord(r) && Owns(names, owned, done)
    ensures Folded(names, NameOf(r)) !in owned <==> NewName(names, done, r)
  {
    hide CentralRecord, Folded, NameOf;
    if Folded(names, NameOf(r)) in owned {
      var d :| d in done && Folded(names, NameOf(d)) == Folded(names, NameOf(r));
      var i :| 0 <= i < |done| && done[i] == d;
    }
  }

  lemma Step(bytes: Bytes, at: nat, offset: nat, end: nat, done: seq<Bytes>)
    requires at <= offset && end <= |bytes| && RecordStarts(bytes, offset, end)
    requires Tiles(done, bytes[at..offset], CentralRecord)
    ensures
      var next := offset + RecordSize(bytes, offset);
      CentralRecord(bytes[offset..next]) && Tiles(done + [bytes[offset..next]], bytes[at..next], CentralRecord)
  {
    hide Joined, U16, U32;
    var next := offset + RecordSize(bytes, offset);
    RecordAt(bytes, offset, end);
    JoinedAppend(done, bytes[offset..next]);
    assert bytes[at..offset] + bytes[offset..next] == bytes[at..next];
  }

  /** The records passed so far tile the directory up to the offset, are acceptable, and begin
      every description there is. */
  ghost predicate Progress(bytes: Bytes, names: Names, end: nat, done: seq<Bytes>, offset: nat)
    requires end + 22 <= |bytes|
  {
    && U32(bytes, end + 16) <= offset <= end
    && Tiles(done, bytes[U32(bytes, end + 16)..offset], CentralRecord)
    && Accepted(bytes, names, done)
    && forall all | Described(bytes, names, end, all) :: done <= all
  }

  lemma ProgressStarts(bytes: Bytes, names: Names, end: nat)
    requires end + 22 <= |bytes| && U32(bytes, end + 16) <= end
    ensures Progress(bytes, names, end, [], U32(bytes, end + 16))
  {
  }

  lemma ProgressIsForced(bytes: Bytes, names: Names, end: nat, done: seq<Bytes>, offset: nat)
    requires end + 22 <= |bytes| && Progress(bytes, names, end, done, offset) && |done| < U16(bytes, end + 10)
    ensures forall all | Described(bytes, names, end, all) ::
      GoesOn(bytes, names, end, done, offset)
        && done + [bytes[offset..offset + RecordSize(bytes, offset)]] <= all
  {
    hide Joined, Accepted, CentralRecord, U32, U16, RecordSize, Header, EndRecord, Acceptable, NewName;
    forall all | Described(bytes, names, end, all)
      ensures GoesOn(bytes, names, end, done, offset)
      ensures done + [bytes[offset..offset + RecordSize(bytes, offset)]] <= all
    {
      DescriptionGoesOn(bytes, names, end, all, done, offset);
    }
  }

  lemma ProgressStep(bytes: Bytes, names: Names, end: nat, done: seq<Bytes>, offset: nat)
    requires end + 22 <= |bytes| && Progress(bytes, names, end, done, offset) && |done| < U16(bytes, end + 10)
    requires GoesOn(bytes, names, end, done, offset)
    ensures
      var next := offset + RecordSize(bytes, offset);
      Progress(bytes, names, end, done + [bytes[offset..next]], next)
  {
    hide Joined, CentralRecord, U32, U16, RecordSize, Header, EndRecord, Acceptable, NewName, Accepted, Described;
    var next := offset + RecordSize(bytes, offset);
    ProgressIsForced(bytes, names, end, done, offset);
    Step(bytes, U32(bytes, end + 16), offset, end, done);
    AcceptedAppend(bytes, names, done, bytes[offset..next]);
  }

  /** One entry of the directory: taken exactly when the record at the offset may be passed. */
  method TakeEntry(bytes: Bytes, names: Names, end: nat, offset: nat, owned: set<Text>, ghost done: seq<Bytes>)
    returns (taken: Option<Bytes>)
    requires end <= |bytes| && (forall d <- done :: CentralRecord(d)) && Owns(names, owned, done)
    ensures taken.Some? <==> GoesOn(bytes, names, end, done, offset)
    ensures taken.Some? ==> offset + 46 <= end && offset + RecordSize(bytes, offset) <= end
    ensures taken.Some? ==> taken.value == bytes[offset..offset + RecordSize(bytes, offset)]
  {
    hide U16, U32, Central, LocalAgrees, Owns, NewName, CentralRecord, Folded, NameOf;
    if !RecordStarts(bytes, offset, end) {
      return None;
    }
    var r := bytes[offset..offset + RecordSize(bytes, offset)];
    RecordAt(bytes, offset, end);
    var central := CheckCentral(names, r);
    if !central {
      return None;
    }
    OwnsDecidesNew(names, owned, done, r);
    if Folded(names, NameOf(r)) in owned {
      return None;
    }
    var local := CheckLocal(bytes, r);
    if !local {
      return None;
    }
    return Some(r);
  }

  /** The loop over the declared number of entries; it stops early at an entry that no
      description could contain. */
  method WalkDirectory(bytes: Bytes, names: Names, end: nat)
    returns (offset: nat, entries: seq<RawEntry>, ghost done: seq<Bytes>, earliest: nat)
    requires end + 22 <= |bytes| && U32(bytes, end + 16) <= end
    ensures Progress(bytes, names, end, done, offset) && EntriesOf(names, done, entries)
    ensures |entries| <= U16(bytes, end + 10)
    ensures earliest == 0 <==> exists r <- done :: LocalAt(r) == 0
    ensures |entries| < U16(bytes, end + 10) ==> forall all :: !Described(bytes, names, end, all)
  {
    hide Joined, Accepted, CentralRecord, Described, U32, U16, Acceptable, NameOf, Folded, RecordSize, Owns, NewName,
      GoesOn, EntryOf, LocalAt;
    var total := U16(bytes, end + 10);
    var collisionOwners: set<Text> := {};
    offset, entries, done, earliest := U32(bytes, end + 16), [], [], UNSIGNED_MAX;
    ProgressStarts(bytes, names, end);
    NothingOwned(names);
    while |entries| < total
      invariant |entries| <= total && Progress(bytes, names, end, done, offset)
      invariant EntriesOf(names, done, entries) && Owns(names, collisionOwners, done)
      invariant earliest == 0 <==> exists r <- done :: LocalAt(r) == 0
      decreases total - |entries|
    {
      ProgressIsForced(bytes, names, end, done, offset);
      var taken := TakeEntry(bytes, names, end, offset, collisionOwners, done);
      if taken.None? {
        return;
      }
      var r := taken.value;
      ProgressStep(bytes, names, end, done, offset);
      TakenIsRecord(done, r, bytes, names, end, offset + RecordSize(bytes, offset));
      OwnsAppend(names, collisionOwners, done, r);
      collisionOwners := collisionOwners + {Folded(names, NameOf(r))};
      earliest := if LocalAt(r) < earliest then LocalAt(r) else earliest;
      entries := entries + [EntryOf(names, r)];
      done := done + [r];
      offset := offset + |r|;
    }
  }

  lemma TakenIsRecord(done: seq<Bytes>, r: Bytes, bytes: Bytes, names: Names, end: nat, offset: nat)
    requires end + 22 <= |bytes| && Progress(bytes, names, end, done + [r], offset)
    ensures CentralRecord(r) && |r| >= 46
  {
    assert r in done + [r];
  }

  lemma NothingOwned(names: Names)
    ensures Owns(names, {}, [])
  {
  }

  /** After the last declared entry, what is left to check decides whether the records passed
      are a description. */
  lemma WalkDecides(bytes: Bytes, names: Names, end: nat, done: seq<Bytes>, offset: nat)
    requires end + 22 <= |bytes| && Progress(bytes, names, end, done, offset) && |done| == U16(bytes, end + 10)
    requires LastEndRecord(bytes, end) && Header(bytes, end)
    ensures (forall r <- done :: CentralRecord(r))
    ensures forall all | Described(bytes, names, end, all) :: all == done && offset == end
    ensures Described(bytes, names, end, done)
      <==> (U32(bytes, end + 16) + U32(bytes, end + 12) == end && offset == end && exists r <- done :: LocalAt(r) == 0)
    ensures Described(bytes, names, end, done) ==> U32(bytes, 0) == LOCAL_SIGNATURE
  {
    hide Joined, Accepted, CentralRecord, U32, U16, LocalAt, Header, EndRecord;
    forall all | Described(bytes, names, end, all)
      ensures all == done && offset == end
    {
      DescriptionEnds(bytes, names, end, all, done, offset);
    }
    if Described(bytes, names, end, done) {
      ArchiveIsTiled(bytes, names, end, done);
    }
  }

  /** The directory is walked, and accepted exactly where a description fits whose end lies in
      32 bits; every archive the inspector reads is far smaller. */
  method PreflightCentralDirectory(bytes: Bytes, names: Names) returns (result: Option<seq<RawEntry>>)
    ensures result.None? ==> forall end: nat, records | Described(bytes, names, end, records) :: end > UNSIGNED_MAX
    ensures result.Some? ==>
        exists end: nat, records ::
          (Described(bytes, names, end, records) && end <= UNSIGNED_MAX && EntriesOf(names, records, result.value))
  {
    hide Joined, Accepted, CentralRecord, EntryOf, U32, U16, LocalAt, Tiles;
    if |bytes| < 22 {
      return None;
    }
    var end := FindEnd(bytes);
    if end < 0 {
      return None;
    }
    var centralSize, centralOffset := U32(bytes, end + 12), U32(bytes, end + 16);
    if !Header(bytes, end) || centralOffset + centralSize > end {
      return None;
    }
    var offset, entries, done, earliest := WalkDirectory(bytes, names, end);
    if |entries| != U16(bytes, end + 10) {
      return None;
    }
    WalkDecides(bytes, names, end, done, offset);
    if offset != (centralOffset + centralSize) % 0x1_0000_0000
       || centralOffset + centralSize != end
       || earliest != 0
       || U32(bytes, 0) != LOCAL_SIGNATURE {
      return None;
    }
    return Some(entries);
  }

  /** Past four gibibytes the 32-bit sum of offset and size wraps, though the end record's own
      bound, checked in 64 bits, holds. */
  lemma SumWrapsOnHugeArchives() returns (bytes: Bytes, end: nat)
    ensures EndRecord(bytes, end) && Header(bytes, end) && U32(bytes, end + 16) + U32(bytes, end + 12) <= end
    ensures (U32(bytes, end + 16) + U32(bytes, end + 12)) % 0x1_0000_0000 == 0
  {
    var last: Bytes := [0x50, 0x4b, 5, 6, 0, 0, 0, 0, 2, 0, 2, 0, 2, 0, 0, 0, 0xfe, 0xff, 0xff, 0xff, 0, 0];
    end := 0x1_0000_0000;
    var front: Bytes := seq(end, i => 0);
    bytes := front + last;
    hide U16, U32;
    LastRecord(last);
    ReadBehind(front, last, 0);
    ReadBehind(front, last, 4);
    ReadBehind(front, last, 8);
    ReadBehind(front, last, 12);
    ReadBehind(front, last, 16);
    ReadBehind(front, last, 18);
  }

  const MAXIMUM_ARCHIVE_BYTES := 32 * 1024 * 1024

  /** Within the bound of the inspector the sum of two 32-bit fields does not wrap. */
  lemma BoundedSumIsExact(bytes: Bytes, end: nat)
    requires |bytes| <= MAXIMUM_ARCHIVE_BYTES && EndRecord(bytes, end)
    requires U32(bytes, end + 16) + U32(bytes, end + 12) <= end
    ensures (U32(bytes, end + 16) + U32(bytes, end + 12)) % 0x1_0000_0000 == U32(bytes, end + 16) + U32(bytes, end + 12)
    ensures end <= UNSIGNED_MAX
  {
  }

  /** What the inspector hands over: a file reported to hold 1 byte to 32 MiB, read to at most one
      byte more and of exactly the reported size. There the preflight accepts every described
      archive and no other. */
  method PreflightArchive(size: int, contents: Bytes, names: Names) returns (result: Option<seq<RawEntry>>)
    ensures result.Some? <==>
        (0 < size <= 0x200_0000 && |contents| == size
         && exists end: nat, records :: Described(contents, names, end, records))
    ensures result.Some? ==>
        exists end: nat, records ::
          (Described(contents, names, end, records) && EntriesOf(names, records, result.value))
  {
    hide Described, EntriesOf;
    if size <= 0 || size > MAXIMUM_ARCHIVE_BYTES {
      return None;
    }
    var archive := if |contents| > MAXIMUM_ARCHIVE_BYTES + 1 then contents[..MAXIMUM_ARCHIVE_BYTES + 1] else contents;
    if |archive| != size {
      return None;
    }
    result := PreflightCentralDirectory(archive, names);
    forall end: nat, records | Described(contents, names, end, records)
      ensures end <= UNSIGNED_MAX
    {
      DescribedIsInside(contents, names, end, records);
    }
  }

  lemma DescribedIsInside(bytes: Bytes, names: Names, end: nat, records: seq<Bytes>)
    requires Described(bytes, names, end, records)
    ensures end < |bytes|
  {
    hide Accepted, CentralRecord, U32, U16, LocalAt, Tiles, Header;
  }

  lemma LastRecord(last: Bytes)
    requires last == [0x50, 0x4b, 5, 6, 0, 0, 0, 0, 2, 0, 2, 0, 2, 0, 0, 0, 0xfe, 0xff, 0xff, 0xff, 0, 0]
    ensures U32(last, 0) == END_SIGNATURE && U16(last, 4) == 0 && U16(last, 6) == 0 && U16(last, 8) == 2
    ensures U16(last, 10) == 2 && U32(last, 12) == 2 && U32(last, 16) == 0xffff_fffe && U16(last, 20) == 0
  {
  }

  lemma ReadBehind(front: Bytes, last: Bytes, k: nat)
    requires k + 4 <= |last|
    ensures U32(front + last, |front| + k) == U32(last, k) && U16(front + last, |front| + k) == U16(last, k)
    ensures U16(front + last, |front| + k + 2) == U16(last, k + 2)
  {
  }

  // ---- An archive to accept ----

  function LittleEndian16(n: nat): Bytes
    requires n < 0x1_0000
  {
    [n % 0x100, n / 0x100]
  }

  function LittleEndian32(n: nat): (b: Bytes)
    requires n <= UNSIGNED_MAX
    ensures |b| == 4
  {
    LittleEndian16(n % 0x1_0000) + LittleEndian16(n / 0x1_0000)
  }

  function Zeros(n: nat): (b: Bytes)
    ensures |b| == n && forall i | 0 <= i < n :: b[i] == 0
  {
    seq(n, i => 0)
  }

  /** An entry as a Unix archiver writes it: stored or deflated, with a mode. */
  datatype Plain = Plain(name: Bytes, deflated: bool, mode: Unit)

  function MethodOf(e: Plain): Byte {
    if e.deflated then 8 else 0
  }

  function PlainLocal(e: Plain): (b: Bytes)
    requires |e.name| <= 255
    ensures |b| == 30 + |e.name|
  {
    [0x50, 0x4b, 3, 4, 20, 0, 0, 0, MethodOf(e), 0] + Zeros(16) + [|e.name|, 0, 0, 0] + e.name
  }

  function PlainRecord(e: Plain, at: nat): (b: Bytes)
    requires |e.name| <= 255 && at <= UNSIGNED_MAX
    ensures |b| == 46 + |e.name|
  {
    [0x50, 0x4b, 1, 2, 20, 3, 20, 0, 0, 0, MethodOf(e), 0] + Zeros(16) + [|e.name|, 0] + Zeros(8)
    + [0, 0, e.mode % 0x100, e.mode / 0x100] + LittleEndian32(at) + e.name
  }

  ghost function PlainEnd(count: nat, size: nat, at: nat): (b: Bytes)
    requires count < 0x1_0000 && size <= UNSIGNED_MAX && at <= UNSIGNED_MAX
    ensures |b| == 22
  {
    [0x50, 0x4b, 5, 6, 0, 0, 0, 0] + LittleEndian16(count) + LittleEndian16(count)
    + LittleEndian32(size) + LittleEndian32(at) + [0, 0]
  }

  /** No mode, or that of a regular file (100644) or of a directory (40755), in octal. */
  ghost predicate PlainMode(names: Names, e: Plain) {
    e.mode == 0 || e.mode == if IsDirectory(names.decode(e.name)) then 0x41ED else 0x81A4
  }

  ghost predicate PlainNames(names: Names, entries: seq<Plain>) {
    && 2 <= |entries| <= 512
    && (forall i | 0 <= i < |entries| :: NameAllowed(names, entries[i].name) && PlainMode(names, entries[i]))
    && (forall i, j | 0 <= i < j < |entries| :: Folded(names, entries[i].name) != Folded(names, entries[j].name))
  }

  function Locals(entries: seq<Plain>): (b: Bytes)
    requires forall e <- entries :: |e.name| <= 255
    ensures |b| <= 285 * |entries|
  {
    if entries == [] then [] else Locals(entries[..|entries| - 1]) + PlainLocal(entries[|entries| - 1])
  }

  function Directory(entries: seq<Plain>): (records: seq<Bytes>)
    requires |entries| <= MAXIMUM_ENTRIES && forall e <- entries :: |e.name| <= 255
    ensures |records| == |entries| && |Joined(records)| <= 301 * |entries|
  {
    if entries == [] then []
    else
      var front, last := entries[..|entries| - 1], entries[|entries| - 1];
      var records := Directory(front) + [PlainRecord(last, |Locals(front)|)];
      JoinedAppend(Directory(front), PlainRecord(last, |Locals(front)|));
      records
  }

  ghost function PlainArchive(entries: seq<Plain>): Bytes
    requires |entries| <= MAXIMUM_ENTRIES && forall e <- entries :: |e.name| <= 255
  {
    var directory := Joined(Directory(entries));
    Locals(entries) + directory + PlainEnd(|entries|, |directory|, |Locals(entries)|)
  }

  lemma LittleEndianReads(n: nat)
    requires n <= UNSIGNED_MAX
    ensures U32(LittleEndian32(n), 0) == n
    ensures n < 0x1_0000 ==> U16(LittleEndian16(n), 0) == n
  {
  }

  lemma {:induction false} RecordOf(entries: seq<Plain>, i: nat)
    requires |entries| <= MAXIMUM_ENTRIES && (forall e <- entries :: |e.name| <= 255) && i < |entries|
    ensures Directory(entries)[i] == PlainRecord(entries[i], |Locals(entries[..i])|)
    ensures Locals(entries[..i]) + PlainLocal(entries[i]) <= Locals(entries)
    decreases |entries|
  {
    var n := |entries| - 1;
    hide PlainRecord, PlainLocal, Joined;
    if i < n {
      RecordOf(entries[..n], i);
      assert entries[..n][..i] == entries[..i];
      LocalsGrow(entries);
    } else {
      LastRecordOf(entries);
    }
  }

  lemma LocalsGrow(entries: seq<Plain>)
    requires entries != [] && forall e <- entries :: |e.name| <= 255
    ensures Locals(entries[..|entries| - 1]) <= Locals(entries)
  {
    hide PlainLocal;
  }

  lemma LastRecordOf(entries: seq<Plain>)
    requires 0 < |entries| <= MAXIMUM_ENTRIES && forall e <- entries :: |e.name| <= 255
    ensures var n := |entries| - 1;
      && Directory(entries)[n] == PlainRecord(entries[n], |Locals(entries[..n])|)
      && Locals(entries[..n]) + PlainLocal(entries[n]) == Locals(entries)
  {
    hide PlainRecord, PlainLocal, Joined;
  }

  lemma PlainRecordReads(e: Plain, at: nat)
    requires |e.name| <= 255 && at <= UNSIGNED_MAX
    ensures var r := PlainRecord(e, at);
      && CentralRecord(r) && NameOf(r) == e.name && ExtraOf(r) == [] && LocalAt(r) == at
      && U16(r, 4) / 0x100 == 3 && U32(r, 38) == 0x1_0000 * e.mode && U16(r, 28) == |e.name|
      && U16(r, 8) == 0 && U16(r, 10) == MethodOf(e) && U16(r, 34) == 0 && U32(r, 20) == 0 && U32(r, 24) == 0
  {
    var r := PlainRecord(e, at);
    LittleEndianReads(at);
    assert r[42..46] == LittleEndian32(at);
    assert U32(r, 42) == U32(r[42..46], 0);
    assert r[46..] == e.name;
  }

  lemma PlainModeIsSafe(names: Names, e: Plain)
    requires PlainMode(names, e)
    ensures AttributesSafe(3, 0x1_0000 * e.mode, IsDirectory(names.decode(e.name)))
  {
  }

  lemma PlainLocalReads(bytes: Bytes, at: nat, e: Plain)
    requires |e.name| <= 255 && at + 30 + |e.name| <= |bytes|
    requires bytes[at..at + 30 + |e.name|] == PlainLocal(e)
    ensures U32(bytes, at) == LOCAL_SIGNATURE && U16(bytes, at + 26) == |e.name| && U16(bytes, at + 28) == 0
    ensures U16(bytes, at + 6) == 0 && U16(bytes, at + 8) == MethodOf(e)
    ensures bytes[at + 30..at + 30 + |e.name|] == e.name
  {
    var b := PlainLocal(e);
    ShiftedRead(bytes, at, b, 0);
    ShiftedRead(bytes, at, b, 6);
    ShiftedRead(bytes, at, b, 8);
    ShiftedRead(bytes, at, b, 26);
    assert U16(b, 28) == 0 && U16(bytes, at + 28) == U16(b, 28);
    assert bytes[at + 30..at + 30 + |e.name|] == b[30..];
    assert b[30..] == e.name;
  }

  lemma ShiftedRead(bytes: Bytes, at: nat, b: Bytes, k: nat)
    requires at + |b| <= |bytes| && bytes[at..at + |b|] == b && k + 4 <= |b|
    ensures U16(bytes, at + k) == U16(b, k) && U16(bytes, at + k + 2) == U16(b, k + 2)
    ensures U32(bytes, at + k) == U32(b, k)
  {
    assert forall m | 0 <= m < |b| :: bytes[at + m] == b[m];
  }

  lemma NoFieldsTile()
    ensures FieldsTile([])
  {
    JoinedNone();
    assert Tiles([], [], PlainField);
  }

  lemma PlainEntryIsAcceptable(bytes: Bytes, names: Names, e: Plain, at: nat)
    requires NameAllowed(names, e.name) && PlainMode(names, e) && at < UNSIGNED_MAX
    requires at + 30 + |e.name| <= |bytes| && bytes[at..at + 30 + |e.name|] == PlainLocal(e)
    ensures CentralRecord(PlainRecord(e, at)) && Acceptable(bytes, names, PlainRecord(e, at))
  {
    hide PlainRecord, PlainLocal, CentralRecord, NameOf, ExtraOf, LocalAt, U16, U32, FieldsTile, PlainMode,
      AttributesSafe;
    PlainRecordReads(e, at);
    PlainLocalReads(bytes, at, e);
    PlainModeIsSafe(names, e);
    NoFieldsTile();
    assert bytes[at + 30 + |e.name|..at + 30 + |e.name|] == [];
  }

  lemma PlainEndReads(front: Bytes, count: nat, size: nat, at: nat)
    requires count < 0x1_0000 && size <= UNSIGNED_MAX && at <= UNSIGNED_MAX
    ensures var bytes, end := front + PlainEnd(count, size, at), |front|;
      && LastEndRecord(bytes, end) && U16(bytes, end + 4) == 0 && U16(bytes, end + 6) == 0
      && U16(bytes, end + 8) == count && U16(bytes, end + 10) == count
      && U32(bytes, end + 12) == size && U32(bytes, end + 16) == at
  {
    var last, bytes, end := PlainEnd(count, size, at), front + PlainEnd(count, size, at), |front|;
    LittleEndianReads(count);
    LittleEndianReads(size);
    LittleEndianReads(at);
    assert last[8..10] == LittleEndian16(count) && last[10..12] == LittleEndian16(count);
    assert last[12..16] == LittleEndian32(size) && last[16..20] == LittleEndian32(at);
    assert forall k | 0 <= k < 22 :: bytes[end + k] == last[k];
  }

  lemma LocalOfArchive(entries: seq<Plain>, i: nat)
    requires |entries| <= MAXIMUM_ENTRIES && (forall e <- entries :: |e.name| <= 255) && i < |entries|
    ensures
      var at := |Locals(entries[..i])|;
      && at + 30 + |entries[i].name| <= |PlainArchive(entries)|
      && PlainArchive(entries)[at..at + 30 + |entries[i].name|] == PlainLocal(entries[i])
      && Directory(entries)[i] == PlainRecord(entries[i], at)
      && at < UNSIGNED_MAX && (i == 0 ==> at == 0)
  {
    hide PlainRecord, PlainLocal, PlainEnd, Joined, Directory, Locals;
    var directory := Joined(Directory(entries));
    var end := PlainEnd(|entries|, |directory|, |Locals(entries)|);
    RecordOf(entries, i);
    assert |entries[..i]| == i && |Locals(entries[..i])| <= 285 * i;
    LocalInArchive(Locals(entries), Locals(entries[..i]), PlainLocal(entries[i]), directory + end);
    Associates(Locals(entries), directory, end);
  }

  lemma PlainArchiveEntry(names: Names, entries: seq<Plain>, i: nat)
    requires |entries| <= MAXIMUM_ENTRIES && (forall e <- entries :: |e.name| <= 255)
    requires i < |entries| && NameAllowed(names, entries[i].name) && PlainMode(names, entries[i])
    ensures var r := Directory(entries)[i];
      && CentralRecord(r) && Acceptable(PlainArchive(entries), names, r) && NameOf(r) == entries[i].name
      && U16(r, 10) == MethodOf(entries[i])
      && (i == 0 ==> LocalAt(r) == 0)
  {
    hide *;
    var at := |Locals(entries[..i])|;
    LocalOfArchive(entries, i);
    PlainEntryIsAcceptable(PlainArchive(entries), names, entries[i], at);
    PlainRecordReads(entries[i], at);
  }

  lemma PlainDirectoryIsAccepted(names: Names, entries: seq<Plain>)
    requires PlainNames(names, entries) && forall e <- entries :: |e.name| <= 255
    ensures var records := Directory(entries);
      && (forall r <- records :: CentralRecord(r) && r != [])
      && Accepted(PlainArchive(entries), names, records)
      && exists r <- records :: LocalAt(r) == 0
  {
    hide CentralRecord, NameOf, LocalAt, Acceptable, NameAllowed, Directory, Locals, PlainArchive, Folded;
    var records := Directory(entries);
    forall i | 0 <= i < |entries|
      ensures CentralRecord(records[i]) && Acceptable(PlainArchive(entries), names, records[i])
      ensures NameOf(records[i]) == entries[i].name && (i == 0 ==> LocalAt(records[i]) == 0)
    {
      PlainArchiveEntry(names, entries, i);
    }
    forall r | r in records
      ensures CentralRecord(r) && r != []
    {
      NotEmpty(r);
    }
    assert records[0] in records;
  }

  lemma NotEmpty(r: Bytes)
    ensures CentralRecord(r) ==> r != []
  {
  }

  /** Every archive of 2 to 512 entries, stored or deflated, with no mode or that of what they
      are, and with allowed names that do not collide, is described, and so accepted. */
  lemma PlainArchiveIsDescribed(names: Names, entries: seq<Plain>)
    requires PlainNames(names, entries)
    ensures forall e <- entries :: |e.name| <= 255
    ensures
      var end := |Locals(entries)| + |Joined(Directory(entries))|;
      Described(PlainArchive(entries), names, end, Directory(entries))
  {
    hide *;
    ShortNames(names, entries);
    PlainArchiveFits(names, entries);
  }

  lemma PlainArchiveFits(names: Names, entries: seq<Plain>)
    requires PlainNames(names, entries) && (forall e <- entries :: |e.name| <= 255) && 2 <= |entries| <= MAXIMUM_ENTRIES
    ensures
      var end := |Locals(entries)| + |Joined(Directory(entries))|;
      Described(PlainArchive(entries), names, end, Directory(entries))
  {
    hide PlainNames, PlainEnd, CentralRecord, LocalAt, U16, U32, Joined, Accepted, Locals, Directory, LastEndRecord,
      Described;
    var locals, directory := Locals(entries), Joined(Directory(entries));
    PlainEndReads(locals + directory, |entries|, |directory|, |locals|);
    PlainDirectoryIsAccepted(names, entries);
    MiddlePart(locals, directory, PlainEnd(|entries|, |directory|, |locals|));
    AllDescribed(PlainArchive(entries), names, |locals| + |directory|, |locals|, Directory(entries));
  }

  lemma AllDescribed(bytes: Bytes, names: Names, end: nat, at: nat, records: seq<Bytes>)
    requires LastEndRecord(bytes, end) && at <= end && end - at <= 301 * MAXIMUM_ENTRIES && at <= 285 * MAXIMUM_ENTRIES
    requires U16(bytes, end + 4) == 0 && U16(bytes, end + 6) == 0
    requires U16(bytes, end + 8) == U16(bytes, end + 10) == |records| && 2 <= |records| <= MAXIMUM_ENTRIES
    requires U32(bytes, end + 12) == end - at && U32(bytes, end + 16) == at
    requires Joined(records) == bytes[at..end] && forall r <- records :: CentralRecord(r) && r != []
    requires Accepted(bytes, names, records) && exists r <- records :: LocalAt(r) == 0
    ensures Described(bytes, names, end, records)
  {
    hide CentralRecord, LocalAt, U16, U32, Joined, Accepted, LastEndRecord;
  }

  lemma ShortNames(names: Names, entries: seq<Plain>)
    requires PlainNames(names, entries)
    ensures (forall e <- entries :: |e.name| <= 255) && 2 <= |entries| <= MAXIMUM_ENTRIES
  {
    forall e | e in entries
      ensures |e.name| <= 255
    {
      var i :| 0 <= i < |entries| && entries[i] == e;
      assert NameAllowed(names, entries[i].name);
    }
  }

  lemma MiddlePart(a: Bytes, b: Bytes, c: Bytes)
    ensures (a + b + c)[|a|..|a| + |b|] == b
  {
  }

  lemma LocalInArchive(locals: Bytes, before: Bytes, one: Bytes, rest: Bytes)
    requires before + one <= locals
    ensures |before| + |one| <= |locals + rest| && (locals + rest)[|before|..|before| + |one|] == one
  {
  }
}
