/** The component package bundle: its byte format, the frames its digest is taken over, and
    the device loops that write and read it. */
module PackageBundle {
  import opened Options
  import opened UnicodeText

  const MAXIMUM_FILES := 512
  const MAXIMUM_FILE_BYTES := 32 * 1024 * 1024
  const MAXIMUM_EXPANDED_BYTES := 128 * 1024 * 1024
  const MAXIMUM_PATH_BYTES := 255

  datatype File = File(path: Text, contents: Bytes)

  /** Text normalisation, whether a text holds control or format characters, and case folding. */
  datatype Rules = Rules(nfc: Text -> Text, unsafe: Text -> bool, fold: Text -> Text)

  const SLASH: Unit := 0x2F
  const BACKSLASH: Unit := 0x5C
  const COLON: Unit := 0x3A
  const MAXIMUM_SEGMENTS := 32
  const PAYLOAD := Units("payload/")
  const LICENSES := Units("LICENSES/")

  // ---- Text to bytes, lone surrogates and all ----

  /** A lone surrogate becomes a question mark. */
  function ToUtf8(t: Text): Bytes {
    if t == [] then []
    else if High(t[0]) then
      (if |t| > 1 && Low(t[1]) then BytesOf(Pair(t[0], t[1])) + ToUtf8(t[2..]) else [0x3F] + ToUtf8(t[1..]))
    else if Low(t[0]) then [0x3F] + ToUtf8(t[1..])
    else BytesOf(t[0]) + ToUtf8(t[1..])
  }

  lemma {:induction false} WellFormedToUtf8(t: Text)
    requires WellFormed(t)
    ensures ToUtf8(t) == Utf8(t)
  {
    if t != [] {
      WellFormedToUtf8(t[if High(t[0]) then 2 else 1..]);
    }
  }

  lemma {:induction false} DecodedIsWellFormed(b: Bytes)
    requires FromUtf8(b).Some?
    ensures WellFormed(FromUtf8(b).value)
  {
    if b != [] {
      var first := FirstScalar(b).value;
      DecodedIsWellFormed(b[first.1..]);
      WellFormedAppend(UnitsOf(first.0), FromUtf8(b[first.1..]).value);
    }
  }

  // ---- Big-endian integers ----

  ghost function Power256(n: nat): (p: nat)
    ensures p >= 1
  {
    if n == 0 then 1 else 0x100 * Power256(n - 1)
  }

  function BigEndian(value: nat, width: nat): (b: Bytes)
    ensures |b| == width
  {
    if width == 0 then [] else BigEndian(value / 0x100, width - 1) + [value % 0x100]
  }

  function FromBigEndian(b: Bytes): nat {
    if b == [] then 0 else FromBigEndian(b[..|b| - 1]) * 0x100 + b[|b| - 1]
  }

  lemma {:induction false} BigEndianRoundTrip(value: nat, width: nat)
    requires value < Power256(width)
    ensures FromBigEndian(BigEndian(value, width)) == value
  {
    if width > 0 {
      BigEndianRoundTrip(value / 0x100, width - 1);
      assert BigEndian(value, width)[..width - 1] == BigEndian(value / 0x100, width - 1);
    }
  }

  lemma {:induction false} BigEndianOfBytes(b: Bytes)
    ensures FromBigEndian(b) < Power256(|b|) && BigEndian(FromBigEndian(b), |b|) == b
  {
    if b != [] {
      BigEndianOfBytes(b[..|b| - 1]);
      assert b == b[..|b| - 1] + [b[|b| - 1]];
    }
  }

  lemma Widths()
    ensures Power256(2) == 0x1_0000 && Power256(4) == 0x1_0000_0000 && Power256(8) == 0x1_0000_0000_0000_0000
  {
    assert Power256(4) == 0x100 * Power256(3) && Power256(3) == 0x100 * Power256(2);
    assert Power256(2) == 0x100 * Power256(1) && Power256(1) == 0x100 * Power256(0);
    assert Power256(8) == 0x100 * Power256(7) && Power256(7) == 0x100 * Power256(6);
    assert Power256(6) == 0x100 * Power256(5) && Power256(5) == 0x100 * Power256(4);
  }

  // ---- Valid file lists ----

  function Segments(path: Text): (segments: seq<Text>)
    ensures segments != []
  {
    if path == [] then [[]]
    else if path[0] == SLASH then [[]] + Segments(path[1..])
    else
      var rest := Segments(path[1..]);
      [[path[0]] + rest[0]] + rest[1..]
  }

  predicate Letter(u: Unit) {
    0x41 <= u <= 0x5A || 0x61 <= u <= 0x7A
  }

  predicate SegmentAllowed(rules: Rules, segment: Text) {
    segment != [] && segment != Units(".") && segment != Units("..") && !rules.unsafe(segment)
  }

  /** `isCanonicalPackageFilePath`. */
  predicate CanonicalPath(rules: Rules, path: Text) {
    && path != [] && |path| <= MAXIMUM_PATH_BYTES && |ToUtf8(path)| <= MAXIMUM_PATH_BYTES
    && rules.nfc(path) == path
    && path[0] != SLASH && BACKSLASH !in path && 0 !in path
    && !(|path| > 1 && Letter(path[0]) && path[1] == COLON)
    && |Segments(path)| <= MAXIMUM_SEGMENTS && forall s <- Segments(path) :: SegmentAllowed(rules, s)
  }

  /** `isAllowedComponentPackageFilePath`. */
  predicate PermittedPath(path: Text) {
    || path == Units("manifest.json") || path == Units("integrity.json")
    || path == Units("settings.schema.json") || path == Units("icon.png")
    || PAYLOAD <= path || LICENSES <= path
  }

  predicate Allowed(rules: Rules, path: Text) {
    CanonicalPath(rules, path) && PermittedPath(path)
  }

  /** Segments with slashes between them. */
  ghost function Rejoined(segments: seq<Text>): Text
    requires segments != []
  {
    if |segments| == 1 then segments[0] else segments[0] + [0x2F] + Rejoined(segments[1..])
  }

  ghost predicate Slashless(segments: seq<Text>) {
    segments != [] && forall s <- segments :: 0x2F !in s
  }

  lemma OneUnitMore(u: Unit, rest: seq<Text>)
    requires Slashless(rest) && u != 0x2F
    ensures Slashless([[u] + rest[0]] + rest[1..])
    ensures Rejoined([[u] + rest[0]] + rest[1..]) == [u] + Rejoined(rest)
  {
    hide Rejoined;
    var first := [u] + rest[0];
    assert rest[0] in rest;
    assert forall s | s in [first] + rest[1..] :: s == first || s in rest;
    UnitRejoins(u, rest);
  }

  lemma UnitRejoins(u: Unit, rest: seq<Text>)
    requires rest != []
    ensures Rejoined([[u] + rest[0]] + rest[1..]) == [u] + Rejoined(rest)
  {
    var first := [u] + rest[0];
    var more := [first] + rest[1..];
    if |rest| == 1 {
      assert |more| == 1;
    } else {
      var tail := Rejoined(rest[1..]);
      assert more[1..] == rest[1..];
      assert first + [0x2F] + tail == [u] + (rest[0] + [0x2F] + tail);
    }
  }

  lemma OneSegmentMore(rest: seq<Text>)
    requires Slashless(rest)
    ensures Slashless([[]] + rest) && Rejoined([[]] + rest) == [0x2F] + Rejoined(rest)
  {
    assert ([[]] + rest)[1..] == rest;
    assert [] + [0x2F] + Rejoined(rest) == [0x2F] + Rejoined(rest);
  }

  lemma {:induction false} SegmentsRejoin(path: Text)
    ensures Slashless(Segments(path)) && Rejoined(Segments(path)) == path
  {
    hide Slashless, Rejoined;
    if path == [] {
      OneEmptySegment();
    } else {
      SegmentsRejoin(path[1..]);
      assert path == [path[0]] + path[1..];
      if path[0] == SLASH {
        OneSegmentMore(Segments(path[1..]));
      } else {
        OneUnitMore(path[0], Segments(path[1..]));
      }
    }
  }

  lemma OneEmptySegment()
    ensures Slashless([[]]) && Rejoined([[]]) == []
  {
  }

  lemma {:induction false} RejoinedSegments(segments: seq<Text>)
    requires Slashless(segments)
    ensures Segments(Rejoined(segments)) == segments
    decreases |segments|, |segments[0]|
  {
    var first := segments[0];
    assert first in segments;
    if first != [] {
      var shorter := [first[1..]] + segments[1..];
      assert Slashless(shorter) by {
        assert forall s <- shorter :: s == first[1..] || s in segments;
      }
      assert first[0] in first;
      RejoinedSegments(shorter);
      OneUnitMore(first[0], shorter);
      WithFirst(segments, shorter);
      assert Rejoined(segments)[1..] == Rejoined(shorter);
    } else if |segments| > 1 {
      assert forall s <- segments[1..] :: s in segments;
      RejoinedSegments(segments[1..]);
      OneSegmentMore(segments[1..]);
      assert segments == [[]] + segments[1..];
      assert Rejoined(segments)[1..] == Rejoined(segments[1..]);
    }
  }

  lemma WithFirst(segments: seq<Text>, shorter: seq<Text>)
    requires segments != [] && segments[0] != [] && shorter == [segments[0][1..]] + segments[1..]
    ensures segments == [[segments[0][0]] + shorter[0]] + shorter[1..]
  {
    assert [segments[0][0]] + shorter[0] == segments[0];
    assert shorter[1..] == segments[1..];
  }

  /** 1 to 32 segments, none of them empty, a dot or two dots or with an unsafe character. */
  ghost predicate SafeSegments(rules: Rules, segments: seq<Text>) {
    && |segments| <= 32
    && forall s <- segments :: s != [] && s != [0x2E] && s != [0x2E, 0x2E] && !rules.unsafe(s)
  }

  /** A safe path is normalised, of 1 to 255 units and bytes, and safe segments between single
      slashes; it holds no backslash and no NUL and starts with no drive letter. */
  lemma SafePathsAre(rules: Rules, path: Text)
    ensures CanonicalPath(rules, path) <==>
        (&& 1 <= |path| <= 255 && |ToUtf8(path)| <= 255 && rules.nfc(path) == path && 0x5C !in path && 0 !in path
         && !(|path| >= 2 && path[1] == 0x3A && (0x41 <= path[0] <= 0x5A || 0x61 <= path[0] <= 0x7A))
         && exists segments: seq<Text> ::
              Slashless(segments) && Rejoined(segments) == path && SafeSegments(rules, segments))
  {
    hide *;
    SegmentsRejoin(path);
    LeadingSlash(path);
    PathOfSegments(rules, path, Segments(path));
    forall segments: seq<Text> | segments != [] && Slashless(segments) && Rejoined(segments) == path
      ensures segments == Segments(path)
    {
      RejoinedSegments(segments);
    }
    SlashlessIsSome();
  }

  lemma SlashlessIsSome()
    ensures forall segments: seq<Text> | Slashless(segments) :: segments != []
  {
  }

  lemma PathOfSegments(rules: Rules, path: Text, segments: seq<Text>)
    requires segments == Segments(path) && (path != [] && path[0] == SLASH ==> [] in segments)
    ensures CanonicalPath(rules, path) <==>
        (&& 1 <= |path| <= 255 && |ToUtf8(path)| <= 255 && rules.nfc(path) == path && 0x5C !in path && 0 !in path
         && !(|path| >= 2 && path[1] == 0x3A && (0x41 <= path[0] <= 0x5A || 0x61 <= path[0] <= 0x7A))
         && SafeSegments(rules, segments))
  {
    hide ToUtf8, Segments;
    DotsAre();
    forall s | s in segments
      ensures SegmentAllowed(rules, s) <==> s != [] && s != [0x2E] && s != [0x2E, 0x2E] && !rules.unsafe(s)
    {
    }
  }

  lemma DotsAre()
    ensures Units(".") == [0x2E] && Units("..") == [0x2E, 0x2E]
  {
  }

  lemma LeadingSlash(path: Text)
    ensures path != [] && path[0] == SLASH ==> [] in Segments(path)
  {
    if path != [] && path[0] == SLASH {
      assert Segments(path)[0] == [];
    }
  }

  /** What may lie where in a package. */
  lemma PermittedPathsAre(path: Text)
    ensures PermittedPath(path) <==>
        || path == Units("manifest.json") || path == Units("integrity.json") || path == Units("icon.png")
        || path == Units("settings.schema.json") || Units("payload/") <= path || Units("LICENSES/") <= path
  {
  }

  function TotalBytes(files: seq<File>): nat {
    if files == [] then 0 else TotalBytes(files[..|files| - 1]) + |files[|files| - 1].contents|
  }

  /** Safe paths, in strict order and distinct after folding, within the size limits. */
  ghost predicate Orderly(rules: Rules, files: seq<File>) {
    && (forall i | 0 <= i < |files| :: Allowed(rules, files[i].path) && |files[i].contents| <= MAXIMUM_FILE_BYTES)
    && (forall i, j | 0 <= i < j < |files| ::
          Less(files[i].path, files[j].path) && rules.fold(files[i].path) != rules.fold(files[j].path))
    && TotalBytes(files) <= MAXIMUM_EXPANDED_BYTES
  }

  ghost predicate ValidFiles(rules: Rules, files: seq<File>) {
    2 <= |files| <= MAXIMUM_FILES && Orderly(rules, files)
  }

  /** The limits of a list: 2 to 512 files of at most 32 MiB each and 128 MiB together. */
  lemma LimitsOfLists(rules: Rules, files: seq<File>)
    requires ValidFiles(rules, files)
    ensures 2 <= |files| <= 512 && TotalBytes(files) <= 134217728
    ensures forall f <- files :: |f.contents| <= 33554432 && CanonicalPath(rules, f.path) && PermittedPath(f.path)
  {
    hide CanonicalPath, PermittedPath, Less;
    forall f | f in files
      ensures |f.contents| <= 33554432 && CanonicalPath(rules, f.path) && PermittedPath(f.path)
    {
      var i :| 0 <= i < |files| && files[i] == f;
      assert Allowed(rules, files[i].path);
    }
  }

  /** What one more file must satisfy behind an orderly list. */
  predicate FitsBehind(rules: Rules, files: seq<File>, f: File) {
    && Allowed(rules, f.path)
    && (files != [] ==> Less(files[|files| - 1].path, f.path))
    && (forall i | 0 <= i < |files| :: rules.fold(files[i].path) != rules.fold(f.path))
    && |f.contents| <= MAXIMUM_FILE_BYTES
    && TotalBytes(files) <= MAXIMUM_EXPANDED_BYTES - |f.contents|
  }

  lemma TotalAppend(files: seq<File>, f: File)
    ensures TotalBytes(files + [f]) == TotalBytes(files) + |f.contents|
  {
    assert (files + [f])[..|files|] == files;
  }

  /** The one-by-one checks decide the pairwise conditions. */
  lemma OrderlyBehind(rules: Rules, files: seq<File>, f: File)
    requires Orderly(rules, files)
    ensures Orderly(rules, files + [f]) <==> FitsBehind(rules, files, f)
  {
    hide Allowed, Less, TotalBytes;
    var more := files + [f];
    assert more[..|files|] == files;
    TotalAppend(files, f);
    if Orderly(rules, more) {
      assert more[|files|] == f;
      assert forall i | 0 <= i < |files| :: more[i] == files[i];
    }
    if FitsBehind(rules, files, f) && files != [] {
      forall i | 0 <= i < |files|
        ensures Less(files[i].path, f.path)
      {
        if i < |files| - 1 {
          LessIsTransitive(files[i].path, files[|files| - 1].path, f.path);
        }
      }
    }
  }

  lemma PrefixStep<T>(s: seq<T>, n: nat)
    requires n < |s|
    ensures s[..n + 1] == s[..n] + [s[n]]
  {
  }

  lemma PrefixEnds<T>(s: seq<T>)
    ensures s[..0] == [] && s[..|s|] == s
  {
  }

  lemma OrderlyPrefix(rules: Rules, files: seq<File>, n: nat)
    requires Orderly(rules, files) && n <= |files|
    ensures Orderly(rules, files[..n])
    decreases |files| - n
  {
    PrefixEnds(files);
    if n < |files| {
      hide Orderly;
      OrderlyPrefix(rules, files, n + 1);
      PrefixStep(files, n);
      OrderlyFront(rules, files[..n], files[n]);
    }
  }

  lemma OrderlyFront(rules: Rules, files: seq<File>, f: File)
    requires Orderly(rules, files + [f])
    ensures Orderly(rules, files)
  {
    hide Allowed, Less, TotalBytes;
    TotalAppend(files, f);
    assert forall i | 0 <= i < |files| :: (files + [f])[i] == files[i];
  }

  // ---- The byte format ----

  function EncodedFile(f: File): Bytes {
    BigEndian(|ToUtf8(f.path)|, 2) + ToUtf8(f.path) + BigEndian(|f.contents|, 8) + f.contents
  }

  function EncodedFiles(files: seq<File>): Bytes {
    if files == [] then [] else EncodedFile(files[0]) + EncodedFiles(files[1..])
  }

  function Encoded(files: seq<File>): Bytes {
    BigEndian(|files|, 4) + EncodedFiles(files)
  }

  /** A bundle is the number of files in four bytes, and for each file in turn the length of its
      path in two bytes, the path in UTF-8, the length of its contents in eight, and these; all
      numbers with their highest byte first. */
  lemma FormatOfBundles(a: File, b: File)
    ensures Encoded([a, b]) == [0, 0, 0, 2] + (EncodedFile(a) + EncodedFile(b))
    ensures EncodedFile(File([0x61, 0xE9], [7, 8])) ==
        [0, 3, 0x61, 0xC3, 0xA9, 0, 0, 0, 0, 0, 0, 0, 2, 7, 8]
    ensures BigEndian(0x0102_0304, 4) == [1, 2, 3, 4] && BigEndian(0xFFFE, 2) == [0xFF, 0xFE]
  {
    hide ToUtf8, BigEndian;
    TwoFiles(a, b);
    SmallNumbers();
    PathExample();
  }

  lemma TwoFiles(a: File, b: File)
    ensures EncodedFiles([a, b]) == EncodedFile(a) + EncodedFile(b)
  {
    hide EncodedFile;
    assert [a, b][1..] == [b] && [b][1..] == [];
    assert EncodedFiles([b]) == EncodedFile(b) + EncodedFiles([]);
    assert EncodedFile(b) + [] == EncodedFile(b);
  }

  lemma SmallNumbers()
    ensures BigEndian(2, 4) == [0, 0, 0, 2] && BigEndian(3, 2) == [0, 3]
    ensures BigEndian(2, 8) == [0, 0, 0, 0, 0, 0, 0, 2] && BigEndian(1, 8) == [0, 0, 0, 0, 0, 0, 0, 1]
    ensures BigEndian(0x0102_0304, 4) == [1, 2, 3, 4] && BigEndian(0xFFFE, 2) == [0xFF, 0xFE]
  {
    NoBytes();
    assert BigEndian(0, 1) == [0] && BigEndian(0, 2) == [0, 0] && BigEndian(0, 3) == [0, 0, 0];
    assert BigEndian(0, 4) == [0, 0, 0, 0] && BigEndian(0, 5) == [0, 0, 0, 0, 0];
    assert BigEndian(0, 6) == [0, 0, 0, 0, 0, 0] && BigEndian(0, 7) == [0, 0, 0, 0, 0, 0, 0];
    assert BigEndian(1, 1) == [1] && BigEndian(0x0102, 2) == [1, 2] && BigEndian(0x01_0203, 3) == [1, 2, 3];
    assert BigEndian(0xFF, 1) == [0xFF];
  }

  lemma NoBytes()
    ensures forall n :: BigEndian(n, 0) == []
  {
  }

  lemma PathExample()
    ensures ToUtf8([0x61, 0xE9]) == [0x61, 0xC3, 0xA9]
  {
    assert [0x61, 0xE9][1..] == [0xE9] && [0xE9][1..] == [];
    assert ToUtf8([0xE9]) == [0xC3, 0xA9] + [];
  }

  /** The first `n` bytes, if there are as many, and the rest. */
  ghost function Take(b: Bytes, n: nat): (r: Option<(Bytes, Bytes)>)
    ensures r.Some? ==> |r.value.0| == n && b == r.value.0 + r.value.1
  {
    if |b| < n then None else Some((b[..n], b[n..]))
  }

  /** One file from the front of the bytes; `done` are the files before it. */
  ghost function DecodedFile(rules: Rules, b: Bytes, done: seq<File>): (r: Option<(File, Bytes)>)
    ensures r.Some? ==> |r.value.1| < |b|
  {
    var head := Take(b, 2);
    if head.None? then None
    else
      var pathSize := FromBigEndian(head.value.0);
      if pathSize == 0 || pathSize > MAXIMUM_PATH_BYTES then None
      else
        var name := Take(head.value.1, pathSize);
        if name.None? then None
        else
          var path := FromUtf8(name.value.0);
          if path.None? || ToUtf8(path.value) != name.value.0 then None
          else
            var size := Take(name.value.1, 8);
            if size.None? then None
            else
              var contents := Take(size.value.1, FromBigEndian(size.value.0));
              if contents.None? then None
              else
                var f := File(path.value, contents.value.0);
                if FitsBehind(rules, done, f) then Some((f, contents.value.1)) else None
  }

  ghost function DecodedFiles(rules: Rules, b: Bytes, count: nat, done: seq<File>): Option<seq<File>> {
    if count == 0 then (if b == [] then Some(done) else None)
    else
      var f := DecodedFile(rules, b, done);
      if f.None? then None else DecodedFiles(rules, f.value.1, count - 1, done + [f.value.0])
  }

  ghost function Decoded(rules: Rules, b: Bytes): Option<seq<File>> {
    var head := Take(b, 4);
    if head.None? then None
    else
      var count := FromBigEndian(head.value.0);
      if count < 2 || count > MAXIMUM_FILES then None else DecodedFiles(rules, head.value.1, count, [])
  }

  ghost predicate AllWellFormed(files: seq<File>) {
    forall i | 0 <= i < |files| :: WellFormed(files[i].path)
  }

  lemma TakeBack(a: Bytes, b: Bytes)
    ensures Take(a + b, |a|) == Some((a, b))
  {
  }

  lemma Regroup(a: Bytes, b: Bytes, c: Bytes, d: Bytes, e: Bytes)
    ensures a + b + c + d + e == a + (b + (c + (d + e)))
  {
  }

  lemma FileReadsBack(rules: Rules, f: File, rest: Bytes, done: seq<File>)
    requires FitsBehind(rules, done, f) && WellFormed(f.path)
    ensures DecodedFile(rules, EncodedFile(f) + rest, done) == Some((f, rest))
  {
    hide Utf8, FromUtf8, FromBigEndian, BigEndian, Power256, WellFormed;
    var path := ToUtf8(f.path);
    var size, pathSize := BigEndian(|f.contents|, 8), BigEndian(|path|, 2);
    Widths();
    PathIsNotEmpty(f.path);
    WellFormedToUtf8(f.path);
    Utf8RoundTrip(f.path);
    BigEndianRoundTrip(|path|, 2);
    BigEndianRoundTrip(|f.contents|, 8);
    var tail := f.contents + rest;
    Regroup(pathSize, path, size, f.contents, rest);
    TakeBack(pathSize, path + (size + tail));
    TakeBack(path, size + tail);
    TakeBack(size, tail);
    TakeBack(f.contents, rest);
  }

  lemma PathIsNotEmpty(t: Text)
    requires t != []
    ensures ToUtf8(t) != []
  {
  }

  lemma {:induction false} FilesReadBack(rules: Rules, files: seq<File>, done: seq<File>)
    requires Orderly(rules, done + files) && AllWellFormed(files)
    ensures DecodedFiles(rules, EncodedFiles(files), |files|, done) == Some(done + files)
    decreases |files|
  {
    hide Orderly, DecodedFile, EncodedFile, FitsBehind, WellFormed;
    if files == [] {
      assert done + files == done;
    } else {
      var next := done + [files[0]];
      assert next == (done + files)[..|done| + 1];
      OrderlyPrefix(rules, done + files, |done| + 1);
      OrderlyPrefix(rules, done + files, |done|);
      assert done == (done + files)[..|done|];
      OrderlyBehind(rules, done, files[0]);
      FileReadsBack(rules, files[0], EncodedFiles(files[1..]), done);
      assert next + files[1..] == done + files;
      FilesReadBack(rules, files[1..], next);
    }
  }

  lemma FileWasWritten(rules: Rules, b: Bytes, done: seq<File>)
    requires DecodedFile(rules, b, done).Some?
    ensures var r := DecodedFile(rules, b, done).value;
      && b == EncodedFile(r.0) + r.1 && WellFormed(r.0.path) && FitsBehind(rules, done, r.0)
  {
    hide FromUtf8, FromBigEndian, BigEndian, WellFormed, ToUtf8, FitsBehind;
    var head := Take(b, 2).value;
    var name := Take(head.1, FromBigEndian(head.0)).value;
    var size := Take(name.1, 8).value;
    var contents := Take(size.1, FromBigEndian(size.0)).value;
    DecodedIsWellFormed(name.0);
    BigEndianOfBytes(head.0);
    BigEndianOfBytes(size.0);
    Regroup(head.0, name.0, size.0, contents.0, contents.1);
  }

  lemma {:induction false} FilesWereWritten(rules: Rules, b: Bytes, count: nat, done: seq<File>)
    requires Orderly(rules, done) && DecodedFiles(rules, b, count, done).Some?
    ensures var all := DecodedFiles(rules, b, count, done).value;
      && |all| == |done| + count && done == all[..|done|] && Orderly(rules, all)
      && b == EncodedFiles(all[|done|..]) && AllWellFormed(all[|done|..])
    decreases count
  {
    hide Orderly, DecodedFile, EncodedFile, FitsBehind, WellFormed;
    var all := DecodedFiles(rules, b, count, done).value;
    if count > 0 {
      var r := DecodedFile(rules, b, done).value;
      FileWasWritten(rules, b, done);
      OrderlyBehind(rules, done, r.0);
      FilesWereWritten(rules, r.1, count - 1, done + [r.0]);
      assert all[|done|..][0] == r.0 && all[|done|..][1..] == all[|done| + 1..];
    } else {
      assert all[|done|..] == [];
    }
  }

  /** Reading inverts writing on every valid file list, unless a path holds a lone surrogate:
      exactly then the list does not come back. */
  lemma BundleRoundTrip(rules: Rules, files: seq<File>)
    requires ValidFiles(rules, files)
    ensures Decoded(rules, Encoded(files)) == Some(files) <==> AllWellFormed(files)
  {
    Widths();
    BigEndianRoundTrip(|files|, 4);
    TakeBack(BigEndian(|files|, 4), EncodedFiles(files));
    if AllWellFormed(files) {
      assert [] + files == files;
      FilesReadBack(rules, files, []);
    }
    if Decoded(rules, Encoded(files)) == Some(files) {
      FilesWereWritten(rules, EncodedFiles(files), |files|, []);
      assert files[0..] == files;
    }
  }

  /** Only what the writer produces from a valid list is accepted. */
  lemma AcceptedWasWritten(rules: Rules, b: Bytes)
    requires Decoded(rules, b).Some?
    ensures var files := Decoded(rules, b).value;
      ValidFiles(rules, files) && Encoded(files) == b && AllWellFormed(files)
  {
    var head := Take(b, 4).value;
    var count := FromBigEndian(head.0);
    BigEndianOfBytes(head.0);
    FilesWereWritten(rules, head.1, count, []);
    var files := Decoded(rules, b).value;
    assert files[0..] == files;
  }

  // ---- The digest ----

  ghost function Frame(name: Bytes, value: Bytes): Bytes {
    BigEndian(|name|, 8) + name + BigEndian(|value|, 8) + value
  }

  /** Everything the package digest is taken over. */
  ghost function Preimage(files: seq<File>): Bytes {
    if files == [] then []
    else Preimage(files[..|files| - 1]) + Frame(ToUtf8(files[|files| - 1].path), files[|files| - 1].contents)
  }

  /** The digest is taken over the files in turn, each as the length of its path in eight bytes,
      the path in UTF-8, the length of its contents in eight, and these. */
  lemma FormatOfPreimages(a: File, b: File)
    ensures Preimage([a, b]) == Frame(ToUtf8(a.path), a.contents) + Frame(ToUtf8(b.path), b.contents)
    ensures Frame([0x61, 0x62], [7]) == [0, 0, 0, 0, 0, 0, 0, 2, 0x61, 0x62, 0, 0, 0, 0, 0, 0, 0, 1, 7]
  {
    hide ToUtf8, BigEndian;
    SmallNumbers();
    assert [a, b][..1] == [a] && [a][..0] == [];
    assert Preimage([a]) == [] + Frame(ToUtf8(a.path), a.contents);
  }

  /** The same, from the front. */
  ghost function Frames(files: seq<File>): Bytes {
    if files == [] then [] else Frame(ToUtf8(files[0].path), files[0].contents) + Frames(files[1..])
  }

  lemma {:induction false} FramesAppend(a: seq<File>, b: seq<File>)
    ensures Frames(a + b) == Frames(a) + Frames(b)
  {
    hide Frame, ToUtf8;
    if a == [] {
      assert a + b == b;
    } else {
      FramesAppend(a[1..], b);
      assert (a + b)[0] == a[0] && (a + b)[1..] == a[1..] + b;
      Associates(Frame(ToUtf8(a[0].path), a[0].contents), Frames(a[1..]), Frames(b));
    }
  }

  lemma {:induction false} PreimageIsFrames(files: seq<File>)
    ensures Preimage(files) == Frames(files)
  {
    if files != [] {
      var last := files[|files| - 1];
      PreimageIsFrames(files[..|files| - 1]);
      FramesAppend(files[..|files| - 1], [last]);
      assert files == files[..|files| - 1] + [last];
      assert Frames([last]) == Frame(ToUtf8(last.path), last.contents) + Frames([]);
    }
  }

  ghost predicate Framable(files: seq<File>) {
    forall i | 0 <= i < |files| :: |ToUtf8(files[i].path)| < Power256(8) && |files[i].contents| < Power256(8)
  }

  lemma SamePrefix(a: Bytes, r: Bytes, b: Bytes, s: Bytes)
    requires a + r == b + s && |a| == |b|
    ensures a == b && r == s
  {
    assert (a + r)[..|a|] == a && (b + s)[..|b|] == b;
    assert (a + r)[|a|..] == r && (b + s)[|b|..] == s;
  }

  /** A frame can be read off the front of the bytes it starts. */
  lemma FrameSplits(n: Bytes, v: Bytes, r: Bytes, m: Bytes, w: Bytes, s: Bytes)
    requires |n| < Power256(8) && |v| < Power256(8) && |m| < Power256(8) && |w| < Power256(8)
    requires Frame(n, v) + r == Frame(m, w) + s
    ensures n == m && v == w && r == s
  {
    hide BigEndian, FromBigEndian, Power256;
    var a, b, c, d := BigEndian(|n|, 8), BigEndian(|v|, 8), BigEndian(|m|, 8), BigEndian(|w|, 8);
    assert Frame(n, v) + r == a + (n + (b + (v + r)));
    assert Frame(m, w) + s == c + (m + (d + (w + s)));
    SamePrefix(a, n + (b + (v + r)), c, m + (d + (w + s)));
    BigEndianRoundTrip(|n|, 8);
    BigEndianRoundTrip(|m|, 8);
    SamePrefix(n, b + (v + r), m, d + (w + s));
    SamePrefix(b, v + r, d, w + s);
    BigEndianRoundTrip(|v|, 8);
    BigEndianRoundTrip(|w|, 8);
    SamePrefix(v, r, w, s);
  }

  /** The same path bytes and contents, file by file. */
  ghost predicate SameFiles(a: seq<File>, b: seq<File>) {
    && |a| == |b|
    && forall i | 0 <= i < |a| :: ToUtf8(a[i].path) == ToUtf8(b[i].path) && a[i].contents == b[i].contents
  }

  lemma SameFilesStep(a: seq<File>, b: seq<File>)
    requires a != [] && b != []
    ensures SameFiles(a, b)
      <==> (ToUtf8(a[0].path) == ToUtf8(b[0].path) && a[0].contents == b[0].contents && SameFiles(a[1..], b[1..]))
  {
    hide ToUtf8;
    if SameFiles(a[1..], b[1..]) {
      forall i | 1 <= i < |a|
        ensures |a| == |b| ==> ToUtf8(a[i].path) == ToUtf8(b[i].path) && a[i].contents == b[i].contents
      {
        assert a[i] == a[1..][i - 1];
      }
    }
  }

  lemma {:induction false} SameFilesEncode(a: seq<File>, b: seq<File>)
    requires SameFiles(a, b)
    ensures EncodedFiles(a) == EncodedFiles(b) && Encoded(a) == Encoded(b)
  {
    hide ToUtf8, BigEndian, SameFiles;
    if a == [] || b == [] {
      SameFilesEmpty(a, b);
    } else {
      SameFilesStep(a, b);
      SameFilesEncode(a[1..], b[1..]);
      SameLength(a, b);
    }
  }

  lemma SameLength(a: seq<File>, b: seq<File>)
    ensures SameFiles(a, b) ==> |a| == |b|
  {
  }

  /** Frames decide the path bytes and the contents of any two lists, and nothing more. */
  lemma {:induction false} FramesDecide(a: seq<File>, b: seq<File>)
    requires Framable(a) && Framable(b)
    ensures Frames(a) == Frames(b) <==> SameFiles(a, b)
  {
    hide Frame, ToUtf8, SameFiles;
    if a == [] || b == [] {
      FramesLength(a);
      FramesLength(b);
      SameFilesEmpty(a, b);
    } else {
      SameFilesStep(a, b);
      FramesDecide(a[1..], b[1..]);
      if Frames(a) == Frames(b) {
        FrameSplits(ToUtf8(a[0].path), a[0].contents, Frames(a[1..]),
                    ToUtf8(b[0].path), b[0].contents, Frames(b[1..]));
      }
    }
  }

  lemma SameFilesEmpty(a: seq<File>, b: seq<File>)
    requires a == [] || b == []
    ensures SameFiles(a, b) <==> a == b
  {
  }

  lemma FramesLength(files: seq<File>)
    ensures files == [] <==> Frames(files) == []
  {
    hide ToUtf8, BigEndian;
  }

  lemma PathIsKnown(p: Text, q: Text)
    requires WellFormed(p) && WellFormed(q) && ToUtf8(p) == ToUtf8(q)
    ensures p == q
  {
    WellFormedToUtf8(p);
    WellFormedToUtf8(q);
    Utf8RoundTrip(p);
    Utf8RoundTrip(q);
  }

  /** The digest of two packages is taken over the same bytes exactly when they agree in every
      path as UTF-8 and in all contents. */
  lemma PreimageDecides(rules: Rules, a: seq<File>, b: seq<File>)
    requires ValidFiles(rules, a) && ValidFiles(rules, b)
    ensures Preimage(a) == Preimage(b) <==> SameFiles(a, b)
  {
    hide SameFiles;
    ValidIsFramable(rules, a);
    ValidIsFramable(rules, b);
    PreimageIsFrames(a);
    PreimageIsFrames(b);
    FramesDecide(a, b);
  }

  lemma ValidIsFramable(rules: Rules, files: seq<File>)
    requires ValidFiles(rules, files)
    ensures Framable(files)
  {
    Widths();
    hide Power256, ToUtf8, Segments;
  }

  /** Without lone surrogates it is taken over different bytes for different packages. */
  lemma PreimageIsInjective(rules: Rules, a: seq<File>, b: seq<File>)
    requires ValidFiles(rules, a) && ValidFiles(rules, b) && AllWellFormed(a) && AllWellFormed(b)
    ensures Preimage(a) == Preimage(b) ==> a == b
  {
    PreimageDecides(rules, a, b);
    if Preimage(a) == Preimage(b) {
      forall i | 0 <= i < |a|
        ensures a[i] == b[i]
      {
        PathIsKnown(a[i].path, b[i].path);
      }
    }
  }

  // ---- Two packages with one digest ----

  const MANIFEST := Units("manifest.json")

  ghost function UnderPayload(u: Unit): (t: Text)
    ensures |t| == 9
  {
    PAYLOAD + [u]
  }

  /** Normalisation and folding that leave these paths alone, as Unicode's do, and no character
      of theirs is a control or format character. */
  ghost function PlainRules(): Rules {
    Rules(t => t, _ => false, t => t)
  }

  /** With lone surrogates two valid packages can have the same bundle and the same digest. */
  lemma LoneSurrogatesCollide(p: Unit, q: Unit) returns (a: seq<File>, b: seq<File>)
    requires High(p) && High(q) && p != q
    ensures ValidFiles(PlainRules(), a) && ValidFiles(PlainRules(), b)
    ensures a != b && Encoded(a) == Encoded(b) && Preimage(a) == Preimage(b)
  {
    var f, g, h := File(MANIFEST, []), File(UnderPayload(p), []), File(UnderPayload(q), []);
    a, b := [f, g], [f, h];
    assert a[1] != b[1] by { assert g.path[8] == p && h.path[8] == q; }
    PairIsValid(p);
    PairIsValid(q);
    SurrogateIsQuestion(p);
    SurrogateIsQuestion(q);
    hide ToUtf8, UnderPayload, ValidFiles, Encoded, Preimage;
    SameFilesEncode(a, b);
    PreimageDecides(PlainRules(), a, b);
  }
  lemma {:induction false} AsciiFirst(a: Text, b: Text)
    requires forall i | 0 <= i < |a| :: a[i] < 0x80
    ensures ToUtf8(a + b) == a + ToUtf8(b)
  {
    if a == [] {
      assert a + b == b && a + ToUtf8(b) == ToUtf8(b);
    } else {
      AsciiFirst(a[1..], b);
      assert (a + b)[0] == a[0] < 0x80 && (a + b)[1..] == a[1..] + b;
      assert ToUtf8(a + b) == [a[0]] + (a[1..] + ToUtf8(b));
      assert a == [a[0]] + a[1..];
    }
  }

  lemma {:induction false} SegmentThen(segment: Text, rest: Text)
    requires SLASH !in segment
    ensures Segments(segment) == [segment]
    ensures Segments(segment + [SLASH] + rest) == [segment] + Segments(rest)
  {
    var path := segment + [SLASH] + rest;
    if segment == [] {
      assert path[0] == SLASH && path[1..] == rest;
    } else {
      SegmentThen(segment[1..], rest);
      assert path[0] == segment[0] && path[1..] == segment[1..] + [SLASH] + rest;
      assert segment == [segment[0]] + segment[1..];
    }
  }

  lemma SurrogateIsQuestion(p: Unit)
    requires High(p)
    ensures ToUtf8(UnderPayload(p)) == PAYLOAD + [0x3F]
  {
    AsciiFirst(PAYLOAD, [p]);
    assert [p][1..] == [];
  }

  lemma ManifestIsAllowed()
    ensures Allowed(PlainRules(), MANIFEST)
  {
    ManifestText();
    hide Units, ToUtf8, Segments;
    AsciiFirst(MANIFEST, []);
    SegmentThen(MANIFEST, []);
    NothingToUtf8();
    assert MANIFEST + [] == MANIFEST;
  }

  lemma NothingToUtf8()
    ensures ToUtf8([]) == []
  {
  }

  lemma ManifestText()
    ensures |MANIFEST| == 13 && MANIFEST[0] == 0x6D && MANIFEST[1] != COLON
    ensures forall i | 0 <= i < |MANIFEST| :: 0 < MANIFEST[i] < 0x80 && MANIFEST[i] != SLASH && MANIFEST[i] != BACKSLASH
  {
  }

  lemma SurrogateIsAllowed(p: Unit)
    requires High(p)
    ensures Allowed(PlainRules(), UnderPayload(p))
  {
    var path, plain := UnderPayload(p), Units("payload");
    SurrogateIsQuestion(p);
    SegmentThen(plain, [p]);
    SegmentThen([p], []);
    assert path == plain + [SLASH] + [p];
  }

  lemma PairIsValid(p: Unit)
    requires High(p)
    ensures ValidFiles(PlainRules(), [File(MANIFEST, []), File(UnderPayload(p), [])])
  {
    hide CanonicalPath, PermittedPath, ToUtf8;
    var f, g := File(MANIFEST, []), File(UnderPayload(p), []);
    ManifestIsAllowed();
    SurrogateIsAllowed(p);
    assert f.path[0] < g.path[0];
    assert [f, g][..1] == [f] && [f][..0] == [];
    assert TotalBytes([f]) == 0 && TotalBytes([f, g]) == 0;
  }

  // ---- Devices ----

  /** A device whose writes and reads may be short, and may fail. */
  class Device {
    var content: Bytes
    var cursor: nat
    var faults: nat

    ghost predicate Valid()
      reads this
    {
      cursor <= |content|
    }

    ghost function Rest(): Bytes
      reads this
      requires Valid()
    {
      content[cursor..]
    }

    constructor (content: Bytes)
      ensures Valid() && this.content == content && cursor == 0 && faults == 0
    {
      this.content, cursor, faults := content, 0, 0;
    }

    method Write(bytes: Bytes) returns (count: int)
      requires bytes != []
      modifies this`content, this`faults
      ensures count <= |bytes|
      ensures count > 0 ==> content == old(content) + bytes[..count] && faults == old(faults)
      ensures count <= 0 ==> content == old(content) && faults > old(faults)
    {
      count := *;
      if count > |bytes| {
        count := |bytes|;
      }
      if count > 0 {
        content := content + bytes[..count];
      } else {
        faults := faults + 1;
      }
    }

    method Read(limit: nat) returns (count: int, chunk: Bytes)
      requires Valid() && limit > 0
      modifies this`cursor, this`faults
      ensures Valid()
      ensures count > 0 ==> count <= limit && chunk + Rest() == old(Rest()) && |chunk| == count && faults == old(faults)
      ensures count == 0 ==> old(Rest()) == [] && faults == old(faults)
      ensures count < 0 ==> faults > old(faults)
      ensures count <= 0 ==> cursor == old(cursor)
    {
      count, chunk := *, [];
      if count < 0 {
        faults := faults + 1;
      } else if cursor == |content| {
        count := 0;
      } else {
        if count == 0 {
          count := 1;
        }
        if count > limit {
          count := limit;
        }
        if count > |content| - cursor {
          count := |content| - cursor;
        }
        chunk := content[cursor..cursor + count];
        cursor := cursor + count;
      }
    }

    method WriteAll(bytes: Bytes) returns (ok: bool)
      modifies this`content, this`faults
      ensures ok ==> content == old(content) + bytes && faults == old(faults)
      ensures !ok ==> faults > old(faults)
    {
      var written := 0;
      while written < |bytes|
        invariant 0 <= written <= |bytes| && content == old(content) + bytes[..written] && faults == old(faults)
      {
        var count := Write(bytes[written..]);
        if count <= 0 {
          return false;
        }
        written := written + count;
      }
      ok := true;
    }

    method ReadExact(size: nat) returns (bytes: Option<Bytes>)
      requires Valid()
      modifies this`cursor, this`faults
      ensures Valid() && faults >= old(faults)
      ensures bytes.Some? ==>
          faults == old(faults) && Take(old(Rest()), size) == Some((bytes.value, Rest()))
      ensures bytes.None? && faults == old(faults) ==> Take(old(Rest()), size).None?
    {
      var got: Bytes := [];
      ghost var all := Rest();
      while |got| < size
        invariant Valid() && faults == old(faults) && |got| <= size && got + Rest() == all
        decreases size - |got|
      {
        ghost var before := Rest();
        var count, chunk := Read(size - |got|);
        if count <= 0 {
          return None;
        }
        assert got + (chunk + Rest()) == got + chunk + Rest();
        got := got + chunk;
      }
      assert all[..size] == got && all[size..] == Rest();
      bytes := Some(got);
    }
  }

  method ValidateFiles(rules: Rules, files: seq<File>) returns (ok: bool)
    ensures ok <==> ValidFiles(rules, files)
  {
    if |files| < 2 || |files| > MAXIMUM_FILES {
      return false;
    }
    hide *;
    ValidMeansOrderly(rules, files);
    PassedNothing(rules, files);
    var previous: Text, owners: set<Text>, total: nat := [], {}, 0;
    for index := 0 to |files|
      invariant Passed(rules, files, index, previous, owners, total)
    {
      var fits;
      fits, previous, owners, total := CheckNext(rules, files, index, previous, owners, total);
      if !fits {
        return false;
      }
    }
    PassedAll(rules, files, previous, owners, total);
    ok := true;
  }

  /** The files before `index` are in order, and the loop's variables tell what it needs of them. */
  ghost predicate Passed(rules: Rules, files: seq<File>, index: nat, previous: Text, owners: set<Text>, total: nat)
    requires index <= |files|
  {
    Orderly(rules, files[..index]) && Tracks(rules, files[..index], previous, owners, total)
  }

  lemma PassedNothing(rules: Rules, files: seq<File>)
    ensures Passed(rules, files, 0, [], {}, 0)
  {
    hide Orderly, Tracks;
    PrefixEnds(files);
    OrderlyNothing(rules);
    TracksNothing(rules);
  }

  lemma PassedNext(rules: Rules, files: seq<File>, index: nat, previous: Text, owners: set<Text>, total: nat)
    requires index < |files| && Passed(rules, files, index, previous, owners, total)
    ensures
      var f := files[index];
      if FitsBehind(rules, files[..index], f) then
        Passed(rules, files, index + 1, f.path, owners + {rules.fold(f.path)}, total + |f.contents|)
      else !Orderly(rules, files)
  {
    hide Orderly, Tracks, FitsBehind;
    FitsDecides(rules, files, index, files[..index]);
    if FitsBehind(rules, files[..index], files[index]) {
      TracksNext(rules, files[..index], files[index], previous, owners, total);
    }
  }

  lemma PassedAll(rules: Rules, files: seq<File>, previous: Text, owners: set<Text>, total: nat)
    requires Passed(rules, files, |files|, previous, owners, total)
    ensures Orderly(rules, files)
  {
    hide Orderly;
    PrefixEnds(files);
  }

  lemma ValidMeansOrderly(rules: Rules, files: seq<File>)
    requires 2 <= |files| <= MAXIMUM_FILES
    ensures ValidFiles(rules, files) <==> Orderly(rules, files)
  {
  }

  lemma FitsDecides(rules: Rules, files: seq<File>, index: nat, done: seq<File>)
    requires index < |files| && done == files[..index] && Orderly(rules, done)
    ensures files[..index + 1] == done + [files[index]]
    ensures FitsBehind(rules, done, files[index]) <==> Orderly(rules, done + [files[index]])
    ensures Orderly(rules, files) ==> Orderly(rules, done + [files[index]])
  {
    hide Orderly, FitsBehind;
    OrderlyBehind(rules, done, files[index]);
    PrefixStep(files, index);
    if Orderly(rules, files) {
      OrderlyPrefix(rules, files, index + 1);
    }
  }

  /** What the validation loop knows of the files it has passed. */
  ghost predicate Tracks(rules: Rules, done: seq<File>, previous: Text, owners: set<Text>, total: nat) {
    && (done == [] <==> previous == [])
    && (done != [] ==> previous == done[|done| - 1].path)
    && (forall i | 0 <= i < |done| :: rules.fold(done[i].path) in owners)
    && (forall k | k in owners :: exists i :: 0 <= i < |done| && rules.fold(done[i].path) == k)
    && total == TotalBytes(done)
  }

  lemma TracksNothing(rules: Rules)
    ensures Tracks(rules, [], [], {}, 0)
  {
  }

  lemma TracksNext(rules: Rules, done: seq<File>, f: File, previous: Text, owners: set<Text>, total: nat)
    requires Tracks(rules, done, previous, owners, total) && FitsBehind(rules, done, f)
    ensures Tracks(rules, done + [f], f.path, owners + {rules.fold(f.path)}, total + |f.contents|)
  {
    var next := done + [f];
    assert next[..|done|] == done && next[|done|] == f;
    forall k | k in owners
      ensures exists i :: 0 <= i < |next| && rules.fold(next[i].path) == k
    {
      var i :| 0 <= i < |done| && rules.fold(done[i].path) == k;
      assert next[i] == done[i];
    }
  }

  /** One file: whether it may follow, and what the loop knows behind it. */
  method CheckNext(rules: Rules, files: seq<File>, index: nat, previous: Text, owners: set<Text>, total: nat)
    returns (fits: bool, last: Text, folded: set<Text>, sum: nat)
    requires index < |files| && Passed(rules, files, index, previous, owners, total)
    ensures fits <==> FitsBehind(rules, files[..index], files[index])
    ensures if fits then Passed(rules, files, index + 1, last, folded, sum) else !Orderly(rules, files)
  {
    hide Orderly, CanonicalPath, PermittedPath, Less, TotalBytes;
    var f := files[index];
    PassedNext(rules, files, index, previous, owners, total);
    fits := Allowed(rules, f.path) && (previous == [] || Less(previous, f.path))
      && |f.contents| <= MAXIMUM_FILE_BYTES && total <= MAXIMUM_EXPANDED_BYTES - |f.contents|
      && rules.fold(f.path) !in owners;
    last, folded, sum := f.path, owners + {rules.fold(f.path)}, total + |f.contents|;
  }

  lemma OrderlyNothing(rules: Rules)
    ensures Orderly(rules, [])
  {
  }

  method WriteBundle(rules: Rules, destination: Device, files: seq<File>) returns (ok: bool)
    modifies destination`content, destination`faults
    ensures ok ==> ValidFiles(rules, files) && destination.content == old(destination.content) + Encoded(files)
    ensures !ok && destination.faults == old(destination.faults) ==> !ValidFiles(rules, files)
  {
    hide ValidFiles, EncodedFiles, BigEndian;
    ok := ValidateFiles(rules, files);
    if !ok {
      return;
    }
    ok := destination.WriteAll(BigEndian(|files|, 4));
    if !ok {
      return;
    }
    ok := WriteFiles(destination, files);
    assert old(destination.content) + BigEndian(|files|, 4) + EncodedFiles(files)
        == old(destination.content) + Encoded(files);
  }

  method WriteFiles(destination: Device, files: seq<File>) returns (ok: bool)
    modifies destination`content, destination`faults
    ensures ok ==>
        && destination.content == old(destination.content) + EncodedFiles(files)
        && destination.faults == old(destination.faults)
    ensures !ok ==> destination.faults > old(destination.faults)
  {
    hide EncodedFile;
    ok := true;
    ghost var done: Bytes := [];
    assert files[0..] == files;
    for index := 0 to |files|
      invariant ok && destination.faults == old(destination.faults)
      invariant destination.content == old(destination.content) + done
      invariant done + EncodedFiles(files[index..]) == EncodedFiles(files)
    {
      ok := WriteFile(destination, files[index]);
      if !ok {
        return;
      }
      assert files[index..][1..] == files[index + 1..];
      ghost var encoded, rest := EncodedFile(files[index]), EncodedFiles(files[index + 1..]);
      assert done + (encoded + rest) == done + encoded + rest;
      done := done + encoded;
    }
    assert files[|files|..] == [] && done == EncodedFiles(files);
  }

  method WriteFile(destination: Device, f: File) returns (ok: bool)
    modifies destination`content, destination`faults
    ensures ok ==>
        && destination.content == old(destination.content) + EncodedFile(f)
        && destination.faults == old(destination.faults)
    ensures !ok ==> destination.faults > old(destination.faults)
  {
    hide ToUtf8, BigEndian;
    var path := ToUtf8(f.path);
    ok := destination.WriteAll(BigEndian(|path|, 2));
    if ok {
      ok := destination.WriteAll(path);
    }
    if ok {
      ok := destination.WriteAll(BigEndian(|f.contents|, 8));
    }
    if ok {
      ok := destination.WriteAll(f.contents);
    }
  }

  /** What a faultless device yields is exactly the decoding of its bytes. */
  method ReadBundle(rules: Rules, source: Device) returns (files: Option<seq<File>>)
    requires source.Valid()
    modifies source`cursor, source`faults
    ensures files.Some? ==> files == Decoded(rules, old(source.Rest()))
    ensures source.faults == old(source.faults) ==> files == Decoded(rules, old(source.Rest()))
  {
    hide DecodedFile, FromBigEndian;
    files := None;
    var head := source.ReadExact(4);
    if head.None? {
      return;
    }
    var count := FromBigEndian(head.value);
    if count < 2 || count > MAXIMUM_FILES {
      return;
    }
    ghost var expected := DecodedFiles(rules, source.Rest(), count, []);
    var done: seq<File> := [];
    while |done| < count
      invariant source.Valid() && source.faults == old(source.faults) && |done| <= count
      invariant DecodedFiles(rules, source.Rest(), count - |done|, done) == expected
    {
      var f := ReadFile(rules, source, done);
      if f.None? {
        return;
      }
      done := done + [f.value];
    }
    var trailing, _ := source.Read(1);
    if trailing == 0 {
      files := Some(done);
    }
  }

  method ReadFile(rules: Rules, source: Device, done: seq<File>) returns (f: Option<File>)
    requires source.Valid()
    modifies source`cursor, source`faults
    ensures source.Valid() && source.faults >= old(source.faults)
    ensures f.Some? ==>
        && source.faults == old(source.faults)
        && DecodedFile(rules, old(source.Rest()), done) == Some((f.value, source.Rest()))
    ensures f.None? && source.faults == old(source.faults) ==> DecodedFile(rules, old(source.Rest()), done).None?
  {
    hide FromUtf8, ToUtf8, FromBigEndian, FitsBehind, TotalBytes;
    f := None;
    var head := source.ReadExact(2);
    if head.None? || FromBigEndian(head.value) == 0 || FromBigEndian(head.value) > MAXIMUM_PATH_BYTES {
      return;
    }
    var name := source.ReadExact(FromBigEndian(head.value));
    if name.None? {
      return;
    }
    var path := FromUtf8(name.value);
    if path.None? || ToUtf8(path.value) != name.value {
      return;
    }
    var size := source.ReadExact(8);
    if size.None? {
      return;
    }
    var contents := source.ReadExact(FromBigEndian(size.value));
    if contents.None? || !FitsBehind(rules, done, File(path.value, contents.value)) {
      return;
    }
    f := Some(File(path.value, contents.value));
  }

  // ---- Hash contexts ----

  class DigestContext {
    var fed: Bytes

    constructor ()
      ensures fed == []
    {
      fed := [];
    }

    method AddData(bytes: Bytes)
      modifies this
      ensures fed == old(fed) + bytes
    {
      fed := fed + bytes;
    }

    method AddFrame(name: Bytes, value: Bytes)
      modifies this
      ensures fed == old(fed) + Frame(name, value)
    {
      hide BigEndian;
      AddData(BigEndian(|name|, 8));
      AddData(name);
      AddData(BigEndian(|value|, 8));
      AddData(value);
    }
  }

  /** `deriveComponentPackageDigest`: nothing for an invalid list. */
  method DerivePackageDigest(rules: Rules, files: seq<File>, sha256: Bytes -> string) returns (digest: Option<string>)
    ensures digest.Some? <==> ValidFiles(rules, files)
    ensures digest.Some? ==> digest.value == sha256(Preimage(files))
  {
    var valid := ValidateFiles(rules, files);
    if !valid {
      return None;
    }
    var hash := new DigestContext();
    for index := 0 to |files|
      invariant hash.fed == Preimage(files[..index])
    {
      assert files[..index + 1][..index] == files[..index];
      hash.AddFrame(ToUtf8(files[index].path), files[index].contents);
    }
    assert files[..|files|] == files;
    digest := Some(sha256(hash.fed));
  }

  lemma FrameInParts(before: Bytes, path: Bytes, content: Bytes)
    ensures before + BigEndian(|path|, 8) + path + BigEndian(|content|, 8) + content == before + Frame(path, content)
  {
    hide BigEndian;
    Regroup(before, BigEndian(|path|, 8), path, BigEndian(|content|, 8), content);
    Regroup([], BigEndian(|path|, 8), path, BigEndian(|content|, 8), content);
  }

  /** `hashFile`: the store's streaming form, in chunks of at most 64 KiB. */
  method HashFile(path: Bytes, reportedSize: nat, expectedSize: nat, file: Device, packageHash: DigestContext)
    returns (own: Option<Bytes>)
    requires file.Valid() && file.cursor == 0
    modifies file`cursor, file`faults, packageHash
    ensures own.Some? ==> reportedSize == expectedSize && own.value == file.content
    ensures own.Some? && |file.content| == expectedSize ==>
        packageHash.fed == old(packageHash.fed) + Frame(path, file.content)
    ensures own.Some? <==> reportedSize == expectedSize && file.faults == old(file.faults)
  {
    hide BigEndian, Frame;
    if reportedSize != expectedSize {
      return None;
    }
    packageHash.AddData(BigEndian(|path|, 8));
    packageHash.AddData(path);
    packageHash.AddData(BigEndian(expectedSize, 8));
    var fileHash := new DigestContext();
    var streamed := StreamFile(file, fileHash, packageHash);
    if !streamed {
      return None;
    }
    FrameInParts(old(packageHash.fed), path, file.content);
    own := Some(fileHash.fed);
  }

  /** Every chunk goes into both hashes. */
  method StreamFile(file: Device, fileHash: DigestContext, packageHash: DigestContext) returns (ok: bool)
    requires file.Valid() && file.cursor == 0 && fileHash != packageHash && fileHash.fed == []
    modifies file`cursor, file`faults, fileHash, packageHash
    ensures ok ==> fileHash.fed == file.content && packageHash.fed == old(packageHash.fed) + file.content
    ensures ok <==> file.faults == old(file.faults)
  {
    var reading := true;
    while reading
      invariant file.Valid() && file.faults == old(file.faults)
      invariant fileHash.fed + file.Rest() == file.content && packageHash.fed == old(packageHash.fed) + fileHash.fed
      invariant !reading ==> file.Rest() == []
      decreases reading, |file.content| - file.cursor
    {
      var count, chunk := file.Read(64 * 1024);
      if count < 0 {
        return false;
      }
      if count == 0 {
        reading := false;
      } else {
        Associates(fileHash.fed, chunk, file.Rest());
        Associates(old(packageHash.fed), fileHash.fed, chunk);
        fileHash.AddData(chunk);
        packageHash.AddData(chunk);
      }
    }
    return true;
  }

  /** What the receipt of an installed package lists of a file beside its path. */
  datatype Listed = Listed(size: nat, sha256: string)

  /** The sizes and hashes in a receipt are those of the files. */
  ghost predicate ListsFiles(files: seq<File>, listed: seq<Listed>, sha256: Bytes -> string)
    requires |listed| == |files|
  {
    forall i | 0 <= i < |files| :: listed[i] == Listed(|files[i].contents|, sha256(files[i].contents))
  }

  /** Hashing an installed tree against its receipt, file by file, feeds what the digest of the
      bundle was fed. Without a read fault it succeeds exactly when sizes and hashes agree. */
  method HashInstalledTree(files: seq<File>, listed: seq<Listed>, sha256: Bytes -> string)
    returns (digest: Option<string>, faults: nat)
    requires |listed| == |files|
    ensures digest.Some? ==> digest.value == sha256(Preimage(files)) && ListsFiles(files, listed, sha256)
    ensures faults == 0 && ListsFiles(files, listed, sha256) ==> digest.Some?
  {
    hide ToUtf8, BigEndian, Frame;
    var packageHash := new DigestContext();
    digest, faults := None, 0;
    for index := 0 to |files|
      invariant faults == 0 && packageHash.fed == Preimage(files[..index])
      invariant forall i | 0 <= i < index :: listed[i] == Listed(|files[i].contents|, sha256(files[i].contents))
    {
      assert files[..index + 1][..index] == files[..index];
      var file := new Device(files[index].contents);
      var path, size := ToUtf8(files[index].path), |files[index].contents|;
      var own := HashFile(path, size, listed[index].size, file, packageHash);
      faults := file.faults;
      if own.None? || sha256(own.value) != listed[index].sha256 {
        return;
      }
    }
    assert files[..|files|] == files;
    digest := Some(sha256(packageHash.fed));
  }
}
