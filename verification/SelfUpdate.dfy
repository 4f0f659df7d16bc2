/** The signed self-update, gate by gate. */
module SelfUpdate {
  // Reading versions and manifests, the signature and digest gates, and the sequence
  // of fetches that ends in an install. Ed25519, SHA-256 and the installer are
  // parameters.

  import opened Prelude
  import opened Utf8
  import ByteBits

  // ----- versions -----

  const U64_LIMIT: nat := 0x1_0000_0000_0000_0000

  datatype Version = Version(major: nat, minor: nat, patch: nat)

  predicate FitsU64(v: Version) {
    v.major < U64_LIMIT && v.minor < U64_LIMIT && v.patch < U64_LIMIT
  }

  /** The derived order: major, then minor, then patch. */
  predicate Less(a: Version, b: Version) {
    || a.major < b.major
    || (a.major == b.major && a.minor < b.minor)
    || (a.major == b.major && a.minor == b.minor && a.patch < b.patch)
  }

  datatype VersionError = BadMajor | BadMinor | BadPatch | TooManyComponents

  /** One component: ASCII digits only (no sign, unlike `u64::from_str`), in range. */
  function Component(s: string): Option<nat> {
    if s != [] && AllDigits(s) && DecimalValue(s) < U64_LIMIT then Some(DecimalValue(s)) else None
  }

  function VersionCore(s: string): string {
    var t := Trim(s);
    match StripPrefix(t, "v")
    case Some(rest) => rest
    case None => t
  }

  function ParseVersion(s: string): Result<Version, VersionError> {
    ParseParts(SplitOn(VersionCore(s), '.'))
  }

  /** `core` is three runs of digits with the values of `v` between dots. */
  ghost predicate SpelledBy(core: string, v: Version, a: string, b: string, c: string) {
    && core == a + "." + b + "." + c
    && Component(a) == Some(v.major) && Component(b) == Some(v.minor) && Component(c) == Some(v.patch)
  }

  ghost predicate Spells(core: string, v: Version) {
    exists a, b, c :: SpelledBy(core, v, a, b, c)
  }

  lemma SplitThree(a: string, b: string, c: string)
    requires '.' !in a && '.' !in b && '.' !in c
    ensures SplitOn(a + "." + b + "." + c, '.') == [a, b, c]
  {
    assert a + "." + b + "." + c == a + ['.'] + (b + "." + c);
    SplitOnJoin(a, '.', b + "." + c);
    assert b + "." + c == b + ['.'] + c;
    SplitOnJoin(b, '.', c);
    assert SplitOn(c, '.') == [c];
  }

  lemma JoinThree(p: seq<string>)
    requires |p| == 3
    ensures Join(p, ['.']) == p[0] + "." + p[1] + "." + p[2]
  {
    var (q, r) := (p[1..], p[1..][1..]);
    assert Join(r, ['.']) == r[0] == p[2];
    assert Join(q, ['.']) == p[1] + "." + p[2];
    assert Join(p, ['.']) == p[0] + ['.'] + (p[1] + "." + p[2]);
  }

  /** What the version loop makes of the pieces of a core. */
  function ParseParts(parts: seq<string>): Result<Version, VersionError>
    requires |parts| >= 1
  {
    var major := Component(parts[0]);
    if major.None? then Err(BadMajor)
    else if |parts| < 2 || Component(parts[1]).None? then Err(BadMinor)
    else if |parts| < 3 || Component(parts[2]).None? then Err(BadPatch)
    else if |parts| > 3 then Err(TooManyComponents)
    else Ok(Version(major.value, Component(parts[1]).value, Component(parts[2]).value))
  }

  lemma ParsedPartsAreSpelled(core: string, v: Version)
    requires ParseParts(SplitOn(core, '.')) == Ok(v)
    ensures Spells(core, v)
  {
    var p := SplitOn(core, '.');
    SplitOnIsCut(core, '.');
    JoinThree(p);
    assert SpelledBy(core, v, p[0], p[1], p[2]);
  }

  lemma SpelledIsParsed(core: string, v: Version, a: string, b: string, c: string)
    requires SpelledBy(core, v, a, b, c)
    ensures ParseParts(SplitOn(core, '.')) == Ok(v)
  {
    assert '.' !in a && '.' !in b && '.' !in c;
    SplitThree(a, b, c);
  }

  /** A tag is accepted as `v` exactly when it spells `v`: nothing malformed can
      pass for a version, newer or not. */
  lemma ParseVersionIsExact(s: string, v: Version)
    ensures ParseVersion(s) == Ok(v) <==> Spells(VersionCore(s), v)
  {
    var core := VersionCore(s);
    if ParseParts(SplitOn(core, '.')) == Ok(v) {
      ParsedPartsAreSpelled(core, v);
    }
    if Spells(core, v) {
      var a, b, c :| SpelledBy(core, v, a, b, c);
      SpelledIsParsed(core, v, a, b, c);
    }
  }

  function Show(v: Version): string {
    Decimal(v.major) + "." + Decimal(v.minor) + "." + Decimal(v.patch)
  }

  lemma DigitIsNotSpace(c: char)
    requires IsDigit(c)
    ensures !IsWhitespace(c) && c != 'v'
  {}

  lemma ShownCore(v: Version)
    ensures VersionCore(Show(v)) == Show(v) && VersionCore("v" + Show(v)) == Show(v)
  {
    var (a, b, c) := (Decimal(v.major), Decimal(v.minor), Decimal(v.patch));
    CoreOfTrimmed(a + "." + b + ".", c);
  }

  /** Text that starts and ends with a digit is its own core, with or without `v`. */
  lemma CoreOfTrimmed(front: string, back: string)
    requires front != [] && back != [] && IsDigit(front[0]) && IsDigit(back[|back| - 1])
    ensures VersionCore(front + back) == front + back && VersionCore("v" + (front + back)) == front + back
  {
    var t := front + back;
    DigitIsNotSpace(t[0]);
    DigitIsNotSpace(t[|t| - 1]);
    TrimIsTrimmed(t);
    var u := "v" + t;
    assert u[|u| - 1] == t[|t| - 1];
    TrimIsTrimmed(u);
    assert !("v" <= t);
    assert u[1..] == t;
  }

  lemma DecimalComponent(n: nat)
    requires n < U64_LIMIT
    ensures Component(Decimal(n)) == Some(n)
  {
    DecimalRoundTrip(n);
  }

  /** Every version has a tag, with or without the `v`, that reads back as it. */
  lemma ShownVersionReadsBack(v: Version)
    requires FitsU64(v)
    ensures ParseVersion(Show(v)) == Ok(v) && ParseVersion("v" + Show(v)) == Ok(v)
  {
    ShownCore(v);
    DecimalComponent(v.major);
    DecimalComponent(v.minor);
    DecimalComponent(v.patch);
    assert SpelledBy(Show(v), v, Decimal(v.major), Decimal(v.minor), Decimal(v.patch));
    ParseVersionIsExact(Show(v), v);
    ParseVersionIsExact("v" + Show(v), v);
  }

  lemma LessIsStrictTotalOrder(a: Version, b: Version, c: Version)
    ensures !Less(a, a)
    ensures Less(a, b) && Less(b, c) ==> Less(a, c)
    ensures a == b || Less(a, b) || Less(b, a)
  {}

  // ----- the manifest -----

  datatype DigestError = NotUtf8 | MalformedDigest | NotListed

  /** 64 lowercase hex digits. */
  predicate IsDigestText(s: string) {
    |s| == 64 && IsLower(s) && forall i :: 0 <= i < |s| ==> IsHexDigit(s[i])
  }

  function FirstWhitespace(s: string): (r: Option<nat>)
    ensures r.Some? ==> r.value < |s|
  {
    if s == [] then None
    else if IsWhitespace(s[0]) then Some(0)
    else match FirstWhitespace(s[1..]) case None => None case Some(i) => Some(i + 1)
  }

  function TrimStars(s: string): string {
    if s != [] && s[0] == '*' then TrimStars(s[1..]) else s
  }

  datatype Entry = Entry(hex: string, name: string)

  /** `<hex> <name>` or `<hex> *<name>`; a line without white space is skipped. */
  function ReadEntry(line: string): (r: Option<Entry>)
    ensures r.Some? ==> IsLower(r.value.hex)
  {
    var t := Trim(line);
    match FirstWhitespace(t)
    case None => None
    case Some(i) => Some(Entry(LowerAscii(Trim(t[..i])), TrimStars(Trim(t[i + 1..]))))
  }

  predicate LowerEntries(entries: seq<Option<Entry>>) {
    forall i :: 0 <= i < |entries| && entries[i].Some? ==> IsLower(entries[i].value.hex)
  }

  function Entries(lines: seq<string>): (r: seq<Option<Entry>>)
    ensures |r| == |lines| && LowerEntries(r)
  {
    seq(|lines|, i requires 0 <= i < |lines| => ReadEntry(lines[i]))
  }

  predicate Names(entry: Option<Entry>, asset: string) {
    entry.Some? && entry.value.name == asset
  }

  predicate IsHexOf64(hex: string) {
    ByteLen(hex) == 64 && forall i :: 0 <= i < |hex| ==> IsHexDigit(hex[i])
  }

  function Checked(hex: string): Result<string, DigestError> {
    if IsHexOf64(hex) then Ok(hex) else Err(MalformedDigest)
  }

  /** `expected_digest`: the loop over the lines of the manifest. */
  method ExpectedDigest(manifest: Option<string>, asset: string) returns (r: Result<string, DigestError>)
    ensures r == DigestFor(manifest, asset)
  {
    if manifest.None? {
      return Err(NotUtf8);
    }
    r := SearchEntries(Entries(Lines(manifest.value)), asset);
  }

  method SearchEntries(entries: seq<Option<Entry>>, asset: string) returns (r: Result<string, DigestError>)
    ensures r == Lookup(entries, asset)
  {
    var i := 0;
    while i < |entries|
      invariant 0 <= i <= |entries|
      invariant FirstEntry(entries, asset) == FirstEntry(entries[i..], asset)
    {
      assert entries[i..][1..] == entries[i + 1..];
      if entries[i].Some? && entries[i].value.name == asset {
        return Checked(entries[i].value.hex);
      }
      i := i + 1;
    }
    return Err(NotListed);
  }

  function FirstEntry(entries: seq<Option<Entry>>, asset: string): Option<string> {
    if entries == [] then None
    else if Names(entries[0], asset) then Some(entries[0].value.hex)
    else FirstEntry(entries[1..], asset)
  }

  function Lookup(entries: seq<Option<Entry>>, asset: string): Result<string, DigestError> {
    match FirstEntry(entries, asset)
    case None => Err(NotListed)
    case Some(hex) => Checked(hex)
  }

  function DigestFor(manifest: Option<string>, asset: string): (r: Result<string, DigestError>)
    ensures r.Ok? ==> IsDigestText(r.value)
  {
    if manifest.None? then Err(NotUtf8)
    else
      var entries := Entries(Lines(manifest.value));
      LookupIsTheFirst(entries, asset);
      Lookup(entries, asset)
  }

  /** Entry `i` is the first one that names the asset. */
  ghost predicate FirstNamed(entries: seq<Option<Entry>>, asset: string, i: nat) {
    i < |entries| && Names(entries[i], asset) && forall j :: 0 <= j < i ==> !Names(entries[j], asset)
  }

  lemma {:induction false} FirstEntryIsFirst(entries: seq<Option<Entry>>, asset: string) returns (i: nat)
    ensures FirstEntry(entries, asset).None? <==> forall j :: 0 <= j < |entries| ==> !Names(entries[j], asset)
    ensures FirstEntry(entries, asset).Some? ==> FirstNamed(entries, asset, i) && FirstEntry(entries, asset) == Some(entries[i].value.hex)
  {
    i := 0;
    if entries == [] {
    } else if Names(entries[0], asset) {
    } else {
      var rest := entries[1..];
      var k := FirstEntryIsFirst(rest, asset);
      assert forall j :: 0 < j < |entries| ==> entries[j] == rest[j - 1];
      assert forall j :: 0 <= j < |rest| ==> rest[j] == entries[j + 1];
      i := k + 1;
    }
  }

  lemma {:induction false} AsciiByteLen(s: string)
    requires forall i :: 0 <= i < |s| ==> s[i] as int < 0x80
    ensures ByteLen(s) == |s|
  {
    if s != [] {
      AsciiByteLen(s[1..]);
    }
  }

  lemma LookupIsTheFirst(entries: seq<Option<Entry>>, asset: string)
    requires LowerEntries(entries)
    ensures var r := Lookup(entries, asset);
            && (r.Ok? ==> IsDigestText(r.value) && exists i: nat :: FirstNamed(entries, asset, i) && r.value == entries[i].value.hex)
            && (r == Err(NotListed) <==> forall i :: 0 <= i < |entries| ==> !Names(entries[i], asset))
  {
    var i := FirstEntryIsFirst(entries, asset);
    if Lookup(entries, asset).Ok? {
      AsciiByteLen(entries[i].value.hex);
    }
  }

  /** What an accepted lookup returns: 64 lowercase hex digits, the digest of the
      first manifest line that names the asset, whatever later lines say. */
  lemma DigestIsTheFirstListed(manifest: string, asset: string)
    ensures var (r, entries) := (DigestFor(Some(manifest), asset), Entries(Lines(manifest)));
            && (r.Ok? ==> IsDigestText(r.value) && exists i: nat :: FirstNamed(entries, asset, i) && r.value == entries[i].value.hex)
            && (r == Err(NotListed) <==> forall i :: 0 <= i < |entries| ==> !Names(entries[i], asset))
  {
    LookupIsTheFirst(Entries(Lines(manifest)), asset);
  }

  // ----- the manifest as text -----

  lemma {:induction false} FirstBlankAfter(word: string, rest: string)
    requires NoBlanks(word) && rest != [] && IsWhitespace(rest[0])
    ensures FirstWhitespace(word + rest) == Some(|word|)
  {
    hide IsWhitespace;
    if word == [] {
      assert word + rest == rest;
    } else {
      assert (word + rest)[1..] == word[1..] + rest;
      FirstBlankAfter(word[1..], rest);
    }
  }

  predicate AllStars(s: string) {
    forall i :: 0 <= i < |s| ==> s[i] == '*'
  }

  lemma {:induction false} TrimStarsPads(stars: string, name: string)
    requires AllStars(stars) && (name == [] || name[0] != '*')
    ensures TrimStars(stars + name) == name
  {
    if stars == [] {
      assert stars + name == name;
    } else {
      assert (stars + name)[1..] == stars[1..] + name;
      TrimStarsPads(stars[1..], name);
    }
  }

  lemma {:induction false} TrimStarsCuts(s: string) returns (stars: string)
    ensures AllStars(stars) && s == stars + TrimStars(s)
  {
    if s != [] && s[0] == '*' {
      stars := TrimStarsCuts(s[1..]);
      stars := ['*'] + stars;
      assert s == [s[0]] + s[1..];
    } else {
      stars := "";
    }
  }

  /** A name a line can be looked up by: trimmed, and with no `*` before it. */
  predicate IsAssetName(name: string) {
    name != "" && IsTrimmed(name) && name[0] != '*'
  }

  /** White space, a word, white space, stars, the name, white space. */
  ghost predicate SpellsEntry(line: string, word: string, name: string, pre: string, mid: string, stars: string, post: string) {
    && line == pre + (word + mid + (stars + name)) + post
    && AllBlank(pre) && word != "" && NoBlanks(word) && mid != "" && AllBlank(mid) && AllStars(stars) && AllBlank(post)
  }

  /** The characters of a line say that it lists the asset with this word. */
  ghost predicate Lists(line: string, word: string, asset: string) {
    exists pre, mid, stars, post :: SpellsEntry(line, word, asset, pre, mid, stars, post)
  }

  lemma StarsAndNameAreTrimmed(stars: string, name: string)
    requires AllStars(stars) && IsAssetName(name)
    ensures IsTrimmed(stars + name) && stars + name != []
  {}

  lemma SpelledEntryIsRead(line: string, word: string, name: string, pre: string, mid: string, stars: string, post: string)
    requires SpellsEntry(line, word, name, pre, mid, stars, post) && IsAssetName(name)
    ensures ReadEntry(line) == Some(Entry(LowerAscii(word), name))
  {
    hide IsWhitespace, Trim, TrimStars, FirstWhitespace;
    var last := stars + name;
    var core := word + mid + last;
    StarsAndNameAreTrimmed(stars, name);
    assert core[0] == word[0] && core[|core| - 1] == last[|last| - 1];
    TrimPads(pre, core, post);
    assert core == word + (mid + last);
    assert (mid + last)[0] == mid[0];
    FirstBlankAfter(word, mid + last);
    assert core[..|word|] == word && core[|word| + 1..] == mid[1..] + last;
    TrimIsTrimmed(word);
    assert mid[1..] + last == mid[1..] + last + "";
    TrimPads(mid[1..], last, "");
    TrimStarsPads(stars, name);
  }

  lemma {:induction false} FirstWhitespaceIs(s: string)
    ensures FirstWhitespace(s).Some? ==> NoBlanks(s[..FirstWhitespace(s).value]) && IsWhitespace(s[FirstWhitespace(s).value])
  {
    hide IsWhitespace;
    if s != [] && !IsWhitespace(s[0]) && FirstWhitespace(s).Some? {
      FirstWhitespaceIs(s[1..]);
      var i := FirstWhitespace(s).value;
      assert s[..i] == [s[0]] + s[1..][..i - 1];
    }
  }

  lemma ReadEntryIsSpelled(line: string, name: string) returns (word: string)
    requires ReadEntry(line).Some? && ReadEntry(line).value.name == name && name != ""
    ensures Lists(line, word, name) && ReadEntry(line).value.hex == LowerAscii(word)
  {
    hide IsWhitespace, Trim, TrimStars, FirstWhitespace, LowerAscii, Lists;
    var t := Trim(line);
    FirstWhitespaceIs(t);
    var i := FirstWhitespace(t).value;
    word := t[..i];
    TrimIsTrimmed(line);
    TrimIsTrimmed(word);
    assert i > 0;
    PartsAreListed(line, i, name);
  }

  /** The parts a line is cut into, put together again. */
  lemma PartsAreListed(line: string, i: nat, name: string)
    requires 0 < i < |Trim(line)| && NoBlanks(Trim(line)[..i]) && IsWhitespace(Trim(line)[i])
    requires TrimStars(Trim(Trim(line)[i + 1..])) == name && name != ""
    ensures Lists(line, Trim(line)[..i], name)
  {
    hide IsWhitespace, Trim, TrimStars, NoBlanks;
    var t := Trim(line);
    var (word, rest) := (t[..i], t[i + 1..]);
    var pre, post := TrimCuts(line);
    var gap, tail := TrimCuts(rest);
    var stars := TrimStarsCuts(Trim(rest));
    TrimIsTrimmed(line);
    LastOfTail(gap + Trim(rest), tail);
    assert t[|t| - 1] == rest[|rest| - 1];
    assert tail == "";
    var mid := [t[i]] + gap;
    hide IsTrimmed;
    assert t == word + [t[i]] + rest;
    Regroup(word, t[i], gap, stars + name, rest);
    assert SpellsEntry(line, word, name, pre, mid, stars, post);
  }

  lemma LastOfTail(front: string, tail: string)
    requires AllBlank(tail)
    ensures tail != "" ==> IsWhitespace((front + tail)[|front + tail| - 1])
  {
    hide IsWhitespace;
    assert tail != "" ==> (front + tail)[|front + tail| - 1] == tail[|tail| - 1];
  }

  lemma Regroup(word: string, c: char, gap: string, last: string, rest: string)
    requires rest == gap + last + ""
    ensures word + [c] + rest == word + ([c] + gap) + last
  {}

  /** A line names the asset exactly when its characters list it with some word. */
  lemma NamesIffListed(line: string, asset: string)
    requires IsAssetName(asset)
    ensures Names(ReadEntry(line), asset) <==> exists word :: Lists(line, word, asset)
    ensures forall word :: Lists(line, word, asset) ==> Names(ReadEntry(line), asset) && ReadEntry(line).value.hex == LowerAscii(word)
  {
    hide ReadEntry, IsWhitespace, SpellsEntry;
    if Names(ReadEntry(line), asset) {
      var word := ReadEntryIsSpelled(line, asset);
    }
    forall word | Lists(line, word, asset) ensures Names(ReadEntry(line), asset) && ReadEntry(line).value.hex == LowerAscii(word) {
      var pre, mid, stars, post :| SpellsEntry(line, word, asset, pre, mid, stars, post);
      SpelledEntryIsRead(line, word, asset, pre, mid, stars, post);
    }
  }

  /** 64 hex digits, upper or lower case. */
  predicate IsDigestWord(word: string) {
    |word| == 64 && forall i :: 0 <= i < |word| ==> IsHexDigit(word[i])
  }

  /** The same digits, in lower case. */
  predicate IsLoweredTo(word: string, hex: string) {
    && |hex| == |word|
    && forall i :: 0 <= i < |word| ==> IsHexDigit(word[i]) && ('0' <= hex[i] <= '9' || 'a' <= hex[i] <= 'f') && HexValue(hex[i]) == HexValue(word[i])
  }

  lemma LoweredIs(word: string)
    ensures IsHexOf64(LowerAscii(word)) <==> IsDigestWord(word)
    ensures IsDigestWord(word) ==> IsLoweredTo(word, LowerAscii(word))
  {
    var hex := LowerAscii(word);
    assert forall i :: 0 <= i < |word| ==> (IsHexDigit(hex[i]) <==> IsHexDigit(word[i]));
    if forall i :: 0 <= i < |hex| ==> IsHexDigit(hex[i]) {
      AsciiByteLen(hex);
    }
  }

  lemma {:induction false} FirstEntryAfter(a: seq<Option<Entry>>, e: Option<Entry>, b: seq<Option<Entry>>, asset: string)
    requires forall i :: 0 <= i < |a| ==> !Names(a[i], asset)
    requires Names(e, asset)
    ensures FirstEntry(a + [e] + b, asset) == Some(e.value.hex)
  {
    if a != [] {
      assert (a + [e] + b)[1..] == a[1..] + [e] + b;
      FirstEntryAfter(a[1..], e, b, asset);
    }
  }

  lemma EntriesOfThree(a: seq<string>, line: string, b: seq<string>)
    ensures Entries(a + [line] + b) == Entries(a) + [ReadEntry(line)] + Entries(b)
  {
    hide ReadEntry;
  }

  /** The text of a manifest: the first line that lists the asset decides. 64 hex digits
      come back in lower case; any other word is a malformed digest. */
  lemma ManifestReadsBack(before: string, line: string, after: string, word: string, asset: string)
    requires before == "" || before[|before| - 1] == '\n'
    requires '\n' !in line && StripCr(line) == line && Lists(line, word, asset) && IsAssetName(asset)
    requires forall i, w :: 0 <= i < |Lines(before)| ==> !Lists(Lines(before)[i], w, asset)
    ensures var r := DigestFor(Some(before + line + "\n" + after), asset);
            if IsDigestWord(word) then r.Ok? && IsLoweredTo(word, r.value) else r == Err(MalformedDigest)
  {
    hide ReadEntry, Lists, Lines, IsHexOf64, IsLoweredTo;
    var text := before + line + "\n" + after;
    assert text == before + (line + "\n" + after);
    LinesOfParts(before, line + "\n" + after);
    LinesOfOneMore(line, after);
    var (a, b) := (Lines(before), Lines(after));
    assert Lines(text) == a + [line] + b;
    EntriesOfThree(a, line, b);
    forall i | 0 <= i < |a| ensures !Names(ReadEntry(a[i]), asset) {
      NamesIffListed(a[i], asset);
    }
    NamesIffListed(line, asset);
    FirstEntryAfter(Entries(a), ReadEntry(line), Entries(b), asset);
    LoweredIs(word);
  }

  /** The two spellings `sha256sum` writes: a text file's and a binary file's. */
  lemma PlainLinesList(word: string, asset: string)
    requires word != "" && NoBlanks(word) && IsAssetName(asset) && '\n' !in asset
    ensures var (line, starred) := (word + "  " + asset, word + " *" + asset);
            && Lists(line, word, asset) && '\n' !in line && StripCr(line) == line
            && Lists(starred, word, asset) && '\n' !in starred && StripCr(starred) == starred
  {
    var (line, starred) := (word + "  " + asset, word + " *" + asset);
    assert line == "" + (word + "  " + ("" + asset)) + "";
    assert SpellsEntry(line, word, asset, "", "  ", "", "");
    assert starred == "" + (word + " " + ("*" + asset)) + "";
    assert SpellsEntry(starred, word, asset, "", " ", "*", "");
    assert '\n' !in word;
  }

  // ----- digests -----

  function HexOf(digest: Bytes): string {
    if digest == [] then ""
    else HexOf(digest[..|digest| - 1]) + [HexDigitChar((digest[|digest| - 1] / 16) as nat), HexDigitChar((digest[|digest| - 1] % 16) as nat)]
  }

  /** The hex loop of `sha256_hex`. */
  method HexDigits(digest: Bytes) returns (out: string)
    ensures out == HexOf(digest)
  {
    out := "";
    var i := 0;
    while i < |digest|
      invariant 0 <= i <= |digest| && out == HexOf(digest[..i])
    {
      assert digest[..i + 1][..i] == digest[..i];
      out := out + [HexDigitChar((digest[i] / 16) as nat)];
      out := out + [HexDigitChar((digest[i] % 16) as nat)];
      assert out == HexOf(digest[..i]) + [HexDigitChar((digest[i] / 16) as nat), HexDigitChar((digest[i] % 16) as nat)];
      i := i + 1;
    }
    assert digest[..i] == digest;
  }

  predicate IsLowerHex(s: string) {
    forall i :: 0 <= i < |s| ==> IsHexDigit(s[i]) && AsciiLower(s[i]) == s[i]
  }

  lemma HexDigitIsLower(d: nat)
    requires d < 16
    ensures IsHexDigit(HexDigitChar(d)) && AsciiLower(HexDigitChar(d)) == HexDigitChar(d)
  {}

  lemma {:induction false} HexShape(a: Bytes)
    ensures |HexOf(a)| == 2 * |a| && IsLowerHex(HexOf(a))
  {
    if a != [] {
      hide IsHexDigit, AsciiLower, HexDigitChar;
      HexShape(a[..|a| - 1]);
      HexDigitIsLower((a[|a| - 1] / 16) as nat);
      HexDigitIsLower((a[|a| - 1] % 16) as nat);
    }
  }

  lemma LastNibbles(a: Bytes)
    requires a != []
    ensures |HexOf(a)| == 2 * |a|
    ensures HexOf(a)[..2 * |a| - 2] == HexOf(a[..|a| - 1])
    ensures HexOf(a)[2 * |a| - 2] == HexDigitChar((a[|a| - 1] / 16) as nat) && HexOf(a)[2 * |a| - 1] == HexDigitChar((a[|a| - 1] % 16) as nat)
  {
    hide IsLowerHex;
    HexShape(a[..|a| - 1]);
  }

  lemma NibblesTellBytes(x: byte, y: byte)
    requires HexDigitChar((x / 16) as nat) == HexDigitChar((y / 16) as nat)
    requires HexDigitChar((x % 16) as nat) == HexDigitChar((y % 16) as nat)
    ensures x == y
  {}

  /** Two characters a byte, lowercase, and no two digests share a text. */
  lemma {:induction false} HexIsFaithful(a: Bytes, b: Bytes)
    ensures |HexOf(a)| == 2 * |a| && IsLowerHex(HexOf(a))
    ensures HexOf(a) == HexOf(b) ==> a == b
    decreases |a|
  {
    hide IsLowerHex;
    HexShape(a);
    HexShape(b);
    if HexOf(a) == HexOf(b) && a != [] {
      hide HexOf, HexDigitChar;
      var (x, y) := (a[|a| - 1], b[|b| - 1]);
      LastNibbles(a);
      LastNibbles(b);
      NibblesTellBytes(x, y);
      HexIsFaithful(a[..|a| - 1], b[..|b| - 1]);
      assert a == a[..|a| - 1] + [x] && b == b[..|b| - 1] + [y];
    }
  }

  /** `constant_time_eq`: no early exit, every difference is folded into one byte. */
  method ConstantTimeEq(a: Bytes, b: Bytes) returns (same: bool)
    ensures same <==> a == b
  {
    if |a| != |b| {
      return false;
    }
    var diff: nat := 0;
    var i := 0;
    while i < |a|
      invariant 0 <= i <= |a|
      invariant diff == 0 <==> a[..i] == b[..i]
    {
      ByteBits.FoldedDifference(diff, a[i] as nat, b[i] as nat);
      assert a[..i + 1] == a[..i] + [a[i]] && b[..i + 1] == b[..i] + [b[i]];
      assert a[..i + 1][..i] == a[..i] && b[..i + 1][..i] == b[..i];
      assert a[..i + 1][i] == a[i] && b[..i + 1][i] == b[i];
      diff := ByteBits.Or(diff, ByteBits.Xor(a[i] as nat, b[i] as nat));
      i := i + 1;
    }
    assert a[..i] == a && b[..i] == b;
    same := diff == 0;
  }

  // ----- keys and signatures -----

  /** The primitives the gates rest on, uninterpreted. */
  datatype Scheme = Scheme(validKey: Bytes -> bool, verify: (Bytes, Bytes, Bytes) -> bool,
                           sha256: Bytes -> Bytes)

  const ZERO_KEY: Bytes := [0, 0, 0, 0, 0, 0, 0, 0, 0, 0, 0, 0, 0, 0, 0, 0,
                           0, 0, 0, 0, 0, 0, 0, 0, 0, 0, 0, 0, 0, 0, 0, 0]
  const SIGNATURE_LENGTH: nat := 64

  datatype GateError = InvalidEmbeddedKey | NoKeyConfigured | MalformedSignature | SignatureMismatch | ChecksumMismatch

  function ActiveKeys(slots: seq<Bytes>): seq<Bytes> {
    if slots == [] then []
    else ActiveKeys(slots[..|slots| - 1]) + (if slots[|slots| - 1] == ZERO_KEY then [] else [slots[|slots| - 1]])
  }

  lemma ActiveKeysAreTheNonZero(slots: seq<Bytes>)
    ensures forall k :: k in ActiveKeys(slots) <==> k in slots && k != ZERO_KEY
  {
    if slots != [] {
      ActiveKeysAreTheNonZero(slots[..|slots| - 1]);
      assert slots == slots[..|slots| - 1] + [slots[|slots| - 1]];
    }
  }

  /** `release_pubkeys`: empty slots are skipped, an invalid key or no key at all
      fails closed. */
  method ReleasePubkeys(scheme: Scheme, slots: seq<Bytes>) returns (r: Result<seq<Bytes>, GateError>)
    ensures r.Ok? <==> (exists k :: k in slots && k != ZERO_KEY) && (forall k :: k in slots && k != ZERO_KEY ==> scheme.validKey(k))
    ensures r.Ok? ==> r.value == ActiveKeys(slots)
    ensures r == Err(InvalidEmbeddedKey) <==> exists k :: k in slots && k != ZERO_KEY && !scheme.validKey(k)
  {
    ActiveKeysAreTheNonZero(slots);
    var keys: seq<Bytes> := [];
    var i := 0;
    while i < |slots|
      invariant 0 <= i <= |slots| && keys == ActiveKeys(slots[..i])
      invariant forall k :: k in slots[..i] && k != ZERO_KEY ==> scheme.validKey(k)
    {
      assert slots[..i + 1][..i] == slots[..i];
      if slots[i] != ZERO_KEY {
        if !scheme.validKey(slots[i]) {
          return Err(InvalidEmbeddedKey);
        }
        keys := keys + [slots[i]];
      }
      i := i + 1;
    }
    assert slots[..i] == slots;
    if keys == [] {
      return Err(NoKeyConfigured);
    }
    assert keys[0] in slots;
    r := Ok(keys);
  }

  /** What `verify_signature` accepts: some non-empty slot verifies the signature, and
      every non-empty slot holds a real key. */
  predicate IsSigned(scheme: Scheme, slots: seq<Bytes>, message: Bytes, signature: Bytes) {
    && |signature| == SIGNATURE_LENGTH
    && (forall k :: k in slots && k != ZERO_KEY ==> scheme.validKey(k))
    && (exists k :: k in slots && k != ZERO_KEY && scheme.verify(k, message, signature))
  }

  function VerifyWithKeys(scheme: Scheme, keys: seq<Bytes>, message: Bytes, signature: Bytes): Result<(), GateError> {
    if |signature| != SIGNATURE_LENGTH then Err(MalformedSignature)
    else if exists k :: k in keys && scheme.verify(k, message, signature) then Ok(())
    else Err(SignatureMismatch)
  }

  /** `verify_signature` */
  method VerifySignature(scheme: Scheme, slots: seq<Bytes>, message: Bytes, signature: Bytes) returns (r: Result<(), GateError>)
    ensures r.Ok? <==>
            && |signature| == SIGNATURE_LENGTH
            && (forall k :: k in slots && k != ZERO_KEY ==> scheme.validKey(k))
            && (exists k :: k in slots && k != ZERO_KEY && scheme.verify(k, message, signature))
    ensures r.Ok? <==> IsSigned(scheme, slots, message, signature)
  {
    var keys := ReleasePubkeys(scheme, slots);
    ActiveKeysAreTheNonZero(slots);
    match keys
    case Err(e) => r := Err(e);
    case Ok(ks) => r := VerifyWithKeys(scheme, ks, message, signature);
  }

  /** `verify_digest`: the hash of the data, in hex, compared byte by byte with the
      expected text whatever its case. */
  method VerifyDigest(scheme: Scheme, data: Bytes, expectedHex: string) returns (r: Result<(), GateError>)
    ensures r.Ok? <==> HexOf(scheme.sha256(data)) == LowerAscii(expectedHex)
  {
    var actual := HexDigits(scheme.sha256(data));
    var expected := LowerAscii(expectedHex);
    var same := ConstantTimeEq(Encode(actual), Encode(expected));
    if same {
      EncodeIsFaithful(actual, expected);
    }
    r := if same then Ok(()) else Err(ChecksumMismatch);
  }

  // ----- one update -----

  datatype UpdateError =
    | BadCurrentVersion | NoLatestRelease | BadTag
    | PackageCheckFailed | PackageManaged | UnsupportedPlatform
    | FetchFailed(name: string) | Gate(gate: GateError) | Manifest(why: DigestError) | InstallFailed

  datatype UpdateOutcome =
    | UpToDate
    | Available
    | Installed(bytes: Bytes, version: string)
    | Failed(error: UpdateError)

  const MANIFEST := "SHA256SUMS"
  const SIGNATURE := "SHA256SUMS.sig"

  /** Where releases come from: whoever serves it chooses every answer. */
  class ReleaseSource {
    const latest: Option<string>
    const assets: map<string, Bytes>
    var fetched: seq<string>

    method Fetch(name: string) returns (r: Option<Bytes>)
      modifies this`fetched
      ensures fetched == old(fetched) + [name]
      ensures r == if name in assets then Some(assets[name]) else None
    {
      fetched := fetched + [name];
      r := if name in assets then Some(assets[name]) else None;
    }
  }

  datatype Host = Host(current: string, checkOnly: bool, force: bool, managedBy: Result<Option<string>, ()>,
                       asset: Option<string>, scheme: Scheme, check: (Bytes, Bytes) -> Result<(), GateError>,
                       install: (Bytes, string, bool) -> bool)

  function TrimVs(s: string): string {
    if s != [] && s[0] == 'v' then TrimVs(s[1..]) else s
  }

  /** The tag is a newer version than the running one, or any version under `--force`. */
  predicate Wanted(h: Host, latest: Option<string>) {
    && ParseVersion(h.current).Ok?
    && latest.Some? && ParseVersion(latest.value).Ok?
    && (Less(ParseVersion(h.current).value, ParseVersion(latest.value).value) || h.force)
  }

  /** What lets an update reach for release files at all. */
  predicate MayFetch(h: Host, latest: Option<string>) {
    Wanted(h, latest) && !h.checkOnly && h.managedBy == Ok(None) && h.asset.Some?
  }

  /** The signed manifest is there and passes the signature check. */
  predicate ManifestIsGenuine(h: Host, assets: map<string, Bytes>) {
    MANIFEST in assets && SIGNATURE in assets && h.check(assets[MANIFEST], assets[SIGNATURE]).Ok?
  }

  function ListedDigest(h: Host, assets: map<string, Bytes>): Result<string, DigestError>
    requires MANIFEST in assets && h.asset.Some?
  {
    DigestFor(Decode(assets[MANIFEST]), h.asset.value)
  }

  /** The binary is there and hashes to the digest the manifest lists first. */
  predicate BinaryMatches(h: Host, assets: map<string, Bytes>)
    requires h.asset.Some?
  {
    && MANIFEST in assets && ListedDigest(h, assets).Ok?
    && h.asset.value in assets
    && HexOf(h.scheme.sha256(assets[h.asset.value])) == ListedDigest(h, assets).value
  }

  /** Every gate of an update passes, the installer's own included. */
  predicate Installs(h: Host, latest: Option<string>, assets: map<string, Bytes>) {
    && MayFetch(h, latest) && ManifestIsGenuine(h, assets) && BinaryMatches(h, assets)
    && h.install(assets[h.asset.value], TrimVs(latest.value), h.force)
  }

  /** `run_with_verifier`: an install happens exactly when every gate passes, of
      exactly the verified bytes; the files requested are always a prefix of
      manifest, signature, binary, and the binary is requested only for a
      genuine manifest that lists it. */
  method RunWithVerifier(source: ReleaseSource, h: Host) returns (r: UpdateOutcome)
    requires source.fetched == []
    modifies source`fetched
    ensures r.Installed? <==> Installs(h, source.latest, source.assets)
    ensures r.Installed? ==>
            && r.bytes == source.assets[h.asset.value] && r.version == TrimVs(source.latest.value)
            && IsDigestText(HexOf(h.scheme.sha256(r.bytes)))
    ensures source.fetched != [] ==> MayFetch(h, source.latest)
    ensures source.fetched == [] || source.fetched == [MANIFEST] || source.fetched == [MANIFEST, SIGNATURE]
            || (source.fetched == [MANIFEST, SIGNATURE, h.asset.value]
                && ManifestIsGenuine(h, source.assets) && ListedDigest(h, source.assets).Ok?)
    ensures r == UpToDate <==>
            && ParseVersion(h.current).Ok? && source.latest.Some? && ParseVersion(source.latest.value).Ok?
            && !Less(ParseVersion(h.current).value, ParseVersion(source.latest.value).value) && !h.force
    ensures r == Available <==> Wanted(h, source.latest) && h.checkOnly
    ensures h.checkOnly || h.managedBy != Ok(None) || h.asset.None? ==> source.fetched == [] && !r.Installed?
    ensures r == Failed(BadCurrentVersion) <==> ParseVersion(h.current).Err?
    ensures r == Failed(NoLatestRelease) <==> ParseVersion(h.current).Ok? && source.latest.None?
    ensures r == Failed(BadTag) <==> ParseVersion(h.current).Ok? && source.latest.Some? && ParseVersion(source.latest.value).Err?
    ensures r == Failed(PackageCheckFailed) <==> Wanted(h, source.latest) && !h.checkOnly && h.managedBy.Err?
    ensures r == Failed(PackageManaged) <==> Wanted(h, source.latest) && !h.checkOnly && h.managedBy.Ok? && h.managedBy.value.Some?
    ensures r == Failed(UnsupportedPlatform) <==> Wanted(h, source.latest) && !h.checkOnly && h.managedBy == Ok(None) && h.asset.None?
  {
    hide ParseVersion, Less, TrimVs, ManifestIsGenuine, BinaryMatches, ListedDigest, IsDigestText;
    var current := ParseVersion(h.current);
    if current.Err? {
      return Failed(BadCurrentVersion);
    }
    if source.latest.None? {
      return Failed(NoLatestRelease);
    }
    var tag := source.latest.value;
    var latest := ParseVersion(tag);
    if latest.Err? {
      return Failed(BadTag);
    }
    if !Less(current.value, latest.value) && !h.force {
      return UpToDate;
    }
    if h.checkOnly {
      return Available;
    }
    if h.managedBy.Err? {
      return Failed(PackageCheckFailed);
    }
    if h.managedBy.value.Some? {
      return Failed(PackageManaged);
    }
    if h.asset.None? {
      return Failed(UnsupportedPlatform);
    }
    r := FetchAndInstall(source, h, tag);
  }

  predicate ComesFromFetching(e: UpdateError) {
    e.FetchFailed? || e.Gate? || e.Manifest? || e.InstallFailed?
  }

  method FetchAndInstall(source: ReleaseSource, h: Host, tag: string) returns (r: UpdateOutcome)
    requires source.fetched == [] && h.asset.Some?
    modifies source`fetched
    ensures r.Installed? <==>
            ManifestIsGenuine(h, source.assets) && BinaryMatches(h, source.assets) && h.install(source.assets[h.asset.value], TrimVs(tag), h.force)
    ensures r.Installed? ==>
            && r.bytes == source.assets[h.asset.value] && r.version == TrimVs(tag)
            && IsDigestText(HexOf(h.scheme.sha256(r.bytes)))
    ensures source.fetched == [MANIFEST] || source.fetched == [MANIFEST, SIGNATURE]
            || (source.fetched == [MANIFEST, SIGNATURE, h.asset.value]
                && ManifestIsGenuine(h, source.assets) && ListedDigest(h, source.assets).Ok?)
    ensures r.Installed? || (r.Failed? && ComesFromFetching(r.error))
  {
    var manifest := source.Fetch(MANIFEST);
    if manifest.None? {
      return Failed(FetchFailed(MANIFEST));
    }
    var signature := source.Fetch(SIGNATURE);
    if signature.None? {
      return Failed(FetchFailed(SIGNATURE));
    }
    var checked := h.check(manifest.value, signature.value);
    if checked.Err? {
      return Failed(Gate(checked.error));
    }
    r := FetchBinary(source, h, tag, manifest.value);
  }

  method FetchBinary(source: ReleaseSource, h: Host, tag: string, manifest: Bytes) returns (r: UpdateOutcome)
    requires h.asset.Some? && MANIFEST in source.assets && source.assets[MANIFEST] == manifest
    modifies source`fetched
    ensures r.Installed? <==> BinaryMatches(h, source.assets) && h.install(source.assets[h.asset.value], TrimVs(tag), h.force)
    ensures r.Installed? ==> r.bytes == source.assets[h.asset.value] && r.version == TrimVs(tag) && IsDigestText(HexOf(h.scheme.sha256(r.bytes)))
    ensures source.fetched == if ListedDigest(h, source.assets).Ok? then old(source.fetched) + [h.asset.value] else old(source.fetched)
    ensures r.Installed? || (r.Failed? && ComesFromFetching(r.error))
  {
    var expected := ExpectedDigest(Decode(manifest), h.asset.value);
    if expected.Err? {
      return Failed(Manifest(expected.error));
    }
    var binary := source.Fetch(h.asset.value);
    if binary.None? {
      return Failed(FetchFailed(h.asset.value));
    }
    var digest := VerifyDigest(h.scheme, binary.value, expected.value);
    if digest.Err? {
      return Failed(Gate(digest.error));
    }
    if !h.install(binary.value, TrimVs(tag), h.force) {
      return Failed(InstallFailed);
    }
    r := Installed(binary.value, TrimVs(tag));
  }

  // ----- what the installer asks the two binaries -----

  /** What a binary writes for `--version`; `None` when it cannot be run, fails, or does
      not answer in time. */
  type Answer = Option<string>

  /** `read_until(b'\n')` */
  function FirstLine(output: string): string {
    match IndexOf(output, '\n') case None => output case Some(i) => output[..i + 1]
  }

  /** `split_whitespace` */
  function Words(s: string): (r: seq<string>)
    decreases |s|
  {
    if s == [] then []
    else if IsWhitespace(s[0]) then Words(s[1..])
    else
      match FirstWhitespace(s)
      case None => [s]
      case Some(i) => if i == 0 then [] else [s[..i]] + Words(s[i..])
  }

  /** What the updater has to go by. */
  function Heard(answer: Answer): seq<string> {
    if answer.None? then [] else Words(FirstLine(answer.value))
  }

  /** `installed_version`: the first word that reads as a version. */
  function InstalledVersion(answer: Answer): Option<Version> {
    FirstVersion(Heard(answer))
  }

  function FirstVersion(words: seq<string>): Option<Version> {
    if words == [] then None
    else match ParseVersion(words[0]) case Ok(v) => Some(v) case Err(_) => FirstVersion(words[1..])
  }

  /** `ensure_not_older`: only an installed binary that answers is compared. */
  predicate NotOlder(installed: Option<Version>, incoming: string) {
    installed.Some? && ParseVersion(incoming).Ok? ==> !Less(ParseVersion(incoming).value, installed.value)
  }

  /** `self_test`: some word is the expected version, with or without `v`s. */
  predicate PassesSelfTest(answer: Answer, expected: string) {
    exists i :: 0 <= i < |Heard(answer)| && (Heard(answer)[i] == expected || TrimVs(Heard(answer)[i]) == expected)
  }

  /** `install_binary`, asking the installed file before the swap and the new one
      after it. */
  predicate InstallSucceeds(installed: Answer, incoming: string, allowOlder: bool, swapped: Answer) {
    (allowOlder || NotOlder(InstalledVersion(installed), incoming)) && PassesSelfTest(swapped, incoming)
  }

  /** What clap renders for `--version`. */
  function VersionLine(v: Version): string {
    "podup version v" + Show(v) + "\n"
  }

  /** What a podup binary writes: `parse_cli` frames the line in blank ones. A release
      that does not is `!framed`. */
  function Prints(v: Version, framed: bool): string {
    if framed then "\n" + VersionLine(v) + "\n" else VersionLine(v)
  }

  /** Only the first line is read, so output that begins with a line feed is no answer,
      whatever follows it. */
  lemma BlankFirstLineIsNoAnswer(output: string, expected: string)
    requires output != [] && output[0] == '\n'
    ensures InstalledVersion(Some(output)) == None && !PassesSelfTest(Some(output), expected)
  {
    LineFeedIsBlank();
    assert FirstLine(output) == "\n";
    assert Heard(Some(output)) == [];
  }

  lemma LineFeedIsBlank()
    ensures Words("\n") == []
  {
    assert IsWhitespace('\n');
    assert "\n"[1..] == "";
  }

  lemma WordThenBlank(word: string, blank: char, rest: string)
    requires word != [] && NoBlanks(word) && IsWhitespace(blank)
    ensures Words(word + [blank] + rest) == [word] + Words(rest)
  {
    hide IsWhitespace;
    var s := word + [blank] + rest;
    assert s == word + ([blank] + rest);
    FirstBlankAfter(word, [blank] + rest);
    assert s[..|word|] == word && s[|word|..] == [blank] + rest;
    assert ([blank] + rest)[1..] == rest;
    assert s[0] == word[0];
  }

  lemma ShownHasNoBlanks(s: string)
    requires forall c :: c in s ==> IsDigit(c) || c == '.' || c == 'v'
    ensures NoBlanks(s) && '\n' !in s
  {
    forall i | 0 <= i < |s| ensures !IsWhitespace(s[i]) {
      assert s[i] in s;
    }
  }

  lemma ShownLetters(v: Version)
    ensures forall c :: c in "v" + Show(v) ==> IsDigit(c) || c == '.' || c == 'v'
  {}

  lemma NameHasNoBlanks()
    ensures NoBlanks("podup") && NoBlanks("version") && IsWhitespace(' ') && IsWhitespace('\n')
  {}

  lemma NoLineFeedBefore(a: string, c: char)
    requires c !in a
    ensures IndexOf(a + [c], c) == Some(|a|)
  {
    IndexOfFirst(a, c, "");
    assert a + [c] + "" == a + [c];
  }

  lemma VersionLineIsOneLine(v: Version)
    ensures FirstLine(VersionLine(v)) == VersionLine(v)
  {
    ShownLetters(v);
    hide Show;
    ShownHasNoBlanks("v" + Show(v));
    var front := "podup version v" + Show(v);
    assert forall c :: c in Show(v) ==> c in "v" + Show(v);
    assert '\n' !in "podup version v" && VersionLine(v) == front + ['\n'];
    NoLineFeedBefore(front, '\n');
  }

  /** The three words of a version line. */
  lemma WordsOfVersionLine(v: Version)
    ensures Words(VersionLine(v)) == ["podup", "version", "v" + Show(v)]
  {
    ShownLetters(v);
    hide Show, IsWhitespace, Words, NoBlanks;
    NameHasNoBlanks();
    var shown := "v" + Show(v);
    ShownHasNoBlanks(shown);
    var last := shown + ['\n'] + "";
    var middle := "version" + [' '] + last;
    assert VersionLine(v) == "podup" + [' '] + middle;
    WordThenBlank("podup", ' ', middle);
    WordThenBlank("version", ' ', last);
    WordThenBlank(shown, '\n', "");
    NoWords();
  }

  lemma NoWords()
    ensures Words("") == []
  {}

  lemma HeardUnframed(v: Version)
    ensures Heard(Some(Prints(v, false))) == ["podup", "version", "v" + Show(v)]
  {
    hide Words, FirstLine, VersionLine, Show;
    VersionLineIsOneLine(v);
    WordsOfVersionLine(v);
  }

  lemma TrimVsOfShown(v: Version)
    ensures TrimVs(Show(v)) == Show(v) && TrimVs("v" + Show(v)) == Show(v)
    ensures Show(v) !in {"podup", "version", "ersion"}
  {
    var s := Show(v);
    assert Decimal(v.major)[0] in Decimal(v.major);
    assert s[0] == Decimal(v.major)[0];
    assert ("v" + s)[1..] == s;
  }

  lemma ShowIsFaithful(v: Version, w: Version)
    requires FitsU64(v) && FitsU64(w)
    ensures Show(v) == Show(w) ==> v == w
  {
    hide ParseVersion, Show;
    ShownVersionReadsBack(v);
    ShownVersionReadsBack(w);
  }

  /** The version of a binary that answers is read from its output exactly when the
      output is not framed. */
  lemma PrintedIsRead(v: Version, framed: bool)
    requires FitsU64(v)
    ensures InstalledVersion(Some(Prints(v, framed))) == if framed then None else Some(v)
  {
    hide ParseVersion, Show, Heard, VersionLine;
    if framed {
      assert Prints(v, true)[0] == '\n';
      BlankFirstLineIsNoAnswer(Prints(v, true), "");
    } else {
      HeardUnframed(v);
      ShownVersionReadsBack(v);
      NameIsNoVersion();
      var words := ["podup", "version", "v" + Show(v)];
      assert words[1..] == ["version", "v" + Show(v)] && words[1..][1..] == ["v" + Show(v)];
      assert FirstVersion(words[1..][1..]) == Some(v);
      assert FirstVersion(words[1..]) == Some(v);
    }
  }

  /** A word that starts with a letter, after one `v` at most, is no version. */
  lemma WordIsNoVersion(word: string, core: string)
    requires NoBlanks(word) && core != [] && '.' !in core && !IsDigit(core[0])
    requires word == "v" + core || (word == core && word[0] != 'v')
    ensures ParseVersion(word).Err?
  {
    hide IsWhitespace;
    assert IsTrimmed(word);
    TrimIsTrimmed(word);
    assert ("v" + core)[1..] == core;
    assert VersionCore(word) == core;
    NoSeparatorNoSplit(core, '.');
  }

  lemma NameIsNoVersion()
    ensures ParseVersion("podup").Err? && ParseVersion("version").Err?
  {
    NameHasNoBlanks();
    hide NoBlanks, ParseVersion;
    assert "version" == "v" + "ersion" && "podup"[0] == 'p' && "ersion"[0] == 'e';
    WordIsNoVersion("podup", "podup");
    WordIsNoVersion("version", "ersion");
  }

  /** A binary that answers passes its self-test for a version exactly when its output is
      not framed and that is the version it prints. */
  lemma SelfTestTellsVersions(v: Version, framed: bool, w: Version)
    requires FitsU64(v) && FitsU64(w)
    ensures PassesSelfTest(Some(Prints(v, framed)), Show(w)) <==> !framed && v == w
  {
    hide Show, ParseVersion, Heard, VersionLine;
    if framed {
      assert Prints(v, true)[0] == '\n';
      BlankFirstLineIsNoAnswer(Prints(v, true), Show(w));
    } else {
      HeardUnframed(v);
      TrimVsOfShown(v);
      TrimVsOfShown(w);
      ShowIsFaithful(v, w);
      TrimVsOfName();
      var words := Heard(Some(Prints(v, false)));
      assert words[0] == "podup" && words[1] == "version" && words[2] == "v" + Show(v);
      assert TrimVs(words[2]) == Show(v);
      StartsWithV(v, w);
    }
  }

  lemma TrimVsOfName()
    ensures TrimVs("podup") == "podup" && TrimVs("version") == "ersion"
  {
    assert "version"[1..] == "ersion";
  }

  lemma StartsWithV(v: Version, w: Version)
    ensures "v" + Show(v) != Show(w)
  {
    assert Decimal(w.major)[0] in Decimal(w.major);
    assert Show(w)[0] == Decimal(w.major)[0];
    assert ("v" + Show(v))[0] == 'v';
  }

  /** Composition of the gates: what an install of the verified bytes rests on.
      The digest that matched is the first one the manifest lists for the asset. */
  lemma InstalledBytesAreTheFirstListed(h: Host, assets: map<string, Bytes>)
    requires h.asset.Some? && BinaryMatches(h, assets)
    ensures Decode(assets[MANIFEST]).Some?
    ensures var entries := Entries(Lines(Decode(assets[MANIFEST]).value));
            exists i: nat :: FirstNamed(entries, h.asset.value, i)
                             && entries[i].value.hex == HexOf(h.scheme.sha256(assets[h.asset.value]))
    ensures IsAssetName(h.asset.value) ==>
              exists i: nat, word ::
                var lines := Lines(Decode(assets[MANIFEST]).value);
                && i < |lines| && Lists(lines[i], word, h.asset.value)
                && LowerAscii(word) == HexOf(h.scheme.sha256(assets[h.asset.value]))
                && forall j, w :: 0 <= j < i ==> !Lists(lines[j], w, h.asset.value)
  {
    hide Lists, ReadEntry, HexOf, Lines, Decode;
    var asset := h.asset.value;
    var lines := Lines(Decode(assets[MANIFEST]).value);
    DigestIsTheFirstListed(Decode(assets[MANIFEST]).value, asset);
    var entries := Entries(lines);
    var i: nat :| FirstNamed(entries, asset, i) && entries[i].value.hex == HexOf(h.scheme.sha256(assets[asset]));
    if IsAssetName(asset) {
      var word := ReadEntryIsSpelled(lines[i], asset);
      forall j, w | 0 <= j < i ensures !Lists(lines[j], w, asset) {
        assert !Names(entries[j], asset) && entries[j] == ReadEntry(lines[j]);
        NamesIffListed(lines[j], asset);
      }
      assert Lists(lines[i], word, asset);
    }
  }

  /** A genuine release goes in: its manifest is signed, its first line for the asset is
      the hash of the binary as `sha256_hex` prints it, and the installer accepts it. */
  lemma GenuineReleaseInstalls(h: Host, latest: Option<string>, assets: map<string, Bytes>, before: string, after: string)
    requires MayFetch(h, latest) && IsAssetName(h.asset.value) && '\n' !in h.asset.value
    requires h.asset.value in assets && |h.scheme.sha256(assets[h.asset.value])| == 32
    requires before == "" || before[|before| - 1] == '\n'
    ensures && ManifestIsGenuine(h, assets)
            && assets[MANIFEST] == Encode(before + (HexOf(h.scheme.sha256(assets[h.asset.value])) + "  " + h.asset.value) + "\n" + after)
            && (forall i, w :: 0 <= i < |Lines(before)| ==> !Lists(Lines(before)[i], w, h.asset.value))
            ==> (Installs(h, latest, assets) <==> h.install(assets[h.asset.value], TrimVs(latest.value), h.force))
  {
    hide Wanted, Lists, Lines, HexOf, TrimVs, Encode, Decode, DigestFor, IsLoweredTo, NoBlanks, IsAssetName;
    var (asset, hash) := (h.asset.value, h.scheme.sha256(assets[h.asset.value]));
    var line := HexOf(hash) + "  " + asset;
    var text := before + line + "\n" + after;
    if ManifestIsGenuine(h, assets) && assets[MANIFEST] == Encode(text) && forall i, w :: 0 <= i < |Lines(before)| ==> !Lists(Lines(before)[i], w, asset) {
      HexIsAWord(hash);
      PlainLinesList(HexOf(hash), asset);
      ManifestReadsBack(before, line, after, HexOf(hash), asset);
      DecodeIsInverse(text);
      var digest := DigestFor(Some(text), asset);
      HexIsItsOwnLower(hash, digest.value);
      assert Decode(assets[MANIFEST]) == Some(text);
      assert ListedDigest(h, assets) == digest;
      assert BinaryMatches(h, assets);
    }
  }

  lemma HexIsAWord(hash: Bytes)
    requires |hash| == 32
    ensures HexOf(hash) != "" && NoBlanks(HexOf(hash)) && IsDigestWord(HexOf(hash))
  {
    HexShape(hash);
    assert |HexOf(hash)| == 64;
  }

  lemma HexIsItsOwnLower(hash: Bytes, hex: string)
    requires IsLoweredTo(HexOf(hash), hex)
    ensures hex == HexOf(hash)
  {
    HexShape(hash);
    var w := HexOf(hash);
    assert forall i :: 0 <= i < |w| ==> AsciiLower(w[i]) == w[i] && hex[i] == w[i];
  }

  /** Two payloads accepted under one manifest have the same SHA-256. */
  lemma OneManifestOneDigest(h: Host, assets: map<string, Bytes>, other: map<string, Bytes>)
    requires h.asset.Some? && BinaryMatches(h, assets) && BinaryMatches(h, other)
    requires assets[MANIFEST] == other[MANIFEST]
    ensures h.scheme.sha256(assets[h.asset.value]) == h.scheme.sha256(other[h.asset.value])
  {
    HexIsFaithful(h.scheme.sha256(assets[h.asset.value]), h.scheme.sha256(other[h.asset.value]));
  }
}
