/** What every component shares: option and result types, the text primitives of
    Rust's `str` that the modelled code leans on (splitting, lines, trimming, ASCII
    case), decimal and hexadecimal digits, and UTF-8 lengths. White space and control
    characters are Unicode's; letters are left to the components that need them. */
module Prelude {

  datatype Option<+T> = None | Some(value: T)

  datatype Result<+T, +E> = Ok(value: T) | Err(error: E)

  // ----- characters -----

  /** `char::is_control`: the general category Cc. */
  predicate IsControl(c: char) {
    c as int < 0x20 || 0x7f <= c as int <= 0x9f
  }

  /** `char::is_whitespace`: the Unicode property White_Space. */
  predicate IsWhitespace(c: char) {
    var n := c as int;
    || 0x09 <= n <= 0x0d || n == 0x20 || n == 0x85 || n == 0xa0 || n == 0x1680
    || 0x2000 <= n <= 0x200a || n == 0x2028 || n == 0x2029 || n == 0x202f
    || n == 0x205f || n == 0x3000
  }

  predicate IsDigit(c: char) {
    '0' <= c <= '9'
  }

  predicate IsHexDigit(c: char) {
    '0' <= c <= '9' || 'a' <= c <= 'f' || 'A' <= c <= 'F'
  }

  function HexValue(c: char): (d: nat)
    requires IsHexDigit(c)
    ensures d < 16
  {
    if c <= '9' then c as int - '0' as int else if c <= 'F' then c as int - 'A' as int + 10 else c as int - 'a' as int + 10
  }

  /** The hex digit that prints `d` under `{:x}`. */
  function HexDigitChar(d: nat): (c: char)
    requires d < 16
    ensures '0' <= c <= '9' || 'a' <= c <= 'f'
    ensures HexValue(c) == d
  {
    "0123456789abcdef"[d]
  }

  /** The bytes `c` takes in UTF-8, which is what `str::len` counts. */
  function Utf8Width(c: char): (n: nat)
    ensures 1 <= n <= 4
  {
    if c as int < 0x80 then 1
    else if c as int < 0x800 then 2
    else if c as int < 0x10000 then 3
    else 4
  }

  /** `str::len`. */
  function ByteLen(s: string): nat {
    if s == [] then 0 else Utf8Width(s[0]) + ByteLen(s[1..])
  }

  lemma ByteLenConcat(a: string, b: string)
    ensures ByteLen(a + b) == ByteLen(a) + ByteLen(b)
  {
    if a == [] {
      assert a + b == b;
    } else {
      assert (a + b)[1..] == a[1..] + b;
      ByteLenConcat(a[1..], b);
    }
  }

  // ----- sequences of text -----

  function Join(parts: seq<string>, separator: string): string {
    if parts == [] then ""
    else if |parts| == 1 then parts[0]
    else parts[0] + separator + Join(parts[1..], separator)
  }

  function Concat<T>(parts: seq<seq<T>>): seq<T> {
    if parts == [] then [] else parts[0] + Concat(parts[1..])
  }

  lemma ConcatSplit<T>(a: seq<seq<T>>, b: seq<seq<T>>)
    ensures Concat(a + b) == Concat(a) + Concat(b)
  {
    if a == [] {
      assert a + b == b;
    } else {
      assert (a + b)[1..] == a[1..] + b;
      ConcatSplit(a[1..], b);
    }
  }

  /** A number in decimal, as `{}` prints it. */
  function Decimal(n: nat): (s: string)
    ensures |s| >= 1
    ensures forall c :: c in s ==> IsDigit(c)
  {
    if n < 10 then [DigitChar(n)] else Decimal(n / 10) + [DigitChar(n % 10)]
  }

  function DigitChar(d: nat): (c: char)
    requires d < 10
    ensures IsDigit(c)
  {
    "0123456789"[d]
  }

  // ----- searching and cutting text -----

  /** `str::find` of one character. */
  function IndexOf(s: string, c: char): (r: Option<nat>)
    ensures r.Some? ==> r.value < |s| && s[r.value] == c && c !in s[..r.value]
    ensures r.None? ==> c !in s
  {
    if s == [] then None
    else if s[0] == c then Some(0)
    else
      match IndexOf(s[1..], c)
      case None => None
      case Some(i) =>
        assert s[..i + 1] == [s[0]] + s[1..][..i];
        Some(i + 1)
  }

  lemma IndexOfFirst(a: string, c: char, b: string)
    requires c !in a
    ensures IndexOf(a + [c] + b, c) == Some(|a|)
  {
    if a != [] {
      assert (a + [c] + b)[1..] == a[1..] + [c] + b;
      IndexOfFirst(a[1..], c, b);
    }
  }

  /** `str::split` on one character: the pieces between its occurrences. */
  function SplitOn(s: string, c: char): (r: seq<string>)
    ensures |r| >= 1
    decreases |s|
  {
    match IndexOf(s, c)
    case None => [s]
    case Some(i) => [s[..i]] + SplitOn(s[i + 1..], c)
  }

  lemma SplitOnJoin(a: string, c: char, b: string)
    requires c !in a
    ensures SplitOn(a + [c] + b, c) == [a] + SplitOn(b, c)
  {
    IndexOfFirst(a, c, b);
    var s := a + [c] + b;
    assert s[..|a|] == a && s[|a| + 1..] == b;
  }

  /** The pieces of a split carry no separator and join back to the text. */
  lemma SplitOnIsCut(s: string, c: char)
    ensures Join(SplitOn(s, c), [c]) == s
    ensures forall p :: p in SplitOn(s, c) ==> c !in p
    decreases |s|
  {
    match IndexOf(s, c)
    case None =>
    case Some(i) =>
      var rest := SplitOn(s[i + 1..], c);
      SplitOnIsCut(s[i + 1..], c);
      var parts := [s[..i]] + rest;
      assert parts[1..] == rest;
      assert s == s[..i] + [c] + s[i + 1..];
  }

  lemma NoSeparatorNoSplit(s: string, c: char)
    requires c !in s
    ensures SplitOn(s, c) == [s]
  {
    assert IndexOf(s, c).None?;
  }

  /** Splitting what was joined. */
  lemma {:induction false} SplitJoined(parts: seq<string>, c: char)
    requires parts != [] && forall i :: 0 <= i < |parts| ==> c !in parts[i]
    ensures SplitOn(Join(parts, [c]), c) == parts
  {
    hide SplitOn;
    if |parts| == 1 {
      NoSeparatorNoSplit(parts[0], c);
    } else {
      SplitJoined(parts[1..], c);
      SplitOnJoin(parts[0], c, Join(parts[1..], [c]));
    }
  }

  /** `str::lines`: a line ends at LF or CRLF, and the last one need not end. */
  function Lines(s: string): (r: seq<string>)
    decreases |s|
  {
    if s == [] then []
    else
      match IndexOf(s, '\n')
      case None => [s]
      case Some(i) => [StripCr(s[..i])] + Lines(s[i + 1..])
  }

  function StripCr(s: string): string {
    if s != [] && s[|s| - 1] == '\r' then s[..|s| - 1] else s
  }

  ghost predicate OnOneLine(lines: seq<string>) {
    forall i :: 0 <= i < |lines| ==> '\n' !in lines[i]
  }

  lemma {:induction false} LinesAreSingle(s: string)
    ensures OnOneLine(Lines(s))
    decreases |s|
  {
    if s != [] {
      match IndexOf(s, '\n')
      case None =>
      case Some(i) =>
        LinesAreSingle(s[i + 1..]);
        assert StripCr(s[..i]) <= s[..i];
    }
  }

  lemma LinesOfOneMore(line: string, more: string)
    requires '\n' !in line
    ensures Lines(line + "\n" + more) == [StripCr(line)] + Lines(more)
  {
    hide IndexOf, StripCr;
    IndexOfFirst(line, '\n', more);
    var text := line + ['\n'] + more;
    assert text == line + "\n" + more;
    assert text[..|line|] == line && text[|line| + 1..] == more;
  }

  lemma FirstLineOf(s: string) returns (line: string, rest: string)
    requires s != [] && s[|s| - 1] == '\n'
    ensures s == line + "\n" + rest && '\n' !in line && (rest == [] || rest[|rest| - 1] == '\n')
  {
    assert s[|s| - 1] in s;
    var i := IndexOf(s, '\n').value;
    line, rest := s[..i], s[i + 1..];
  }

  /** Cut behind a line feed, a text has the lines of its two parts. */
  lemma {:induction false} LinesOfParts(front: string, more: string)
    requires front == [] || front[|front| - 1] == '\n'
    ensures Lines(front + more) == Lines(front) + Lines(more)
    decreases |front|
  {
    if front == [] {
      assert front + more == more;
      assert Lines(front) == [];
    } else {
      hide Lines, IndexOf, StripCr;
      var line, rest := FirstLineOf(front);
      LinesOfParts(rest, more);
      LineBeforeParts(line, rest, more);
    }
  }

  lemma LineBeforeParts(line: string, rest: string, more: string)
    requires '\n' !in line && Lines(rest + more) == Lines(rest) + Lines(more)
    ensures Lines(line + "\n" + rest + more) == Lines(line + "\n" + rest) + Lines(more)
  {
    hide Lines, StripCr;
    assert line + "\n" + rest + more == line + "\n" + (rest + more);
    LinesOfOneMore(line, rest);
    LinesOfOneMore(line, rest + more);
    assert [StripCr(line)] + (Lines(rest) + Lines(more)) == [StripCr(line)] + Lines(rest) + Lines(more);
  }

  function TrimStart(s: string): (r: string)
    ensures r != [] ==> !IsWhitespace(r[0])
    ensures |r| <= |s| && r == s[|s| - |r|..]
  {
    if s != [] && IsWhitespace(s[0]) then TrimStart(s[1..]) else s
  }

  function TrimEnd(s: string): (r: string)
    ensures r != [] ==> !IsWhitespace(r[|r| - 1])
    ensures r <= s
  {
    if s != [] && IsWhitespace(s[|s| - 1]) then TrimEnd(s[..|s| - 1]) else s
  }

  function Trim(s: string): string {
    TrimEnd(TrimStart(s))
  }

  /** Text that neither starts nor ends with white space is its own trim. */
  predicate IsTrimmed(s: string) {
    s == [] || (!IsWhitespace(s[0]) && !IsWhitespace(s[|s| - 1]))
  }

  lemma TrimIsTrimmed(s: string)
    ensures IsTrimmed(Trim(s))
    ensures IsTrimmed(s) ==> Trim(s) == s
  {
    var t := TrimStart(s);
    assert TrimEnd(t) != [] ==> TrimEnd(t)[0] == t[0];
  }

  predicate AllBlank(s: string) {
    forall i :: 0 <= i < |s| ==> IsWhitespace(s[i])
  }

  predicate NoBlanks(s: string) {
    forall i :: 0 <= i < |s| ==> !IsWhitespace(s[i])
  }

  lemma {:induction false} TrimStartPads(pre: string, s: string)
    requires AllBlank(pre)
    ensures TrimStart(pre + s) == TrimStart(s)
  {
    if pre == [] {
      assert pre + s == s;
    } else {
      assert (pre + s)[1..] == pre[1..] + s;
      TrimStartPads(pre[1..], s);
    }
  }

  lemma {:induction false} TrimEndPads(s: string, post: string)
    requires AllBlank(post)
    ensures TrimEnd(s + post) == TrimEnd(s)
  {
    if post == [] {
      assert s + post == s;
    } else {
      assert (s + post)[..|s + post| - 1] == s + post[..|post| - 1];
      TrimEndPads(s, post[..|post| - 1]);
    }
  }

  /** Trimming takes the white space around a text off. */
  lemma TrimPads(pre: string, core: string, post: string)
    requires AllBlank(pre) && AllBlank(post) && core != [] && IsTrimmed(core)
    ensures Trim(pre + core + post) == core
  {
    hide IsWhitespace, TrimEnd, TrimStart;
    var rest := core + post;
    assert pre + core + post == pre + rest;
    TrimStartPads(pre, rest);
    assert rest[0] == core[0];
    NothingInFront(rest);
    TrimEndPads(core, post);
    NothingBehind(core);
  }

  lemma NothingInFront(s: string)
    requires s != [] && !IsWhitespace(s[0])
    ensures TrimStart(s) == s
  {}

  lemma NothingBehind(s: string)
    requires s != [] && !IsWhitespace(s[|s| - 1])
    ensures TrimEnd(s) == s
  {}

  lemma {:induction false} TrimStartCuts(s: string)
    ensures AllBlank(s[..|s| - |TrimStart(s)|])
  {
    if s != [] && IsWhitespace(s[0]) {
      TrimStartCuts(s[1..]);
      var n := |s| - |TrimStart(s)|;
      assert s[..n] == [s[0]] + s[1..][..n - 1];
    }
  }

  lemma {:induction false} TrimEndCuts(s: string)
    ensures AllBlank(s[|TrimEnd(s)|..])
  {
    if s != [] && IsWhitespace(s[|s| - 1]) {
      TrimEndCuts(s[..|s| - 1]);
      var n := |TrimEnd(s)|;
      assert s[n..] == s[..|s| - 1][n..] + [s[|s| - 1]];
    }
  }

  /** It takes off nothing else. */
  lemma TrimCuts(s: string) returns (pre: string, post: string)
    ensures s == pre + Trim(s) + post && AllBlank(pre) && AllBlank(post)
  {
    var t := TrimStart(s);
    TrimStartCuts(s);
    TrimEndCuts(t);
    hide TrimStart, TrimEnd, IsWhitespace;
    pre, post := s[..|s| - |t|], t[|TrimEnd(t)|..];
    assert t == TrimEnd(t) + post;
  }

  function StripPrefix(s: string, prefix: string): Option<string> {
    if prefix <= s then Some(s[|prefix|..]) else None
  }

  /** `to_ascii_lowercase` of one character. */
  function AsciiLower(c: char): char {
    if 'A' <= c <= 'Z' then (c as int + 32) as char else c
  }

  /** No character has an ASCII lower case other than itself. */
  predicate IsLower(s: string) {
    forall i :: 0 <= i < |s| ==> AsciiLower(s[i]) == s[i]
  }

  function LowerAscii(s: string): (r: string)
    ensures |r| == |s| && forall i :: 0 <= i < |s| ==> r[i] == AsciiLower(s[i])
    ensures IsLower(r)
    ensures IsLower(s) ==> r == s
  {
    seq(|s|, i requires 0 <= i < |s| => AsciiLower(s[i]))
  }

  // ----- numbers -----

  predicate AllDigits(s: string) {
    forall c :: c in s ==> IsDigit(c)
  }

  /** The number a run of decimal digits spells. */
  function DecimalValue(s: string): nat
    requires AllDigits(s)
  {
    if s == [] then 0
    else
      assert IsDigit(s[|s| - 1]);
      10 * DecimalValue(s[..|s| - 1]) + (s[|s| - 1] as int - '0' as int)
  }

  lemma DecimalRoundTrip(n: nat)
    ensures DecimalValue(Decimal(n)) == n
  {
    if n >= 10 {
      var d := Decimal(n);
      assert d[..|d| - 1] == Decimal(n / 10);
      DecimalRoundTrip(n / 10);
      assert d[|d| - 1] == DigitChar(n % 10);
      DigitCharValue(n % 10);
    } else {
      DigitCharValue(n);
      assert Decimal(n)[..0] == [];
    }
  }

  lemma DigitCharValue(d: nat)
    requires d < 10
    ensures DigitChar(d) as int - '0' as int == d
  {}
}
