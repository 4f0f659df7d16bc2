/** Escaping of control characters in what podup prints. */
module ControlEscape {
  import opened Prelude
  import opened JsonText

  // ----- rendered JSON -----

  /** DEL and the C1 controls. */
  predicate IsLateControl(c: char) {
    0x7f <= c as int <= 0x9f
  }

  /** `{:04x}` of a character below U+0100. */
  function UnicodeEscape(c: char): (s: string)
    requires c as int < 0x100
    ensures |s| == 6
  {
    ['\\', 'u', '0', '0', HexDigitChar(c as int / 16), HexDigitChar(c as int % 16)]
  }

  function EscapeJsonChar(c: char): string {
    if IsLateControl(c) then UnicodeEscape(c) else [c]
  }

  function EscapeEach(s: string): string {
    if s == [] then "" else EscapeJsonChar(s[0]) + EscapeEach(s[1..])
  }

  /** `escape_json_controls`: a text with nothing to escape is handed back as it is. */
  function EscapeJsonControls(json: string): string {
    if exists i :: 0 <= i < |json| && IsLateControl(json[i]) then EscapeEach(json) else json
  }

  lemma {:induction false} NothingToEscape(s: string)
    requires forall i :: 0 <= i < |s| ==> !IsLateControl(s[i])
    ensures EscapeEach(s) == s
  {
    if s != [] {
      NothingToEscape(s[1..]);
      assert s == [s[0]] + s[1..];
    }
  }

  lemma EscapesEach(json: string)
    ensures EscapeJsonControls(json) == EscapeEach(json)
  {
    if !exists i :: 0 <= i < |json| && IsLateControl(json[i]) {
      NothingToEscape(json);
    }
  }

  lemma {:induction false} NoneIsLeft(s: string)
    ensures forall i :: 0 <= i < |EscapeEach(s)| ==> !IsLateControl(EscapeEach(s)[i])
  {
    if s != [] {
      NoneIsLeft(s[1..]);
      NoneInEscape(s[0]);
      hide EscapeJsonChar, IsLateControl;
    }
  }

  lemma NoneInEscape(c: char)
    ensures forall i :: 0 <= i < |EscapeJsonChar(c)| ==> !IsLateControl(EscapeJsonChar(c)[i])
  {}

  /** The output holds no character in U+007F to U+009F, and escaping it again changes
      nothing. */
  lemma EscapedJsonIsFixed(json: string)
    ensures forall i :: 0 <= i < |EscapeJsonControls(json)| ==> !IsLateControl(EscapeJsonControls(json)[i])
    ensures EscapeJsonControls(EscapeJsonControls(json)) == EscapeJsonControls(json)
  {
    hide IsLateControl, EscapeEach;
    EscapesEach(json);
    NoneIsLeft(json);
  }

  // ----- decoding is unchanged -----

  lemma EscapeValueOf(c: char, rest: string)
    requires IsLateControl(c)
    ensures IsUnicodeEscape(UnicodeEscape(c) + rest) && EscapeValue(UnicodeEscape(c) + rest) == c as int
  {
    var s := UnicodeEscape(c) + rest;
    assert HexValue('0') == 0;
    assert s[2] == '0' && s[3] == '0' && s[4] == HexDigitChar(c as int / 16) && s[5] == HexDigitChar(c as int % 16);
  }

  lemma EscapeFront(s: string)
    requires s != []
    ensures EscapeEach(s) == EscapeJsonChar(s[0]) + EscapeEach(s[1..])
  {}

  lemma PlainChar(c: char)
    requires !IsLateControl(c)
    ensures EscapeJsonChar(c) == [c]
  {}

  lemma {:induction false} PlainFront(s: string, n: nat)
    requires n <= |s| && forall i :: 0 <= i < n ==> !IsLateControl(s[i])
    ensures EscapeEach(s) == s[..n] + EscapeEach(s[n..])
  {
    hide EscapeEach, EscapeJsonChar, IsLateControl;
    if n == 0 {
      assert s[..0] == [] && s[0..] == s;
    } else {
      PlainFront(s[1..], n - 1);
      assert s[1..][n - 1..] == s[n..];
      EscapeFront(s);
      PlainChar(s[0]);
      assert s[..n] == [s[0]] + s[1..][..n - 1];
    }
  }

  /** A string decodes to the same units, whatever of it is escaped. */
  lemma {:induction false} StringsReadAlike(s: string)
    requires ReadString(s).Some?
    ensures ReadString(EscapeEach(s)) == Some((ReadString(s).value.0, EscapeEach(ReadString(s).value.1)))
    decreases |s|
  {
    if s[0] == '"' {
      PlainFront(s, 1);
      assert EscapeEach(s)[1..] == EscapeEach(s[1..]);
    } else if s[0] == '\\' {
      EscapeReadsAlike(s);
    } else {
      StringsReadAlike(s[1..]);
      CharReadsAlike(s);
    }
  }

  lemma CharReadsAlike(s: string)
    requires s != [] && s[0] != '"' && s[0] != '\\' && s[0] as int >= 0x20 && ReadString(s[1..]).Some?
    requires ReadString(EscapeEach(s[1..])) == Some((ReadString(s[1..]).value.0, EscapeEach(ReadString(s[1..]).value.1)))
    ensures ReadString(EscapeEach(s)) == Some((ReadString(s).value.0, EscapeEach(ReadString(s).value.1)))
  {
    hide EscapeEach, UnicodeEscape, IsUnicodeEscape, EscapeValue;
    var rest := EscapeEach(s[1..]);
    if IsLateControl(s[0]) {
      assert EscapeEach(s) == UnicodeEscape(s[0]) + rest by { EscapeFront(s); }
      EscapeValueOf(s[0], rest);
      assert (UnicodeEscape(s[0]) + rest)[6..] == rest;
      assert (UnicodeEscape(s[0]) + rest)[0] == '\\' by { EscapeStarts(s[0]); }
    } else {
      assert EscapeEach(s) == [s[0]] + rest by { EscapeFront(s); }
      assert ([s[0]] + rest)[1..] == rest;
    }
  }

  lemma EscapeStarts(c: char)
    requires IsLateControl(c)
    ensures UnicodeEscape(c)[0] == '\\'
  {}

  lemma ShortIsPlain(c: char)
    ensures Short(c).Some? || IsHexDigit(c) || c == 'u' ==> !IsLateControl(c)
  {}

  lemma {:induction false} EscapeReadsAlike(s: string)
    requires s != [] && s[0] == '\\' && ReadString(s).Some?
    ensures ReadString(EscapeEach(s)) == Some((ReadString(s).value.0, EscapeEach(ReadString(s).value.1)))
    decreases |s|, 0
  {
    var n := if IsUnicodeEscape(s) then 6 else 2;
    StringsReadAlike(s[n..]);
    assert forall i :: 0 <= i < n ==> !IsLateControl(s[i]) by {
      hide IsLateControl, Short, IsHexDigit;
      assert !IsLateControl('\\') by { BackslashIsPlain(); }
      ShortIsPlain(s[1]);
      if n == 6 {
        ShortIsPlain(s[2]);
        ShortIsPlain(s[3]);
        ShortIsPlain(s[4]);
        ShortIsPlain(s[5]);
      }
    }
    PlainFront(s, n);
    FrontReadsAlike(s, EscapeEach(s[n..]), n);
  }

  lemma BackslashIsPlain()
    ensures !IsLateControl('\\')
  {}

  /** An escape reads the same whatever follows it. */
  lemma FrontReadsAlike(s: string, rest: string, n: nat)
    requires s != [] && s[0] == '\\' && ReadString(s).Some? && n == if IsUnicodeEscape(s) then 6 else 2
    ensures |s| >= n && ReadString(s[n..]).Some?
    ensures ReadString(s).value.1 == ReadString(s[n..]).value.1
    ensures ReadString(rest).Some? && ReadString(rest).value.0 == ReadString(s[n..]).value.0 ==>
              ReadString(s[..n] + rest) == Some((ReadString(s).value.0, ReadString(rest).value.1))
  {
    hide IsHexDigit, HexValue, Short;
    var t := s[..n] + rest;
    assert t[n..] == rest;
    assert forall i :: 0 <= i < n ==> t[i] == s[i];
    if n == 2 {
      assert s[1] != 'u' by { UIsNotShort(); }
    }
  }

  lemma UIsNotShort()
    ensures Short('u') == None
  {}

  lemma {:induction false} WordsReadAlike(s: string)
    ensures ReadWord(EscapeEach(s)) == (ReadWord(s).0, EscapeEach(ReadWord(s).1))
  {
    if s != [] {
      EscapeFront(s);
      if IsWordChar(s[0]) {
        WordsReadAlike(s[1..]);
        assert EscapeEach(s)[1..] == EscapeEach(s[1..]);
      } else {
        assert EscapeEach(s)[0] == EscapeJsonChar(s[0])[0];
      }
    }
  }

  lemma {:induction false} TokensReadAlike(s: string)
    requires Tokens(s).Some?
    ensures Tokens(EscapeEach(s)) == Tokens(s)
    decreases |s|
  {
    if s != [] {
      hide ReadString, ReadWord, IsLiteral, IsNumber, EscapeJsonChar;
      PlainTokenChar(s[0]);
      EscapeFront(s);
      var rest := EscapeEach(s[1..]);
      assert EscapeEach(s) == [s[0]] + rest;
      assert EscapeEach(s)[1..] == rest;
      if IsSpace(s[0]) || IsPunct(s[0]) {
        TokensReadAlike(s[1..]);
      } else if s[0] == '"' {
        StringsReadAlike(s[1..]);
        TokensReadAlike(ReadString(s[1..]).value.1);
      } else {
        WordsReadAlike(s);
        TokensReadAlike(ReadWord(s).1);
      }
    }
  }

  lemma PlainTokenChar(c: char)
    ensures IsSpace(c) || IsPunct(c) || c == '"' || IsWordChar(c) ==> EscapeJsonChar(c) == [c]
  {}

  /** The escaped text of a JSON value denotes the same value. */
  lemma EscapedJsonDecodesAlike(json: string)
    requires Decode(json).Some?
    ensures Decode(EscapeJsonControls(json)) == Decode(json)
  {
    hide Tokens, EscapeEach, EscapeJsonControls, ReadValue;
    EscapesEach(json);
    TokensReadAlike(json);
  }

  // ----- log messages -----

  predicate IsLogControl(c: char) {
    IsControl(c) && c != '\n' && c != '\t'
  }

  /** Hexadecimal digits of a number, without leading zeros. */
  function Hex(n: nat): (s: string)
    ensures s != "" && forall i :: 0 <= i < |s| ==> !IsControl(s[i])
  {
    if n < 16 then [HexDigitChar(n)] else Hex(n / 16) + [HexDigitChar(n % 16)]
  }

  /** `char::escape_default` of a control character. */
  function EscapeDefault(c: char): (s: string)
    ensures s != "" && forall i :: 0 <= i < |s| ==> !IsControl(s[i])
  {
    if c == '\r' then "\\r" else "\\u{" + Hex(c as int) + "}"
  }

  function EscapeLogChar(c: char): string {
    if IsLogControl(c) then EscapeDefault(c) else [c]
  }

  function EscapeLog(s: string): string {
    if s == [] then "" else EscapeLogChar(s[0]) + EscapeLog(s[1..])
  }

  lemma {:induction false} NothingInLog(s: string)
    requires forall i :: 0 <= i < |s| ==> !IsLogControl(s[i])
    ensures EscapeLog(s) == s
  {
    if s != [] {
      NothingInLog(s[1..]);
      assert s == [s[0]] + s[1..];
    }
  }

  lemma {:induction false} NoLogControlIsLeft(s: string)
    ensures forall i :: 0 <= i < |EscapeLog(s)| ==> !IsLogControl(EscapeLog(s)[i])
  {
    if s != [] {
      hide IsControl, EscapeDefault;
      NoLogControlIsLeft(s[1..]);
    }
  }

  /** A message escaped twice is a message escaped once, and no control is left in it
      but line feed and tab. */
  lemma EscapedLogIsFixed(s: string)
    ensures forall i :: 0 <= i < |EscapeLog(s)| ==> !IsLogControl(EscapeLog(s)[i])
    ensures EscapeLog(EscapeLog(s)) == EscapeLog(s)
  {
    NoLogControlIsLeft(s);
    NothingInLog(EscapeLog(s));
  }

  /** The number a run of hexadecimal digits spells, from its first digit on. */
  function HexNumber(s: string, before: nat): nat
    requires forall i :: 0 <= i < |s| ==> IsHexDigit(s[i])
    decreases |s|
  {
    if s == [] then before else HexNumber(s[1..], 16 * before + HexValue(s[0]))
  }

  lemma {:induction false} HexNumberParts(a: string, d: char, before: nat)
    requires (forall i :: 0 <= i < |a| ==> IsHexDigit(a[i])) && IsHexDigit(d)
    ensures HexNumber(a + [d], before) == 16 * HexNumber(a, before) + HexValue(d)
    decreases |a|
  {
    if a == [] {
      assert [] + [d] == [d] && [d][1..] == [];
    } else {
      assert (a + [d])[1..] == a[1..] + [d];
      HexNumberParts(a[1..], d, 16 * before + HexValue(a[0]));
    }
  }

  lemma {:induction false} HexSpells(n: nat)
    ensures forall i :: 0 <= i < |Hex(n)| ==> IsHexDigit(Hex(n)[i])
    ensures HexNumber(Hex(n), 0) == n
  {
    if n < 16 {
      assert [HexDigitChar(n)][1..] == [];
    } else {
      HexSpells(n / 16);
      HexNumberParts(Hex(n / 16), HexDigitChar(n % 16), 0);
    }
  }

  /** What the escape of a control says: `\r` for a carriage return, else the number of
      the character in hexadecimal. */
  predicate SpellsControl(escape: string, c: char) {
    if c == '\r' then escape == "\\r"
    else
      && |escape| >= 5 && escape[..3] == "\\u{" && escape[|escape| - 1] == '}'
      && var digits := escape[3..|escape| - 1];
         (forall i :: 0 <= i < |digits| ==> IsHexDigit(digits[i])) && HexNumber(digits, 0) == c as int
  }

  /** Each control but line feed and tab is spelled out where it stood, and nothing else
      changes. */
  lemma EscapedLogSpellsControls(a: string, c: char, b: string)
    ensures c == '\n' || c == '\t' || !IsControl(c) ==> EscapeLog(a + [c] + b) == EscapeLog(a) + [c] + EscapeLog(b)
    ensures IsControl(c) && c != '\n' && c != '\t' ==>
              exists escape :: EscapeLog(a + [c] + b) == EscapeLog(a) + escape + EscapeLog(b) && SpellsControl(escape, c)
  {
    hide IsControl, EscapeLog, HexNumber;
    EscapeLogParts(a + [c], b);
    EscapeLogParts(a, [c]);
    EscapedOne(c);
    var escape := EscapeLogChar(c);
    if IsControl(c) && c != '\n' && c != '\t' && c != '\r' {
      HexSpells(c as int);
      assert escape[3..|escape| - 1] == Hex(c as int);
    }
  }

  lemma EscapedOne(c: char)
    ensures EscapeLog([c]) == EscapeLogChar(c)
  {
    hide EscapeLogChar;
    assert [c][1..] == [];
    assert EscapeLogChar(c) + "" == EscapeLogChar(c);
  }

  function EscapeLines(lines: seq<string>): seq<string> {
    seq(|lines|, i requires 0 <= i < |lines| => EscapeLog(lines[i]))
  }

  lemma {:induction false} EscapeLogParts(a: string, b: string)
    ensures EscapeLog(a + b) == EscapeLog(a) + EscapeLog(b)
  {
    if a == [] {
      assert a + b == b;
    } else {
      assert (a + b)[1..] == a[1..] + b;
      EscapeLogParts(a[1..], b);
    }
  }

  lemma {:induction false} EscapeAddsNoLines(s: string)
    ensures '\n' in EscapeLog(s) <==> '\n' in s
  {
    if s != [] {
      hide EscapeDefault;
      EscapeAddsNoLines(s[1..]);
      assert s == [s[0]] + s[1..];
      assert IsControl('\n');
    }
  }

  lemma EscapeAcrossNewline(line: string, more: string)
    ensures EscapeLog(line + ['\n'] + more) == EscapeLog(line) + ['\n'] + EscapeLog(more)
  {
    hide EscapeLog;
    EscapeLogParts(line + ['\n'], more);
    EscapeLogParts(line, ['\n']);
    NothingInLog(['\n']);
  }

  lemma EscapeLinesOneMore(line: string, lines: seq<string>)
    ensures EscapeLines([line] + lines) == [EscapeLog(line)] + EscapeLines(lines)
  {
    hide EscapeLog;
  }

  /** The lines of the message are the escaped lines: none is added, none is lost. */
  lemma {:induction false} EscapeKeepsLines(s: string)
    ensures SplitOn(EscapeLog(s), '\n') == EscapeLines(SplitOn(s, '\n'))
    decreases |s|
  {
    hide SplitOn, EscapeLog, IndexOf, EscapeLines;
    if '\n' !in s {
      EscapeAddsNoLines(s);
      NoSeparatorNoSplit(s, '\n');
      NoSeparatorNoSplit(EscapeLog(s), '\n');
      EscapeLinesOneMore(s, []);
      assert [s] + [] == [s] && EscapeLines([]) == [] by { NoLinesToEscape(); }
    } else {
      var at := IndexOf(s, '\n').value;
      var (line, more) := (s[..at], s[at + 1..]);
      EscapeKeepsLines(more);
      EscapeAddsNoLines(line);
      assert s == line + ['\n'] + more;
      EscapeAcrossNewline(line, more);
      SplitOnJoin(line, '\n', more);
      SplitOnJoin(EscapeLog(line), '\n', EscapeLog(more));
      EscapeLinesOneMore(line, SplitOn(more, '\n'));
    }
  }

  lemma NoLinesToEscape()
    ensures EscapeLines([]) == []
  {}

  // ----- as it runs -----

  method EscapeJson(json: string) returns (out: string)
    ensures out == EscapeJsonControls(json)
  {
    hide IsLateControl, EscapeJsonChar;
    if !exists i :: 0 <= i < |json| && IsLateControl(json[i]) {
      return json;
    }
    out := "";
    var i := 0;
    assert json[0..] == json && "" + EscapeEach(json) == EscapeEach(json);
    while i < |json|
      invariant i <= |json| && out + EscapeEach(json[i..]) == EscapeEach(json)
    {
      assert json[i..][1..] == json[i + 1..];
      ghost var more := EscapeEach(json[i + 1..]);
      assert out + (EscapeJsonChar(json[i]) + more) == out + EscapeJsonChar(json[i]) + more;
      out := out + EscapeJsonChar(json[i]);
      i := i + 1;
    }
    assert json[i..] == [] && out + "" == out;
  }

  lemma LogOneMore(s: string, i: nat)
    requires i <= |s|
    ensures EscapeLog(s[i..]) == if i == |s| then "" else EscapeLogChar(s[i]) + EscapeLog(s[i + 1..])
  {
    assert i < |s| ==> s[i..][1..] == s[i + 1..];
  }

  method EscapeLogControls(s: string) returns (out: string)
    ensures out == EscapeLog(s)
  {
    hide IsLogControl, EscapeLogChar, EscapeLog;
    if !exists i :: 0 <= i < |s| && IsLogControl(s[i]) {
      NothingInLog(s);
      return s;
    }
    out := "";
    var i := 0;
    assert s[0..] == s && "" + EscapeLog(s) == EscapeLog(s);
    while i < |s|
      invariant i <= |s| && out + EscapeLog(s[i..]) == EscapeLog(s)
    {
      LogOneMore(s, i);
      ghost var more := EscapeLog(s[i + 1..]);
      assert out + (EscapeLogChar(s[i]) + more) == out + EscapeLogChar(s[i]) + more;
      out := out + EscapeLogChar(s[i]);
      i := i + 1;
    }
    LogOneMore(s, i);
    assert out + "" == out;
  }
}
