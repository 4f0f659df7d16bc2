/** Strings, numbers and values of JSON text, after RFC 8259. Decoded strings are
    sequences of UTF-16 code units, which is what `\u` escapes spell. */
module JsonText {
  import opened Prelude

  type Units = seq<nat>

  function Utf16(c: char): Units {
    var n := c as int;
    if n < 0x10000 then [n] else [0xd800 + (n - 0x10000) / 0x400, 0xdc00 + (n - 0x10000) % 0x400]
  }

  /** The character a one-letter escape stands for: section 7 of RFC 8259. */
  function Short(c: char): Option<char> {
    if c == '"' || c == '\\' || c == '/' then Some(c)
    else if c == 'b' then Some(8 as char)
    else if c == 'f' then Some(12 as char)
    else if c == 'n' then Some('\n')
    else if c == 'r' then Some('\r')
    else if c == 't' then Some('\t')
    else None
  }

  predicate IsUnicodeEscape(s: string) {
    |s| >= 6 && s[0] == '\\' && s[1] == 'u' && IsHexDigit(s[2]) && IsHexDigit(s[3]) && IsHexDigit(s[4]) && IsHexDigit(s[5])
  }

  function EscapeValue(s: string): nat
    requires IsUnicodeEscape(s)
  {
    HexValue(s[2]) * 4096 + HexValue(s[3]) * 256 + HexValue(s[4]) * 16 + HexValue(s[5])
  }

  /** The string after its opening quote, decoded, and what follows its closing one. */
  function ReadString(s: string): (r: Option<(Units, string)>)
    ensures r.Some? ==> |r.value.1| < |s|
  {
    if s == [] then None
    else if s[0] == '"' then Some(([], s[1..]))
    else if s[0] == '\\' then
      if |s| == 1 then None
      else if IsUnicodeEscape(s) then Prefixed([EscapeValue(s)], ReadString(s[6..]))
      else
        match Short(s[1])
        case None => None
        case Some(c) => Prefixed([c as int], ReadString(s[2..]))
    else if s[0] as int < 0x20 then None
    else Prefixed(Utf16(s[0]), ReadString(s[1..]))
  }

  function Prefixed(front: Units, r: Option<(Units, string)>): Option<(Units, string)> {
    match r case None => None case Some((units, rest)) => Some((front + units, rest))
  }

  // ----- tokens -----

  datatype Token = Punct(c: char) | Text(units: Units) | Word(text: string)

  predicate IsSpace(c: char) {
    c == ' ' || c == '\t' || c == '\n' || c == '\r'
  }

  predicate IsPunct(c: char) {
    c in ['{', '}', '[', ']', ':', ',']
  }

  predicate IsWordChar(c: char) {
    IsDigit(c) || 'a' <= c <= 'z' || 'A' <= c <= 'Z' || c == '+' || c == '-' || c == '.'
  }

  /** The longest run of word characters, and what follows it. */
  function ReadWord(s: string): (r: (string, string))
    ensures r.0 + r.1 == s
    ensures s != [] && IsWordChar(s[0]) ==> r.0 != []
  {
    if s != [] && IsWordChar(s[0]) then
      var (word, rest) := ReadWord(s[1..]);
      ([s[0]] + word, rest)
    else ("", s)
  }

  function SkipDigits(s: string): (r: string)
    ensures |r| <= |s|
  {
    if s != [] && IsDigit(s[0]) then SkipDigits(s[1..]) else s
  }

  /** Section 6 of RFC 8259: what follows the integer part. */
  predicate IsNumberTail(s: string) {
    var exponent := if s != [] && s[0] == '.' then SkipDigits(s[1..]) else s;
    && (s != [] && s[0] == '.' ==> |s| > 1 && IsDigit(s[1]))
    && (exponent == [] || (exponent[0] in ['e', 'E'] && IsExponent(exponent[1..])))
  }

  predicate IsExponent(s: string) {
    var digits := if s != [] && (s[0] == '+' || s[0] == '-') then s[1..] else s;
    digits != [] && AllDigits(digits)
  }

  predicate IsNumber(word: string) {
    var s := if word != [] && word[0] == '-' then word[1..] else word;
    && s != [] && IsDigit(s[0])
    && IsNumberTail(if s[0] == '0' then s[1..] else SkipDigits(s))
  }

  predicate IsLiteral(word: string) {
    word == "true" || word == "false" || word == "null"
  }

  function Tokens(s: string): Option<seq<Token>>
    decreases |s|
  {
    if s == [] then Some([])
    else if IsSpace(s[0]) then Tokens(s[1..])
    else if IsPunct(s[0]) then Then(Punct(s[0]), Tokens(s[1..]))
    else if s[0] == '"' then
      match ReadString(s[1..])
      case None => None
      case Some((units, rest)) => Then(Text(units), Tokens(rest))
    else if IsWordChar(s[0]) then
      var (word, rest) := ReadWord(s);
      if IsLiteral(word) || IsNumber(word) then Then(Word(word), Tokens(rest)) else None
    else None
  }

  function Then(t: Token, r: Option<seq<Token>>): Option<seq<Token>> {
    match r case None => None case Some(rest) => Some([t] + rest)
  }

  // ----- values -----

  datatype Value =
    | Atom(word: string)
    | String(units: Units)
    | Array(items: seq<Value>)
    | Object(fields: seq<(Units, Value)>)

  /** A value from the front of the tokens: sections 3 to 5 of RFC 8259. */
  function ReadValue(t: seq<Token>): (r: Option<(Value, seq<Token>)>)
    ensures r.Some? ==> |r.value.1| < |t|
    decreases |t|, 0
  {
    if t == [] then None
    else
      match t[0]
      case Word(word) => Some((Atom(word), t[1..]))
      case Text(units) => Some((String(units), t[1..]))
      case Punct(c) =>
        if c == '[' then
          if |t| > 1 && t[1] == Punct(']') then Some((Array([]), t[2..]))
          else
            match ReadItems(t[1..])
            case None => None
            case Some((items, rest)) => Some((Array(items), rest))
        else if c == '{' then
          if |t| > 1 && t[1] == Punct('}') then Some((Object([]), t[2..]))
          else
            match ReadFields(t[1..])
            case None => None
            case Some((fields, rest)) => Some((Object(fields), rest))
        else None
  }

  function ReadItems(t: seq<Token>): (r: Option<(seq<Value>, seq<Token>)>)
    ensures r.Some? ==> |r.value.1| < |t|
    decreases |t|, 1
  {
    match ReadValue(t)
    case None => None
    case Some((first, rest)) =>
      if rest == [] then None
      else if rest[0] == Punct(']') then Some(([first], rest[1..]))
      else if rest[0] == Punct(',') then
        match ReadItems(rest[1..])
        case None => None
        case Some((items, end)) => Some(([first] + items, end))
      else None
  }

  function ReadFields(t: seq<Token>): (r: Option<(seq<(Units, Value)>, seq<Token>)>)
    ensures r.Some? ==> |r.value.1| < |t|
    decreases |t|, 1
  {
    if |t| < 3 || !t[0].Text? || t[1] != Punct(':') then None
    else
      match ReadValue(t[2..])
      case None => None
      case Some((first, rest)) =>
        if rest == [] then None
        else if rest[0] == Punct('}') then Some(([(t[0].units, first)], rest[1..]))
        else if rest[0] == Punct(',') then
          match ReadFields(rest[1..])
          case None => None
          case Some((fields, end)) => Some(([(t[0].units, first)] + fields, end))
        else None
  }

  /** The value a JSON text denotes, if it is one. */
  function Decode(json: string): Option<Value> {
    match Tokens(json)
    case None => None
    case Some(tokens) =>
      match ReadValue(tokens)
      case None => None
      case Some((value, rest)) => if rest == [] then Some(value) else None
  }
}
