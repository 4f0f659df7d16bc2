/** Quoting of compose values for `PodmanArgs=`, judged against the way systemd reads
    the words of an exec line. */
module UnitQuoting {
  import opened Prelude

  // ----- quoting -----

  /** `sanitize_value` */
  function SanitizeValue(value: string): (r: string)
    ensures forall i :: 0 <= i < |r| ==> !IsControl(r[i])
    ensures |r| <= |value|
  {
    if value == [] then ""
    else (if IsControl(value[0]) then "" else [value[0]]) + SanitizeValue(value[1..])
  }

  /** `str::replace` of one character. */
  function Replace(s: string, c: char, put: string): string {
    if s == [] then "" else (if s[0] == c then put else [s[0]]) + Replace(s[1..], c, put)
  }

  /** `quote_podman_arg_value` */
  function QuotePodmanArgValue(value: string): string {
    var escaped := Replace(SanitizeValue(value), '%', "%%");
    "\"" + Replace(Replace(escaped, '\\', "\\\\"), '"', "\\\"") + "\""
  }

  /** What the three replacements do to one character. */
  function Escape(c: char): string {
    if c == '%' then "%%" else if c == '\\' then "\\\\" else if c == '"' then "\\\"" else [c]
  }

  function EscapeAll(s: string): string {
    if s == [] then "" else Escape(s[0]) + EscapeAll(s[1..])
  }

  lemma {:induction false} ReplaceParts(a: string, b: string, c: char, put: string)
    ensures Replace(a + b, c, put) == Replace(a, c, put) + Replace(b, c, put)
  {
    if a == [] {
      assert a + b == b;
    } else {
      assert (a + b)[1..] == a[1..] + b;
      ReplaceParts(a[1..], b, c, put);
    }
  }

  lemma ReplaceOne(d: char, c: char, put: string)
    ensures Replace([d], c, put) == if d == c then put else [d]
    ensures Replace([d, d], c, put) == if d == c then put + put else [d, d]
  {
    assert [d][1..] == [] && [d, d][1..] == [d];
    assert Replace([d], c, put) == (if d == c then put else [d]) + "";
  }

  /** The later replacements never touch what an earlier one put in. */
  lemma {:induction false} ReplacementsEscape(s: string)
    ensures Replace(Replace(Replace(s, '%', "%%"), '\\', "\\\\"), '"', "\\\"") == EscapeAll(s)
  {
    if s != [] {
      hide Replace;
      var (c, rest) := (s[0], s[1..]);
      assert s == [c] + rest;
      ReplacementsEscape(rest);
      ReplaceParts([c], rest, '%', "%%");
      var first := Replace([c], '%', "%%");
      ReplaceParts(first, Replace(rest, '%', "%%"), '\\', "\\\\");
      var second := Replace(first, '\\', "\\\\");
      ReplaceParts(second, Replace(Replace(rest, '%', "%%"), '\\', "\\\\"), '"', "\\\"");
      OneEscape(c);
    }
  }

  lemma OneEscape(c: char)
    ensures Replace(Replace(Replace([c], '%', "%%"), '\\', "\\\\"), '"', "\\\"") == Escape(c)
  {
    hide Replace;
    ReplaceOne(c, '%', "%%");
    ReplaceOne(c, '\\', "\\\\");
    ReplaceOne(c, '"', "\\\"");
    ReplaceOne('\\', '"', "\\\"");
    assert ['%', '%'] == "%%" && ['\\', '\\'] == "\\\\";
    ReplaceOne('%', '\\', "\\\\");
    ReplaceOne('%', '"', "\\\"");
  }

  lemma QuotedIsEscaped(value: string)
    ensures QuotePodmanArgValue(value) == "\"" + EscapeAll(SanitizeValue(value)) + "\""
  {
    ReplacementsEscape(SanitizeValue(value));
  }

  // ----- systemd's reading -----

  datatype Reader = Reader(words: seq<string>, cur: string, inWord: bool, quoted: bool, curQuoted: bool, bareSemicolon: bool)

  const START: Reader := Reader([], "", false, false, false, false)

  function EndWord(r: Reader): Reader {
    if r.inWord then Reader(r.words + [r.cur], "", false, r.quoted, false, r.bareSemicolon || (r.cur == ";" && !r.curQuoted))
    else r
  }

  function Meant(c: char): char {
    if c == 'n' then '\n' else if c == 't' then '\t' else if c == 'r' then '\r' else c
  }

  /** The loop of `parse_exec`, and what follows it. */
  function Read(chars: string, r: Reader): Option<seq<string>>
    decreases |chars|
  {
    if chars == [] then
      if r.quoted || EndWord(r).bareSemicolon then None else Some(EndWord(r).words)
    else
      var c := chars[0];
      if c == '"' then Read(chars[1..], r.(quoted := !r.quoted, inWord := true, curQuoted := true))
      else if c == '\\' && r.quoted then
        if |chars| == 1 then None else Read(chars[2..], r.(cur := r.cur + [Meant(chars[1])]))
      else if c == '%' || c == '$' then
        if |chars| == 1 || chars[1] != c then None else Read(chars[2..], r.(cur := r.cur + [c], inWord := true))
      else if IsWhitespace(c) && !r.quoted then Read(chars[1..], EndWord(r))
      else Read(chars[1..], r.(cur := r.cur + [c], inWord := true))
  }

  // ----- what a quoted value comes to -----

  /** The value as the reader sees it: a doubled `$` is one, a lone one is a
      substitution. */
  function Dollars(t: string): (r: Option<string>)
    ensures r.Some? ==> |r.value| <= |t|
  {
    if t == [] then Some("")
    else if t[0] != '$' then
      match Dollars(t[1..]) case None => None case Some(w) => Some([t[0]] + w)
    else if |t| == 1 || t[1] != '$' then None
    else
      match Dollars(t[2..]) case None => None case Some(w) => Some("$" + w)
  }

  lemma {:induction false} DollarsKeepsIff(t: string)
    ensures Dollars(t) == Some(t) <==> '$' !in t
    ensures '$' in t && Dollars(t).Some? ==> |Dollars(t).value| < |t|
  {
    if t != [] {
      if t[0] != '$' {
        DollarsKeepsIff(t[1..]);
        assert t == [t[0]] + t[1..];
        if Dollars(t) == Some(t) {
          assert ([t[0]] + Dollars(t[1..]).value)[1..] == t[1..];
        }
      } else {
        assert t[0] in t;
      }
    }
  }

  lemma ReadsOneEscape(c: char, more: string, r: Reader)
    requires r.quoted && r.inWord && c != '$'
    ensures Read(Escape(c) + more, r) == Read(more, r.(cur := r.cur + [c]))
  {
    hide IsWhitespace;
    var s := Escape(c) + more;
    if c == '%' || c == '\\' || c == '"' {
      assert s[2..] == more && s[0] == Escape(c)[0] && s[1] == Escape(c)[1];
    } else {
      assert s[1..] == more && s[0] == c;
    }
  }

  lemma ReadsDollars(s: string, r: Reader)
    requires r.quoted && r.inWord && s != [] && s[0] == '$'
    ensures Read(s, r) == if |s| == 1 || s[1] != '$' then None else Read(s[2..], r.(cur := r.cur + "$"))
  {
    hide IsWhitespace;
    assert ['$'] == "$";
  }

  lemma EscapedFront(t: string, rest: string)
    requires t != []
    ensures EscapeAll(t) + rest == Escape(t[0]) + (EscapeAll(t[1..]) + rest)
  {
    hide Escape;
  }

  lemma ReadsDollar(t: string, rest: string, r: Reader)
    requires r.quoted && r.inWord && t != [] && t[0] == '$' && rest != [] && rest[0] == '"'
    ensures Read(EscapeAll(t) + rest, r) ==
            if |t| > 1 && t[1] == '$' then Read(EscapeAll(t[2..]) + rest, r.(cur := r.cur + "$")) else None
  {
    hide Read, EscapeAll;
    var s := EscapeAll(t) + rest;
    EscapedFront(t, rest);
    ReadsDollars(s, r);
    assert s[1..] == EscapeAll(t[1..]) + rest;
    if |t| > 1 {
      EscapedFront(t[1..], rest);
      assert t[1..][1..] == t[2..];
      assert s[1] == Escape(t[1])[0];
      if t[1] == '$' {
        assert s[2..] == s[1..][1..] == EscapeAll(t[2..]) + rest;
      }
    } else {
      assert EscapeAll(t[1..]) == [] by { EscapeNothing(); }
      assert s[1] == rest[0];
    }
  }

  lemma EscapeNothing()
    ensures EscapeAll([]) == []
  {}

  lemma Gather(out: string, c: char, w: Option<string>)
    ensures w.Some? ==> out + [c] + w.value == out + ([c] + w.value)
  {}

  /** Inside quotes the reader takes an escaped text for its meaning and comes out at
      the closing quote. */
  lemma {:induction false} ReadsEscaped(t: string, rest: string, r: Reader)
    requires r.quoted && r.inWord && rest != [] && rest[0] == '"'
    ensures Read(EscapeAll(t) + rest, r) ==
            match Dollars(t) case None => None case Some(w) => Read(rest, r.(cur := r.cur + w))
    decreases |t|
  {
    hide Read, EscapeAll, Escape;
    if t == [] {
      EscapeNothing();
      assert EscapeAll(t) + rest == rest;
      assert r.cur + "" == r.cur;
    } else if t[0] != '$' {
      EscapedFront(t, rest);
      ReadsOneEscape(t[0], EscapeAll(t[1..]) + rest, r);
      ReadsEscaped(t[1..], rest, r.(cur := r.cur + [t[0]]));
      Gather(r.cur, t[0], Dollars(t[1..]));
    } else {
      ReadsDollar(t, rest, r);
      if |t| > 1 && t[1] == '$' {
        ReadsEscaped(t[2..], rest, r.(cur := r.cur + "$"));
        Gather(r.cur, '$', Dollars(t[2..]));
        assert ['$'] == "$";
      }
    }
  }

  // ----- a line of arguments -----

  /** An argument is written in pieces: template text, and quoted values. */
  datatype Piece = Plain(text: string) | Quoted(value: string)

  type Word = seq<Piece>

  /** Template text: something, with no character the reader treats specially. */
  predicate IsPlain(text: string) {
    text != "" && forall i :: 0 <= i < |text| ==> text[i] !in ['"', '%', '$', ';'] && !IsWhitespace(text[i])
  }

  ghost predicate IsWord(w: Word) {
    w != [] && forall i :: 0 <= i < |w| ==> w[i].Plain? ==> IsPlain(w[i].text)
  }

  function Spelled(p: Piece): string {
    match p case Plain(text) => text case Quoted(value) => QuotePodmanArgValue(value)
  }

  function SpelledWord(w: Word): string {
    if w == [] then "" else Spelled(w[0]) + SpelledWord(w[1..])
  }

  function Line(words: seq<Word>): string {
    if words == [] then ""
    else if |words| == 1 then SpelledWord(words[0])
    else SpelledWord(words[0]) + " " + Line(words[1..])
  }

  function PieceRead(p: Piece): Option<string> {
    match p case Plain(text) => Some(text) case Quoted(value) => Dollars(SanitizeValue(value))
  }

  /** What the reader makes of a word, or `None` when a value holds a lone `$`. */
  function WordRead(w: Word): Option<string> {
    if w == [] then Some("")
    else
      match PieceRead(w[0])
      case None => None
      case Some(text) => match WordRead(w[1..]) case None => None case Some(rest) => Some(text + rest)
  }

  function LineRead(words: seq<Word>): (r: Option<seq<string>>)
    ensures r.Some? ==> |r.value| == |words|
  {
    if words == [] then Some([])
    else
      match WordRead(words[0])
      case None => None
      case Some(word) =>
        match LineRead(words[1..])
        case None => None
        case Some(rest) => Some([word] + rest)
  }

  lemma {:induction false} ReadsPlain(text: string, rest: string, r: Reader)
    requires (text == "" || IsPlain(text)) && !r.quoted
    ensures Read(text + rest, r) == Read(rest, r.(cur := r.cur + text, inWord := r.inWord || text != ""))
    decreases |text|
  {
    hide IsWhitespace;
    if text == [] {
      assert text + rest == rest && r.cur + text == r.cur;
    } else {
      assert (text + rest)[1..] == text[1..] + rest;
      ReadsPlain(text[1..], rest, r.(cur := r.cur + [text[0]], inWord := true));
      assert r.cur + [text[0]] + text[1..] == r.cur + text;
    }
  }

  lemma ReadsQuoted(value: string, rest: string, r: Reader)
    requires !r.quoted
    ensures Read(QuotePodmanArgValue(value) + rest, r) ==
            match Dollars(SanitizeValue(value))
            case None => None
            case Some(w) => Read(rest, r.(cur := r.cur + w, inWord := true, curQuoted := true))
  {
    hide Read, QuotePodmanArgValue, SanitizeValue;
    var t := SanitizeValue(value);
    QuotedIsEscaped(value);
    var tail := EscapeAll(t) + ("\"" + rest);
    assert QuotePodmanArgValue(value) + rest == "\"" + tail;
    var open := r.(quoted := true, inWord := true, curQuoted := true);
    OpensQuote(tail, r);
    ReadsEscaped(t, "\"" + rest, open);
    if Dollars(t).Some? {
      OpensQuote(rest, open.(cur := r.cur + Dollars(t).value));
    }
  }

  ghost predicate HasQuoted(w: Word) {
    exists i :: 0 <= i < |w| && w[i].Quoted?
  }

  lemma ReadsPiece(p: Piece, rest: string, r: Reader)
    requires !r.quoted && (p.Plain? ==> IsPlain(p.text))
    ensures Read(Spelled(p) + rest, r) ==
            match PieceRead(p)
            case None => None
            case Some(text) => Read(rest, r.(cur := r.cur + text, inWord := true, curQuoted := r.curQuoted || p.Quoted?))
  {
    hide Read, QuotePodmanArgValue, SanitizeValue, Dollars;
    match p
    case Plain(text) => ReadsPlain(text, rest, r);
    case Quoted(value) => ReadsQuoted(value, rest, r);
  }

  lemma {:induction false} ReadsWord(w: Word, rest: string, r: Reader)
    requires !r.quoted && (w != [] ==> IsWord(w))
    ensures Read(SpelledWord(w) + rest, r) ==
            match WordRead(w)
            case None => None
            case Some(text) => Read(rest, r.(cur := r.cur + text, inWord := r.inWord || w != [], curQuoted := r.curQuoted || HasQuoted(w)))
    decreases |w|
  {
    hide Read, Spelled, PieceRead, IsPlain;
    if w == [] {
      assert SpelledWord(w) + rest == rest && r.cur + "" == r.cur;
    } else {
      var more := SpelledWord(w[1..]) + rest;
      assert SpelledWord(w) + rest == Spelled(w[0]) + more;
      assert w[0].Plain? ==> IsPlain(w[0].text);
      ReadsPiece(w[0], more, r);
      if PieceRead(w[0]).Some? {
        var text := PieceRead(w[0]).value;
        assert forall i :: 0 <= i < |w[1..]| ==> w[1..][i] == w[i + 1];
        ReadsWord(w[1..], rest, r.(cur := r.cur + text, inWord := true, curQuoted := r.curQuoted || w[0].Quoted?));
        HasQuotedFirst(w);
        var after := WordRead(w[1..]);
        assert after.Some? ==> r.cur + text + after.value == r.cur + (text + after.value);
      }
    }
  }

  lemma HasQuotedFirst(w: Word)
    requires w != []
    ensures HasQuoted(w) <==> w[0].Quoted? || HasQuoted(w[1..])
  {
    if HasQuoted(w) && !w[0].Quoted? {
      var i :| 0 <= i < |w| && w[i].Quoted?;
      assert w[1..][i - 1].Quoted?;
    }
    if HasQuoted(w[1..]) {
      var i :| 0 <= i < |w[1..]| && w[1..][i].Quoted?;
      assert w[i + 1].Quoted?;
    }
  }

  /** An unquoted word is template text, so it never ends the command. */
  lemma {:induction false} NoBareSemicolon(w: Word)
    requires IsWord(w) && !HasQuoted(w)
    ensures WordRead(w).Some? ==> ';' !in WordRead(w).value
  {
    assert w[0].Plain?;
    assert ';' !in w[0].text;
    if |w| > 1 {
      assert forall i :: 0 <= i < |w[1..]| ==> w[1..][i] == w[i + 1];
      NoBareSemicolon(w[1..]);
    } else {
      assert w[1..] == [];
    }
  }

  lemma OpensQuote(rest: string, r: Reader)
    ensures Read("\"" + rest, r) == Read(rest, r.(quoted := !r.quoted, inWord := true, curQuoted := true))
  {
    assert ("\"" + rest)[1..] == rest;
  }

  lemma EndsLine(r: Reader)
    requires !r.quoted
    ensures Read("", r) == if EndWord(r).bareSemicolon then None else Some(EndWord(r).words)
    ensures !r.inWord ==> EndWord(r) == r
  {}

  lemma EndsWord(rest: string, r: Reader)
    requires !r.quoted
    ensures Read(" " + rest, r) == Read(rest, EndWord(r))
  {
    assert (" " + rest)[1..] == rest;
  }

  lemma {:induction false} ReadsLineAfter(args: seq<Word>, words: seq<string>)
    requires forall i :: 0 <= i < |args| ==> IsWord(args[i])
    ensures Read(Line(args), START.(words := words)) ==
            match LineRead(args) case None => None case Some(more) => Some(words + more)
    decreases |args|
  {
    hide IsWord, SpelledWord, WordRead, HasQuoted, Read, EndWord;
    if args == [] {
      assert words + [] == words;
      EndsLine(START.(words := words));
    } else {
      var w := WordRead(args[0]);
      var rest := if |args| == 1 then "" else " " + Line(args[1..]);
      assert Line(args) == SpelledWord(args[0]) + rest;
      ReadsWord(args[0], rest, START.(words := words));
      WordsAreNotEmpty(args[0]);
      if w.Some? {
        assert "" + w.value == w.value;
        var ended := Reader(words, w.value, true, false, HasQuoted(args[0]), false);
        EndsAWord(args[0], words);
        if |args| == 1 {
          EndsLine(ended);
          assert args[1..] == [];
          assert [w.value] + [] == [w.value];
        } else {
          EndsWord(Line(args[1..]), ended);
          ReadsLineAfter(args[1..], words + [w.value]);
          var more := LineRead(args[1..]);
          assert more.Some? ==> words + [w.value] + more.value == words + ([w.value] + more.value);
        }
      }
    }
  }

  lemma EndsAWord(w: Word, words: seq<string>)
    requires IsWord(w) && WordRead(w).Some?
    ensures EndWord(Reader(words, WordRead(w).value, true, false, HasQuoted(w), false)) == START.(words := words + [WordRead(w).value])
  {
    hide WordRead, IsWord, HasQuoted;
    if !HasQuoted(w) {
      NoBareSemicolon(w);
    }
  }

  lemma WordsAreNotEmpty(w: Word)
    requires IsWord(w)
    ensures w != []
  {}

  /** However hostile the values, a line reads as exactly the words it was written in
      or is refused: no value ever adds, splits or swallows a word. */
  lemma OneWordEach(args: seq<Word>)
    requires forall i :: 0 <= i < |args| ==> IsWord(args[i])
    ensures Read(Line(args), START) == LineRead(args)
    ensures Read(Line(args), START).Some? ==> |Read(Line(args), START).value| == |args|
  {
    hide Read, LineRead, Line, IsWord;
    ReadsLineAfter(args, []);
    assert START.(words := []) == START;
    assert LineRead(args).Some? ==> [] + LineRead(args).value == LineRead(args).value;
  }

  function PieceMeant(p: Piece): string {
    match p case Plain(text) => text case Quoted(value) => SanitizeValue(value)
  }

  function WordMeant(w: Word): string {
    if w == [] then "" else PieceMeant(w[0]) + WordMeant(w[1..])
  }

  function WordsMeant(args: seq<Word>): seq<string> {
    if args == [] then [] else [WordMeant(args[0])] + WordsMeant(args[1..])
  }

  ghost predicate NoDollar(w: Word) {
    forall i :: 0 <= i < |w| ==> w[i].Quoted? ==> '$' !in w[i].value
  }

  /** Each word is its pieces, the values without their control characters, exactly
      when no value contains a `$`: the one character quoting leaves alone. */
  lemma LineReadsBackIffNoDollar(args: seq<Word>)
    requires forall i :: 0 <= i < |args| ==> IsWord(args[i])
    ensures Read(Line(args), START) == Some(WordsMeant(args)) <==> forall i :: 0 <= i < |args| ==> NoDollar(args[i])
  {
    hide Read, Line, IsWord, NoDollar, LineRead, WordsMeant;
    OneWordEach(args);
    LineReadIff(args);
  }

  /** A lone `$` in a value is left to the reader, which refuses the line. */
  lemma DollarIsRefused()
    ensures Read(Line([[Quoted("$")]]), START) == None
  {
    hide Read, Line, IsControl;
    var args := [[Quoted("$")]];
    assert !IsControl('$') by { DollarIsNoControl(); }
    assert SanitizeValue("$") == "$";
    assert PieceRead(args[0][0]) == None;
    OneWordEach(args);
  }

  lemma DollarIsNoControl()
    ensures !IsControl('$')
  {}

  lemma {:induction false} LineReadIff(args: seq<Word>)
    ensures LineRead(args) == Some(WordsMeant(args)) <==> forall i :: 0 <= i < |args| ==> NoDollar(args[i])
  {
    hide NoDollar, WordRead, WordMeant;
    if args != [] {
      var rest := args[1..];
      LineReadIff(rest);
      WordReadIff(args[0]);
      assert forall i :: 0 <= i < |rest| ==> rest[i] == args[i + 1];
      assert WordsMeant(args)[0] == WordMeant(args[0]) && WordsMeant(args)[1..] == WordsMeant(rest);
      if LineRead(args).Some? {
        assert LineRead(args).value[0] == WordRead(args[0]).value && LineRead(args).value[1..] == LineRead(rest).value;
      }
    }
  }

  /** Reading can only shorten a word, and does when a value holds a `$`. */
  lemma {:induction false} WordReadIff(w: Word)
    ensures WordRead(w) == Some(WordMeant(w)) <==> NoDollar(w)
    ensures WordRead(w).Some? ==> |WordRead(w).value| <= |WordMeant(w)|
    ensures WordRead(w).Some? && !NoDollar(w) ==> |WordRead(w).value| < |WordMeant(w)|
  {
    if w != [] {
      hide PieceRead, PieceMeant;
      WordReadIff(w[1..]);
      PieceReadIff(w[0]);
      assert forall i :: 0 <= i < |w[1..]| ==> w[1..][i] == w[i + 1];
      assert NoDollar(w) <==> NoDollar(w[1..]) && (w[0].Quoted? ==> '$' !in w[0].value);
    }
  }

  lemma PieceReadIff(p: Piece)
    ensures p.Quoted? && '$' in p.value && PieceRead(p).Some? ==> |PieceRead(p).value| < |PieceMeant(p)|
    ensures !(p.Quoted? && '$' in p.value) ==> PieceRead(p) == Some(PieceMeant(p))
  {
    hide Dollars, SanitizeValue;
    if p.Quoted? {
      DollarsKeepsIff(SanitizeValue(p.value));
      SanitizeKeepsDollars(p.value);
    }
  }

  lemma {:induction false} SanitizeKeepsDollars(value: string)
    ensures '$' in SanitizeValue(value) <==> '$' in value
  {
    if value != [] {
      SanitizeKeepsDollars(value[1..]);
      assert value == [value[0]] + value[1..];
    }
  }

  /** A quoted value is one line: no character that could end it. */
  lemma {:induction false} QuotedIsOneLine(value: string)
    ensures forall i :: 0 <= i < |QuotePodmanArgValue(value)| ==> !IsControl(QuotePodmanArgValue(value)[i])
  {
    hide IsControl, QuotePodmanArgValue;
    QuotedIsEscaped(value);
    EscapedIsOneLine(SanitizeValue(value));
    assert !IsControl('"') by { PrintableIsNoControl(); }
  }

  lemma PrintableIsNoControl()
    ensures !IsControl('"') && !IsControl('%') && !IsControl('\\')
  {}

  lemma {:induction false} EscapedIsOneLine(t: string)
    requires forall i :: 0 <= i < |t| ==> !IsControl(t[i])
    ensures forall i :: 0 <= i < |EscapeAll(t)| ==> !IsControl(EscapeAll(t)[i])
  {
    hide IsControl;
    if t != [] {
      PrintableIsNoControl();
      EscapedIsOneLine(t[1..]);
    }
  }

  // ----- what the reader refuses -----

  lemma {:induction false} SemicolonIsRemembered(chars: string, r: Reader)
    requires r.bareSemicolon
    ensures Read(chars, r) == None
    decreases |chars|
  {
    if chars != [] {
      hide IsWhitespace;
      var c := chars[0];
      if c == '"' {
        SemicolonIsRemembered(chars[1..], r.(quoted := !r.quoted, inWord := true, curQuoted := true));
      } else if c == '\\' && r.quoted {
        if |chars| > 1 {
          SemicolonIsRemembered(chars[2..], r.(cur := r.cur + [Meant(chars[1])]));
        }
      } else if c == '%' || c == '$' {
        if |chars| > 1 && chars[1] == c {
          SemicolonIsRemembered(chars[2..], r.(cur := r.cur + [c], inWord := true));
        }
      } else if IsWhitespace(c) && !r.quoted {
        SemicolonIsRemembered(chars[1..], EndWord(r));
      } else {
        SemicolonIsRemembered(chars[1..], r.(cur := r.cur + [c], inWord := true));
      }
    }
  }

  /** A semicolon that is a word of its own is refused, wherever a word may start, but
      not when it is quoted. */
  lemma BareSemicolonIsRefused(r: Reader, blank: char, rest: string)
    requires !r.inWord && !r.quoted && r.cur == "" && !r.curQuoted && IsWhitespace(blank)
    ensures Read(";", r) == None && Read(";" + [blank] + rest, r) == None
    ensures Read("\";\"", r) == if r.bareSemicolon then None else Some(r.words + [";"])
  {
    assert !IsWhitespace(';');
    hide IsWhitespace;
    var word := r.(cur := ";", inWord := true);
    assert r.cur + [';'] == ";";
    assert ";"[1..] == "";
    var text := ";" + [blank] + rest;
    assert text[1..] == [blank] + rest && ([blank] + rest)[1..] == rest;
    BlankIsNoMark(blank);
    SemicolonIsRemembered(rest, EndWord(word));
    assert "\";\""[1..] == ";\"" && ";\""[1..] == "\"" && "\""[1..] == "";
  }

  lemma BlankIsNoMark(c: char)
    requires IsWhitespace(c)
    ensures c !in {'"', '\\', '%', '$'}
  {}

  /** A `%` or a `$` that is not doubled is refused, in quotes or out of them; a doubled
      one is one. */
  lemma LoneMarksAreRefused(r: Reader, mark: char, rest: string)
    requires mark in {'%', '$'}
    ensures rest == "" || rest[0] != mark ==> Read([mark] + rest, r) == None
    ensures Read([mark, mark] + rest, r) == Read(rest, r.(cur := r.cur + [mark], inWord := true))
  {
    var (one, two) := ([mark] + rest, [mark, mark] + rest);
    assert rest != "" ==> one[1] == rest[0];
    assert two[2..] == rest;
  }

  /** Inside quotes a backslash hides the next character: three letters stand for a line
      feed, a tab and a carriage return, any other for itself; nothing behind it, and an
      open quote at the end, are refused. */
  lemma EscapesAreRead(r: Reader, c: char, rest: string)
    requires r.quoted
    ensures var meant := if c == 'n' then '\n' else if c == 't' then '\t' else if c == 'r' then '\r' else c;
            Read(['\\', c] + rest, r) == Read(rest, r.(cur := r.cur + [meant]))
    ensures Read("\\", r) == None && Read("", r) == None
  {
    assert (['\\', c] + rest)[2..] == rest;
  }

  // ----- the reader as it runs -----

  method ParseExec(line: string) returns (result: Option<seq<string>>)
    ensures result == Read(line, START)
  {
    hide IsWhitespace;
    var words: seq<string> := [];
    var cur, inWord, quoted := "", false, false;
    var bareSemicolon, curQuoted := false, false;
    var chars := line;
    while chars != []
      invariant Read(chars, Reader(words, cur, inWord, quoted, curQuoted, bareSemicolon)) == Read(line, START)
      decreases |chars|
    {
      var c := chars[0];
      if c == '"' {
        quoted, inWord, curQuoted := !quoted, true, true;
        chars := chars[1..];
      } else if c == '\\' && quoted {
        if |chars| == 1 {
          return None;
        }
        cur := cur + [Meant(chars[1])];
        chars := chars[2..];
      } else if c == '%' || c == '$' {
        if |chars| == 1 || chars[1] != c {
          return None;
        }
        cur, inWord := cur + [c], true;
        chars := chars[2..];
      } else if IsWhitespace(c) && !quoted {
        if inWord {
          bareSemicolon := bareSemicolon || (cur == ";" && !curQuoted);
          words, cur := words + [cur], "";
          inWord, curQuoted := false, false;
        }
        chars := chars[1..];
      } else {
        cur, inWord := cur + [c], true;
        chars := chars[1..];
      }
    }
    if quoted {
      return None;
    }
    if inWord {
      bareSemicolon := bareSemicolon || (cur == ";" && !curQuoted);
      words := words + [cur];
    }
    return if bareSemicolon then None else Some(words);
  }
}
