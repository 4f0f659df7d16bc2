/** The dotenv parser behind `.env`, `--env-file` and a service's `env_file:`:
    comments, an `export` prefix, quoted values that may run over several lines, and
    a strict mode that refuses a quote which never closes. */
module Dotenv {
  import opened Prelude
  import opened Utf8

  type Pair = (string, string)

  datatype DotenvError = Unterminated(key: string)

  const BOM: char := '\U{feff}'

  // ----- quotes -----

  function Shift(r: Option<nat>, k: nat): Option<nat> {
    match r case None => None case Some(i) => Some(i + k)
  }

  /** Where a quoted text closes. Inside double quotes a backslash hides whatever
      character follows it. */
  function Closing(s: string, quote: char): (r: Option<nat>)
    ensures r.Some? ==> r.value < |s| && s[r.value] == quote
  {
    if s == [] then None
    else if quote == '"' && s[0] == '\\' then
      if |s| == 1 then None else Shift(Closing(s[2..], quote), 2)
    else if s[0] == quote then Some(0)
    else Shift(Closing(s[1..], quote), 1)
  }

  function Unescaped(c: char): char {
    if c == 'n' then '\n' else if c == 'r' then '\r' else if c == 't' then '\t' else c
  }

  function UnescapeDouble(s: string): string {
    if s == [] then ""
    else if s[0] != '\\' then [s[0]] + UnescapeDouble(s[1..])
    else if |s| == 1 then "\\"
    else [Unescaped(s[1])] + UnescapeDouble(s[2..])
  }

  function Unescape(s: string, quote: char): string {
    if quote == '\'' then s else UnescapeDouble(s)
  }

  // ----- values -----

  predicate IsAsciiWhitespace(c: char) {
    c == ' ' || c == '\t' || c == '\n' || c as int == 0x0c || c == '\r'
  }

  /** Where an inline comment starts; `blank` says that white space was just read. */
  function CommentStart(s: string, blank: bool): (r: Option<nat>)
    ensures r.Some? ==> r.value < |s| && s[r.value] == '#'
  {
    if s == [] then None
    else if s[0] == '#' && blank then Some(0)
    else Shift(CommentStart(s[1..], IsAsciiWhitespace(s[0])), 1)
  }

  function StripInlineComment(s: string): string {
    match CommentStart(s, false) case None => s case Some(i) => s[..i]
  }

  /** A value and the lines left after it. */
  type Taken = (string, seq<string>)

  /** Lines are taken until the quote closes; `buf` is what was read so far. */
  function Continue(buf: string, lines: seq<string>, quote: char, key: string, strict: bool): (r: Result<Taken, DotenvError>)
    ensures r.Ok? ==> |r.value.1| <= |lines|
    ensures !strict ==> r.Ok?
    decreases |lines|
  {
    if lines == [] then
      if strict then Err(Unterminated(key)) else Ok((Unescape(buf, quote), []))
    else
      match Closing(lines[0], quote)
      case Some(end) => Ok((Unescape(buf + "\n" + lines[0][..end], quote), lines[1..]))
      case None => Continue(buf + "\n" + lines[0], lines[1..], quote, key, strict)
  }

  function Quoted(body: string, lines: seq<string>, quote: char, key: string, strict: bool): (r: Result<Taken, DotenvError>)
    ensures r.Ok? ==> |r.value.1| <= |lines|
    ensures !strict ==> r.Ok?
  {
    match Closing(body, quote)
    case Some(end) => Ok((Unescape(body[..end], quote), lines))
    case None => Continue(body, lines, quote, key, strict)
  }

  predicate IsQuote(c: char) {
    c == '"' || c == '\''
  }

  function ParseValue(rest: string, lines: seq<string>, key: string, strict: bool): (r: Result<Taken, DotenvError>)
    ensures r.Ok? ==> |r.value.1| <= |lines|
    ensures !strict ==> r.Ok?
  {
    if rest != [] && IsQuote(rest[0]) then Quoted(rest[1..], lines, rest[0], key, strict)
    else Ok((TrimEnd(StripInlineComment(rest)), lines))
  }

  // ----- lines -----

  datatype Line = Skip | Bare(key: string) | Assign(key: string, rest: string)

  function WithoutExport(line: string): string {
    match StripPrefix(line, "export ") case None => line case Some(rest) => TrimStart(rest)
  }

  /** What a line that starts an entry says. */
  function ReadLine(raw: string): Line {
    var trimmed := TrimStart(raw);
    if trimmed == [] || trimmed[0] == '#' then Skip
    else
      var line := WithoutExport(trimmed);
      match IndexOf(line, '=')
      case None => if Trim(line) == "" then Skip else Bare(Trim(line))
      case Some(eq) =>
        if Trim(line[..eq]) == "" then Skip else Assign(Trim(line[..eq]), TrimStart(line[eq + 1..]))
  }

  function Before(first: seq<Pair>, r: Result<seq<Pair>, DotenvError>): Result<seq<Pair>, DotenvError> {
    match r case Ok(rest) => Ok(first + rest) case Err(e) => Err(e)
  }

  /** The entries of a file, in order; a bare key takes its value from the host. */
  function Entries(host: map<string, string>, lines: seq<string>, strict: bool): (r: Result<seq<Pair>, DotenvError>)
    ensures !strict ==> r.Ok?
    decreases |lines|
  {
    if lines == [] then Ok([])
    else
      match ReadLine(lines[0])
      case Skip => Entries(host, lines[1..], strict)
      case Bare(key) => Before(if key in host then [(key, host[key])] else [], Entries(host, lines[1..], strict))
      case Assign(key, rest) =>
        match ParseValue(rest, lines[1..], key, strict)
        case Err(e) => Err(e)
        case Ok((value, left)) => Before([(key, value)], Entries(host, left, strict))
  }

  function StripBom(content: string): string {
    match StripPrefix(content, [BOM]) case None => content case Some(rest) => rest
  }

  /** `parse_inner` */
  function Parse(host: map<string, string>, content: string, strict: bool): (r: Result<seq<Pair>, DotenvError>)
    ensures !strict ==> r.Ok?
  {
    Entries(host, Lines(StripBom(content)), strict)
  }

  // ----- line by line is one scan -----

  function Joined(first: string, lines: seq<string>): string
    decreases |lines|
  {
    if lines == [] then first else first + "\n" + Joined(lines[0], lines[1..])
  }

  function Newlines(s: string): nat {
    if s == [] then 0 else (if s[0] == '\n' then 1 else 0) + Newlines(s[1..])
  }

  lemma ClosingAfterBackslash(c: char, more: string)
    ensures Closing(['\\', c] + more, '"') == Shift(Closing(more, '"'), 2)
  {
    assert (['\\', c] + more)[2..] == more;
  }

  lemma ClosingAfter(c: char, more: string, quote: char)
    requires c != quote && !(quote == '"' && c == '\\')
    ensures Closing([c] + more, quote) == Shift(Closing(more, quote), 1)
  {
    assert ([c] + more)[1..] == more;
  }

  /** A line that does not close is stepped over, newline included, even when it
      ends in a backslash: that backslash hides the newline and nothing else. */
  lemma {:induction false} ClosingAcrossLines(line: string, more: string, quote: char)
    requires IsQuote(quote)
    ensures Closing(line + "\n" + more, quote) ==
            match Closing(line, quote) case Some(end) => Some(end) case None => Shift(Closing(more, quote), |line| + 1)
    decreases |line|, 1
  {
    if line == [] {
      assert line + "\n" + more == ['\n'] + more;
      ClosingAfter('\n', more, quote);
    } else if quote == '"' && line[0] == '\\' {
      if |line| == 1 {
        assert line + "\n" + more == ['\\', '\n'] + more;
        ClosingAfterBackslash('\n', more);
      } else {
        ClosingPastHidden(line, more);
      }
    } else if line[0] != quote {
      ClosingPastOther(line, more, quote);
    }
  }

  lemma {:induction false} ClosingPastHidden(line: string, more: string)
    requires |line| > 1 && line[0] == '\\'
    ensures Closing(line + "\n" + more, '"') ==
            match Closing(line, '"') case Some(end) => Some(end) case None => Shift(Closing(more, '"'), |line| + 1)
    decreases |line|, 0
  {
    hide Closing;
    var rest := line[2..];
    assert line + "\n" + more == ['\\', line[1]] + (rest + "\n" + more);
    assert line == ['\\', line[1]] + rest;
    ClosingAfterBackslash(line[1], rest + "\n" + more);
    ClosingAfterBackslash(line[1], rest);
    ClosingAcrossLines(rest, more, '"');
  }

  lemma {:induction false} ClosingPastOther(line: string, more: string, quote: char)
    requires IsQuote(quote) && line != [] && line[0] != quote && !(quote == '"' && line[0] == '\\')
    ensures Closing(line + "\n" + more, quote) ==
            match Closing(line, quote) case Some(end) => Some(end) case None => Shift(Closing(more, quote), |line| + 1)
    decreases |line|, 0
  {
    hide Closing;
    var rest := line[1..];
    assert line + "\n" + more == [line[0]] + (rest + "\n" + more);
    assert line == [line[0]] + rest;
    ClosingAfter(line[0], rest + "\n" + more, quote);
    ClosingAfter(line[0], rest, quote);
    ClosingAcrossLines(rest, more, quote);
  }

  lemma {:induction false} NewlinesAcrossLines(line: string, more: string)
    requires '\n' !in line
    ensures Newlines(line) == 0
    ensures Newlines(line + "\n" + more) == 1 + Newlines(more)
  {
    var text := line + "\n" + more;
    if line == [] {
      assert text[1..] == more;
    } else {
      assert text[1..] == line[1..] + "\n" + more;
      assert line[0] in line;
      NewlinesAcrossLines(line[1..], more);
    }
  }

  lemma NoNewlinesInPrefix(line: string, end: nat)
    requires '\n' !in line && end <= |line|
    ensures Newlines(line[..end]) == 0
  {
    NewlinesAcrossLines(line[..end], "");
  }

  /** Reading a quoted value line by line gives what one scan over the lines joined
      with newlines gives: the same closing quote, the same decoded value, and it
      uses up exactly the lines that scan ran through. */
  lemma {:induction false} QuotedIsOneScan(body: string, lines: seq<string>, quote: char, key: string, strict: bool)
    requires IsQuote(quote) && '\n' !in body && OnOneLine(lines)
    ensures var text := Joined(body, lines);
            match Closing(text, quote)
            case Some(end) =>
              && Newlines(text[..end]) <= |lines|
              && Quoted(body, lines, quote, key, strict) == Ok((Unescape(text[..end], quote), lines[Newlines(text[..end])..]))
            case None =>
              Quoted(body, lines, quote, key, strict) == if strict then Err(Unterminated(key)) else Ok((Unescape(text, quote), []))
  {
    hide Unescape, Closing, Newlines;
    var text := Joined(body, lines);
    if lines == [] {
      if Closing(body, quote).Some? {
        NoNewlinesInPrefix(body, Closing(body, quote).value);
      }
    } else {
      var more := Joined(lines[0], lines[1..]);
      ClosingAcrossLines(body, more, quote);
      match Closing(body, quote) {
        case Some(end) =>
          assert text[..end] == body[..end];
          NoNewlinesInPrefix(body, end);
        case None =>
          ContinueIsOneScan(body, lines, quote, key, strict);
          if Closing(more, quote).Some? {
            var end := Closing(more, quote).value;
            assert text[..|body| + 1 + end] == body + "\n" + more[..end];
            NewlinesAcrossLines(body, more[..end]);
          }
      }
    }
  }

  lemma {:induction false} ContinueIsOneScan(buf: string, lines: seq<string>, quote: char, key: string, strict: bool)
    requires IsQuote(quote) && lines != [] && OnOneLine(lines)
    ensures var text := Joined(lines[0], lines[1..]);
            match Closing(text, quote)
            case Some(end) =>
              && Newlines(text[..end]) < |lines|
              && Continue(buf, lines, quote, key, strict) == Ok((Unescape(buf + "\n" + text[..end], quote), lines[1 + Newlines(text[..end])..]))
            case None =>
              Continue(buf, lines, quote, key, strict) == if strict then Err(Unterminated(key)) else Ok((Unescape(buf + "\n" + text, quote), []))
    decreases |lines|
  {
    hide Unescape, Closing, Newlines;
    var (line, rest) := (lines[0], lines[1..]);
    var text := Joined(line, rest);
    if rest == [] {
      if Closing(line, quote).Some? {
        NoNewlinesInPrefix(line, Closing(line, quote).value);
      }
    } else {
      var more := Joined(rest[0], rest[1..]);
      ClosingAcrossLines(line, more, quote);
      match Closing(line, quote) {
        case Some(end) =>
          assert text[..end] == line[..end];
          NoNewlinesInPrefix(line, end);
        case None =>
          ContinueIsOneScan(buf + "\n" + line, rest, quote, key, strict);
          assert buf + "\n" + line + "\n" + more == buf + "\n" + text;
          if Closing(more, quote).Some? {
            var end := Closing(more, quote).value;
            assert text[..|line| + 1 + end] == line + "\n" + more[..end];
            NewlinesAcrossLines(line, more[..end]);
            assert buf + "\n" + line + "\n" + more[..end] == buf + "\n" + text[..|line| + 1 + end];
            assert rest[1 + Newlines(more[..end])..] == lines[2 + Newlines(more[..end])..];
          }
      }
    }
  }

  // ----- parts of a file -----

  /** What comes before does not depend on what comes after, once it parses in
      strict mode: a file cut between entries parses as its parts do. */
  lemma {:induction false} EntriesOfParts(host: map<string, string>, a: seq<string>, b: seq<string>, strict: bool)
    requires Entries(host, a, true).Ok?
    ensures Entries(host, a + b, strict) == Before(Entries(host, a, true).value, Entries(host, b, strict))
    decreases |a|
  {
    hide ReadLine, ParseValue;
    if a == [] {
      assert a + b == b;
      assert Entries(host, b, strict).Ok? ==> [] + Entries(host, b, strict).value == Entries(host, b, strict).value;
    } else {
      assert (a + b)[1..] == a[1..] + b;
      match ReadLine(a[0]) {
        case Skip =>
          EntriesOfParts(host, a[1..], b, strict);
        case Bare(key) =>
          EntriesOfParts(host, a[1..], b, strict);
          BeforeTwice(if key in host then [(key, host[key])] else [], Entries(host, a[1..], true).value, Entries(host, b, strict));
        case Assign(key, rest) =>
          ValueOfParts(rest, a[1..], b, key, strict);
          var (value, left) := ParseValue(rest, a[1..], key, true).value;
          EntriesOfParts(host, left, b, strict);
          BeforeTwice([(key, value)], Entries(host, left, true).value, Entries(host, b, strict));
      }
    }
  }

  lemma BeforeTwice(x: seq<Pair>, y: seq<Pair>, r: Result<seq<Pair>, DotenvError>)
    ensures Before(x, Before(y, r)) == Before(x + y, r)
  {
    if r.Ok? {
      assert x + (y + r.value) == x + y + r.value;
    }
  }

  lemma {:induction false} ValueOfParts(rest: string, a: seq<string>, b: seq<string>, key: string, strict: bool)
    requires ParseValue(rest, a, key, true).Ok?
    ensures var (value, left) := ParseValue(rest, a, key, true).value;
            ParseValue(rest, a + b, key, strict) == Ok((value, left + b))
  {
    if rest != [] && IsQuote(rest[0]) && Closing(rest[1..], rest[0]).None? {
      ContinueOfParts(rest[1..], a, b, rest[0], key, strict);
    }
  }

  lemma {:induction false} ContinueOfParts(buf: string, a: seq<string>, b: seq<string>, quote: char, key: string, strict: bool)
    requires Continue(buf, a, quote, key, true).Ok?
    ensures var (value, left) := Continue(buf, a, quote, key, true).value;
            Continue(buf, a + b, quote, key, strict) == Ok((value, left + b))
    decreases |a|
  {
    assert (a + b)[1..] == a[1..] + b;
    if Closing(a[0], quote).None? {
      ContinueOfParts(buf + "\n" + a[0], a[1..], b, quote, key, strict);
    }
  }

  /** When strict mode accepts a file it reads what lenient mode reads. */
  lemma StrictAgreesWithLenient(host: map<string, string>, content: string)
    requires Parse(host, content, true).Ok?
    ensures Parse(host, content, false) == Parse(host, content, true)
  {
    var lines := Lines(StripBom(content));
    EntriesOfParts(host, lines, [], false);
    assert lines + [] == lines;
    assert Entries(host, lines, true).value + [] == Entries(host, lines, true).value;
  }

  /** The first of these lines assigns a quoted value whose quote never closes, in
      one scan over everything that is left. */
  predicate OpensForGood(lines: seq<string>) {
    && lines != []
    && var line := ReadLine(lines[0]);
    && line.Assign? && line.rest != [] && IsQuote(line.rest[0])
    && Closing(Joined(line.rest[1..], lines[1..]), line.rest[0]).None?
  }

  /** An entry starts at line `k`, and its quoted value is still open at the end of
      the file. */
  predicate UnclosedFrom(host: map<string, string>, lines: seq<string>, k: nat)
    requires k <= |lines|
  {
    Entries(host, lines[..k], true).Ok? && OpensForGood(lines[k..])
  }

  ghost predicate SomeQuoteStaysOpen(host: map<string, string>, lines: seq<string>) {
    exists k: nat :: k <= |lines| && UnclosedFrom(host, lines, k)
  }

  /** Strict mode fails exactly when some quoted value reaches the end unclosed. */
  lemma StrictFailsOnlyForAnOpenQuote(host: map<string, string>, content: string)
    ensures Parse(host, content, true).Err? <==> SomeQuoteStaysOpen(host, Lines(StripBom(content)))
  {
    hide Lines, StripBom, Entries, SomeQuoteStaysOpen;
    LinesAreSingle(StripBom(content));
    StrictFailsOnlyAtAnOpenLine(host, Lines(StripBom(content)));
  }

  lemma StrictFailsOnlyAtAnOpenLine(host: map<string, string>, lines: seq<string>)
    requires OnOneLine(lines)
    ensures Entries(host, lines, true).Err? <==> SomeQuoteStaysOpen(host, lines)
  {
    hide Entries, OpensForGood;
    FailsOnlyAtAnOpenLine(host, lines);
    forall k: nat | k <= |lines| && UnclosedFrom(host, lines, k) ensures Entries(host, lines, true).Err? {
      assert lines == lines[..k] + lines[k..];
      EntriesOfParts(host, lines[..k], lines[k..], true);
      OpenQuoteFails(host, lines[k..]);
    }
  }

  lemma ReadLineStaysOnTheLine(raw: string)
    requires '\n' !in raw
    ensures ReadLine(raw).Assign? ==> '\n' !in ReadLine(raw).rest && '\n' !in ReadLine(raw).key
    ensures ReadLine(raw).Bare? ==> '\n' !in ReadLine(raw).key
  {
    hide TrimStart, TrimEnd, IndexOf;
    var line := WithoutExport(TrimStart(raw));
    assert '\n' !in line;
    var eq := IndexOf(line, '=');
    if eq.Some? {
      PartOfLine(line[..eq.value]);
      assert '\n' !in line[..eq.value];
      assert '\n' !in line[eq.value + 1..];
    }
    PartOfLine(line);
  }

  lemma PartOfLine(s: string)
    requires '\n' !in s
    ensures '\n' !in Trim(s)
  {
    hide TrimStart, TrimEnd;
    assert '\n' !in TrimStart(s);
    assert TrimEnd(TrimStart(s)) <= TrimStart(s);
  }

  lemma OpenQuoteFails(host: map<string, string>, lines: seq<string>)
    requires OnOneLine(lines)
    ensures OpensForGood(lines) ==> Entries(host, lines, true).Err?
  {
    hide ReadLine, Closing;
    if OpensForGood(lines) {
      var line := ReadLine(lines[0]);
      ReadLineStaysOnTheLine(lines[0]);
      QuotedIsOneScan(line.rest[1..], lines[1..], line.rest[0], line.key, true);
    }
  }

  /** The line whose entry strict mode refuses opens a quote for good. */
  lemma {:induction false} FailsOnlyAtAnOpenLine(host: map<string, string>, lines: seq<string>)
    requires OnOneLine(lines)
    ensures Entries(host, lines, true).Err? ==> SomeQuoteStaysOpen(host, lines)
    decreases |lines|
  {
    hide ReadLine, ParseValue, UnclosedFrom, OpensForGood;
    if Entries(host, lines, true).Err? {
      var line := ReadLine(lines[0]);
      if line.Assign? && ParseValue(line.rest, lines[1..], line.key, true).Err? {
        ValueFailsOnlyOpen(lines);
        FailsAtOnce(host, lines);
        assert UnclosedFrom(host, lines, 0);
      } else {
        var n := 1;
        if line.Assign? {
          var (value, left) := ParseValue(line.rest, lines[1..], line.key, true).value;
          ValueTakesAPrefix(line.rest, lines[1..], line.key);
          n := |lines| - |left|;
          assert lines[1..][n - 1..] == lines[n..];
          assert lines[1..][..n - 1] == lines[1..n];
        }
        FailsOnlyAtAnOpenLine(host, lines[n..]);
        var j: nat :| j <= |lines[n..]| && UnclosedFrom(host, lines[n..], j);
        assert Entries(host, lines[..n], true).Ok? by {
          assert lines[..n][1..] == lines[1..n];
          assert Entries(host, [], true).Ok?;
        }
        OpenAfterLinesThatParse(host, lines, n, j);
        assert UnclosedFrom(host, lines, n + j);
      }
    }
  }

  lemma FailsAtOnce(host: map<string, string>, lines: seq<string>)
    ensures OpensForGood(lines) ==> UnclosedFrom(host, lines, 0)
  {
    hide OpensForGood;
    assert lines[..0] == [] && lines[0..] == lines;
  }

  lemma ValueFailsOnlyOpen(lines: seq<string>)
    requires lines != [] && OnOneLine(lines)
    ensures var line := ReadLine(lines[0]);
            line.Assign? && ParseValue(line.rest, lines[1..], line.key, true).Err? ==> OpensForGood(lines)
  {
    hide ReadLine, Closing, Quoted, Joined;
    var line := ReadLine(lines[0]);
    ReadLineStaysOnTheLine(lines[0]);
    if line.Assign? && ParseValue(line.rest, lines[1..], line.key, true).Err? {
      QuotedIsOneScan(line.rest[1..], lines[1..], line.rest[0], line.key, true);
    }
  }

  /** A value that parses uses up lines from the front, and needs no others. */
  lemma {:induction false} ValueTakesAPrefix(rest: string, lines: seq<string>, key: string)
    requires ParseValue(rest, lines, key, true).Ok?
    ensures var (value, left) := ParseValue(rest, lines, key, true).value;
            var used := |lines| - |left|;
            left == lines[used..] && ParseValue(rest, lines[..used], key, true) == Ok((value, []))
  {
    if rest != [] && IsQuote(rest[0]) && Closing(rest[1..], rest[0]).None? {
      ContinueTakesAPrefix(rest[1..], lines, rest[0], key);
    }
  }

  lemma {:induction false} ContinueTakesAPrefix(buf: string, lines: seq<string>, quote: char, key: string)
    requires Continue(buf, lines, quote, key, true).Ok?
    ensures var (value, left) := Continue(buf, lines, quote, key, true).value;
            var used := |lines| - |left|;
            && used > 0 && left == lines[used..]
            && Continue(buf, lines[..used], quote, key, true) == Ok((value, []))
    decreases |lines|
  {
    if Closing(lines[0], quote).None? {
      ContinueTakesAPrefix(buf + "\n" + lines[0], lines[1..], quote, key);
      var left := Continue(buf, lines, quote, key, true).value.1;
      var used := |lines| - |left|;
      assert lines[..used][1..] == lines[1..][..used - 1];
    }
  }

  /** Lines that parse come before a line that opens a quote for good. */
  lemma OpenAfterLinesThatParse(host: map<string, string>, lines: seq<string>, n: nat, j: nat)
    requires n <= |lines| && j <= |lines| - n
    ensures Entries(host, lines[..n], true).Ok? && UnclosedFrom(host, lines[n..], j) ==> UnclosedFrom(host, lines, n + j)
  {
    hide OpensForGood, Entries;
    assert lines[n..][j..] == lines[n + j..];
    if Entries(host, lines[..n], true).Ok? {
      EntriesOfParts(host, lines[..n], lines[n..][..j], true);
    }
    assert lines[..n + j] == lines[..n] + lines[n..][..j];
  }

  // ----- every value can be written -----

  function EscapeChar(c: char): string {
    if c == '\n' then "\\n"
    else if c == '\r' then "\\r"
    else if c == '\t' then "\\t"
    else if c == '"' || c == '\\' then ['\\', c]
    else [c]
  }

  function Escape(v: string): string {
    if v == [] then "" else EscapeChar(v[0]) + Escape(v[1..])
  }

  /** `export KEY="VALUE"`, the value escaped. */
  function Assignment(pair: Pair): string {
    "export " + pair.0 + "=\"" + Escape(pair.1) + "\""
  }

  function File(pairs: seq<Pair>): string {
    if pairs == [] then "" else Assignment(pairs[0]) + "\n" + File(pairs[1..])
  }

  /** What a key can be: not blank, no white space at either end, no `=`, one line. */
  predicate GoodKey(key: string) {
    key != "" && IsTrimmed(key) && '=' !in key && '\n' !in key
  }

  ghost predicate GoodKeys(pairs: seq<Pair>) {
    forall i :: 0 <= i < |pairs| ==> GoodKey(pairs[i].0)
  }

  lemma EscapeCharReadsBack(c: char, rest: string)
    ensures UnescapeDouble(EscapeChar(c) + rest) == [c] + UnescapeDouble(rest)
    ensures Closing(EscapeChar(c) + rest, '"') == Shift(Closing(rest, '"'), |EscapeChar(c)|)
    ensures '\n' !in EscapeChar(c)
  {
    assert (EscapeChar(c) + rest)[|EscapeChar(c)|..] == rest;
  }

  lemma {:induction false} EscapeDecodes(v: string)
    ensures UnescapeDouble(Escape(v)) == v
  {
    if v != [] {
      hide EscapeChar, UnescapeDouble;
      EscapeDecodes(v[1..]);
      EscapeCharReadsBack(v[0], Escape(v[1..]));
      assert [v[0]] + v[1..] == v;
    }
  }

  lemma {:induction false} EscapeCloses(v: string)
    ensures Closing(Escape(v) + "\"", '"') == Some(|Escape(v)|)
  {
    if v == [] {
      assert Escape(v) + "\"" == "\"";
    } else {
      hide EscapeChar, Closing;
      EscapeCloses(v[1..]);
      EscapeCharReadsBack(v[0], Escape(v[1..]) + "\"");
      assert Escape(v) + "\"" == EscapeChar(v[0]) + (Escape(v[1..]) + "\"");
    }
  }

  lemma {:induction false} EscapeIsOneLine(v: string)
    ensures '\n' !in Escape(v)
  {
    if v != [] {
      EscapeIsOneLine(v[1..]);
      assert '\n' !in EscapeChar(v[0]);
    }
  }

  /** An escaped value closes where it should and reads back. */
  lemma EscapeReadsBack(v: string)
    ensures UnescapeDouble(Escape(v)) == v
    ensures Closing(Escape(v) + "\"", '"') == Some(|Escape(v)|)
    ensures '\n' !in Escape(v)
  {
    EscapeDecodes(v);
    EscapeCloses(v);
    EscapeIsOneLine(v);
  }

  lemma TrimStartKeeps(s: string)
    requires s == [] || !IsWhitespace(s[0])
    ensures TrimStart(s) == s
  {}

  lemma ExportIsStripped(line: string)
    requires line != [] && !IsWhitespace(line[0])
    ensures TrimStart("export " + line) == "export " + line
    ensures WithoutExport("export " + line) == line
  {
    hide TrimStart, IsWhitespace;
    var text := "export " + line;
    assert text[0] == 'e';
    assert !IsWhitespace('e') by { LettersAreNotBlank(); }
    TrimStartKeeps(text);
    assert text[|"export "|..] == line;
    TrimStartKeeps(line);
  }

  lemma LettersAreNotBlank()
    ensures !IsWhitespace('e') && !IsWhitespace('"')
  {}

  lemma ReadLineIs(raw: string, line: string, eq: nat)
    requires TrimStart(raw) != [] && TrimStart(raw)[0] != '#' && WithoutExport(TrimStart(raw)) == line
    requires eq < |line| && IndexOf(line, '=') == Some(eq) && Trim(line[..eq]) != ""
    ensures ReadLine(raw) == Assign(Trim(line[..eq]), TrimStart(line[eq + 1..]))
  {
    hide Trim, TrimStart, IndexOf, WithoutExport;
  }

  lemma CutAtEquals(line: string, key: string, body: string)
    requires line == key + ['='] + body && '=' !in key
    ensures |key| < |line| && IndexOf(line, '=') == Some(|key|) && line[..|key|] == key && line[|key| + 1..] == body
  {
    hide IndexOf;
    IndexOfFirst(key, '=', body);
  }

  lemma LineOfParts(raw: string, line: string, key: string, body: string)
    requires GoodKey(key) && body != [] && !IsWhitespace(body[0]) && line == key + ['='] + body
    requires raw != [] && raw[0] != '#' && TrimStart(raw) == raw && WithoutExport(raw) == line
    ensures ReadLine(raw) == Assign(key, body)
  {
    hide Trim, TrimStart, IndexOf, WithoutExport, IsWhitespace, ReadLine;
    CutAtEquals(line, key, body);
    TrimIsTrimmed(key);
    TrimStartKeeps(body);
    ReadLineIs(raw, line, |key|);
  }

  lemma QuotedBody(v: string)
    ensures var body := "\"" + Escape(v) + "\"";
            && body[0] == '"' && body[1..] == Escape(v) + "\"" && body[|body| - 1] == '"'
            && '\n' !in body
  {
    hide Escape;
    EscapeReadsBack(v);
  }

  /** How the line that spells a pair is cut up. */
  lemma ExportedLine(key: string, body: string, line: string, raw: string)
    requires GoodKey(key) && '\n' !in body && body != [] && body[|body| - 1] == '"'
    requires line == key + ['='] + body && raw == "export " + line
    ensures raw[0] == 'e' && TrimStart(raw) == raw && WithoutExport(raw) == line
    ensures '\n' !in raw && StripCr(raw) == raw
  {
    hide TrimStart, WithoutExport, IsWhitespace;
    assert line[0] == key[0];
    ExportIsStripped(line);
    assert raw[|raw| - 1] == '"';
  }

  lemma AssignmentIs(pair: Pair, body: string)
    requires body == "\"" + Escape(pair.1) + "\""
    ensures Assignment(pair) == "export " + (pair.0 + ['='] + body)
  {
    hide Escape;
  }

  /** The line that spells a pair is one line, and is read as that pair. */
  lemma AssignmentReadsBack(pair: Pair)
    requires GoodKey(pair.0)
    ensures var raw := Assignment(pair);
            && ReadLine(raw) == Assign(pair.0, "\"" + Escape(pair.1) + "\"") && '\n' !in raw && StripCr(raw) == raw
  {
    hide ReadLine, Escape, Assignment, TrimStart, WithoutExport, IsWhitespace, GoodKey, StripCr;
    var body := "\"" + Escape(pair.1) + "\"";
    var line := pair.0 + ['='] + body;
    QuotedBody(pair.1);
    LettersAreNotBlank();
    AssignmentIs(pair, body);
    ExportedLine(pair.0, body, line, Assignment(pair));
    LineOfParts(Assignment(pair), line, pair.0, body);
  }

  lemma {:induction false} FileReadsBack(host: map<string, string>, pairs: seq<Pair>, strict: bool)
    requires GoodKeys(pairs)
    ensures Entries(host, Lines(File(pairs)), strict) == Ok(pairs)
  {
    hide ReadLine, Escape, Assignment, IndexOf, Trim, TrimStart, WithoutExport, ParseValue, GoodKey, StripCr, IsWhitespace;
    if pairs != [] {
      var (line, more) := (Assignment(pairs[0]), File(pairs[1..]));
      FileReadsBack(host, pairs[1..], strict);
      assert GoodKey(pairs[0].0);
      AssignmentReadsBack(pairs[0]);
      LinesOfOneMore(line, more);
      ValueReadsBack(pairs[0].0, pairs[0].1, Lines(more), strict);
      assert [(pairs[0].0, pairs[0].1)] + pairs[1..] == pairs;
      assert ([line] + Lines(more))[1..] == Lines(more);
    }
  }

  lemma ValueReadsBack(key: string, v: string, lines: seq<string>, strict: bool)
    ensures ParseValue("\"" + Escape(v) + "\"", lines, key, strict) == Ok((v, lines))
  {
    hide Escape, Closing;
    var rest := "\"" + Escape(v) + "\"";
    EscapeReadsBack(v);
    assert rest[1..] == Escape(v) + "\"";
    assert rest[1..][..|Escape(v)|] == Escape(v);
  }

  lemma TrimmedIsGood(part: string)
    requires '\n' !in part && '=' !in part && Trim(part) != ""
    ensures GoodKey(Trim(part))
  {
    hide TrimStart, TrimEnd, IsWhitespace, IsTrimmed;
    TrimIsTrimmed(part);
    PartOfLine(part);
    assert Trim(part) <= TrimStart(part);
  }

  lemma LineKeysAreGood(raw: string)
    requires '\n' !in raw
    ensures var line := ReadLine(raw); !line.Skip? ==> GoodKey(line.key)
  {
    hide TrimStart, Trim, IndexOf, GoodKey;
    var line := ReadLine(raw);
    var rest := WithoutExport(TrimStart(raw));
    assert '\n' !in rest;
    var eq := IndexOf(rest, '=');
    var part := if eq.None? then rest else rest[..eq.value];
    if !line.Skip? {
      TrimmedIsGood(part);
    }
  }

  lemma {:induction false} EntryKeysAreGood(host: map<string, string>, lines: seq<string>, strict: bool, pairs: seq<Pair>)
    requires OnOneLine(lines) && Entries(host, lines, strict) == Ok(pairs)
    ensures GoodKeys(pairs)
    decreases |lines|
  {
    hide ReadLine, ParseValue, GoodKey;
    if lines != [] {
      LineKeysAreGood(lines[0]);
      match ReadLine(lines[0]) {
        case Skip => EntryKeysAreGood(host, lines[1..], strict, pairs);
        case Bare(key) => EntryKeysAreGood(host, lines[1..], strict, Entries(host, lines[1..], strict).value);
        case Assign(key, rest) =>
          var left := ParseValue(rest, lines[1..], key, strict).value.1;
          ValueLeavesASuffix(rest, lines[1..], key, strict);
          EntryKeysAreGood(host, left, strict, Entries(host, left, strict).value);
      }
    }
  }

  lemma {:induction false} ValueLeavesASuffix(rest: string, lines: seq<string>, key: string, strict: bool)
    ensures var r := ParseValue(rest, lines, key, strict);
            r.Ok? ==> r.value.1 == lines[|lines| - |r.value.1|..]
  {
    if rest != [] && IsQuote(rest[0]) && Closing(rest[1..], rest[0]).None? {
      ContinueLeavesASuffix(rest[1..], lines, rest[0], key, strict);
    }
  }

  lemma {:induction false} ContinueLeavesASuffix(buf: string, lines: seq<string>, quote: char, key: string, strict: bool)
    ensures var r := Continue(buf, lines, quote, key, strict);
            r.Ok? ==> r.value.1 == lines[|lines| - |r.value.1|..]
    decreases |lines|
  {
    if lines != [] && Closing(lines[0], quote).None? {
      ContinueLeavesASuffix(buf + "\n" + lines[0], lines[1..], quote, key, strict);
    }
  }

  /** What dotenv files can say: any list of pairs, in order, with any values at all,
      so long as each key is good; and nothing else. */
  lemma FilesSpellExactlyTheGoodKeys(host: map<string, string>, pairs: seq<Pair>, strict: bool)
    ensures GoodKeys(pairs) ==> Parse(host, File(pairs), strict) == Ok(pairs)
    ensures GoodKeys(pairs) <==> exists content :: Parse(host, content, strict) == Ok(pairs)
  {
    if GoodKeys(pairs) {
      FileReadsBack(host, pairs, strict);
      assert File(pairs) != [] ==> File(pairs)[0] == 'e';
      assert StripBom(File(pairs)) == File(pairs);
    }
    forall content | Parse(host, content, strict) == Ok(pairs) ensures GoodKeys(pairs) {
      LinesAreSingle(StripBom(content));
      EntryKeysAreGood(host, Lines(StripBom(content)), strict, pairs);
    }
  }

  // ----- the other spellings -----

  /** What may stand before a key: white space, and `export` with more of it. */
  ghost predicate IsExportLead(lead: string) {
    exists pre, gap :: AllBlank(pre) && AllBlank(gap) && lead == pre + "export " + gap
  }

  /** Without `export`: white space, and then neither a comment nor that word. */
  predicate IsPlainLead(lead: string, text: string) {
    AllBlank(lead) && text != "" && text[0] != '#' && !("export " <= text)
  }

  /** `text` is a key, or a key and what follows it, with what may stand before it. */
  ghost predicate MayLead(lead: string, text: string) {
    IsExportLead(lead) || IsPlainLead(lead, text)
  }

  lemma LeadIsDropped(lead: string, text: string)
    requires MayLead(lead, text) && text != "" && !IsWhitespace(text[0])
    ensures var trimmed := TrimStart(lead + text);
            trimmed != "" && trimmed[0] != '#' && WithoutExport(trimmed) == text
  {
    hide IsWhitespace, TrimStart;
    if IsExportLead(lead) {
      var pre, gap :| AllBlank(pre) && AllBlank(gap) && lead == pre + "export " + gap;
      ExportIsDropped(pre, gap, text);
    } else {
      TrimStartPads(lead, text);
      TrimStartKeeps(text);
    }
  }

  lemma ExportIsDropped(pre: string, gap: string, text: string)
    requires AllBlank(pre) && AllBlank(gap) && text != "" && !IsWhitespace(text[0])
    ensures var trimmed := TrimStart(pre + "export " + gap + text);
            trimmed != "" && trimmed[0] == 'e' && WithoutExport(trimmed) == text
  {
    hide IsWhitespace, TrimStart, AllBlank, WithoutExport;
    AfterExport(gap, text);
    var word := "export ";
    Regrouped(pre, word, gap, text);
    var tail := word + (gap + text);
    TrimStartPads(pre, tail);
    LettersAreNotBlank();
    assert tail[0] == word[0] == 'e';
    TrimStartKeeps(tail);
  }

  lemma Regrouped(a: string, b: string, c: string, d: string)
    ensures a + b + c + d == a + (b + (c + d))
  {}

  lemma AfterExport(gap: string, text: string)
    requires AllBlank(gap) && text != "" && !IsWhitespace(text[0])
    ensures WithoutExport("export " + (gap + text)) == text
  {
    hide IsWhitespace, TrimStart, AllBlank;
    TrimStartPads(gap, text);
    TrimStartKeeps(text);
    assert ("export " + (gap + text))[|"export "|..] == gap + text;
  }

  /** `KEY = rest`, with white space as it comes. */
  lemma AssignmentIsRead(lead: string, key: string, mid: string, gap: string, rest: string)
    requires GoodKey(key) && AllBlank(mid) && AllBlank(gap) && (rest == "" || !IsWhitespace(rest[0]))
    requires MayLead(lead, key + mid + "=" + (gap + rest))
    ensures ReadLine(lead + (key + mid + "=" + (gap + rest))) == Assign(key, rest)
  {
    hide IsWhitespace, TrimStart, TrimEnd, IndexOf, WithoutExport, MayLead;
    var text := key + mid + "=" + (gap + rest);
    assert text[0] == key[0];
    LeadIsDropped(lead, text);
    NoEqualsBefore(key, mid);
    IndexOfFirst(key + mid, '=', gap + rest);
    assert text == key + mid + ['='] + (gap + rest);
    assert text[..|key + mid|] == key + mid && text[|key + mid| + 1..] == gap + rest;
    assert "" + key + mid == key + mid;
    TrimPads("", key, mid);
    TrimStartPads(gap, rest);
    TrimStartKeeps(rest);
  }

  lemma NoEqualsBefore(key: string, mid: string)
    requires '=' !in key && AllBlank(mid)
    ensures '=' !in key + mid
  {
    assert !IsWhitespace('=');
    hide IsWhitespace;
    assert forall i :: 0 <= i < |mid| ==> mid[i] != '=';
  }

  /** No `#` behind white space. */
  predicate NoComment(v: string) {
    forall i :: 0 < i < |v| && v[i] == '#' ==> !IsAsciiWhitespace(v[i - 1])
  }

  lemma {:induction false} NoCommentStarts(v: string, blank: bool)
    requires NoComment(v) && (v != "" && v[0] == '#' ==> !blank)
    ensures CommentStart(v, blank) == None
  {
    hide IsAsciiWhitespace;
    if v != "" {
      assert forall i :: 0 < i < |v[1..]| ==> v[1..][i] == v[i + 1] && v[1..][i - 1] == v[i];
      NoCommentStarts(v[1..], IsAsciiWhitespace(v[0]));
    }
  }

  lemma {:induction false} CommentStartsAfter(front: string, comment: string, blank: bool)
    requires NoComment(front) && (front != "" && front[0] == '#' ==> !blank) && comment != "" && comment[0] == '#'
    requires if front == "" then blank else IsAsciiWhitespace(front[|front| - 1])
    ensures CommentStart(front + comment, blank) == Some(|front|)
  {
    hide IsAsciiWhitespace;
    if front == "" {
      assert front + comment == comment;
    } else {
      assert (front + comment)[1..] == front[1..] + comment;
      assert forall i :: 0 < i < |front[1..]| ==> front[1..][i] == front[i + 1] && front[1..][i - 1] == front[i];
      CommentStartsAfter(front[1..], comment, IsAsciiWhitespace(front[0]));
    }
  }

  /** A value without quotes: no quote in front, no comment in it, trimmed. */
  predicate IsPlainValue(v: string) {
    IsTrimmed(v) && NoComment(v) && (v != "" ==> !IsQuote(v[0]))
  }

  lemma BlanksHideNoComment(v: string, gap: string)
    requires NoComment(v) && AllBlank(gap)
    ensures NoComment(v + gap)
  {
    assert !IsWhitespace('#');
    assert forall i :: 0 <= i < |gap| ==> gap[i] != '#';
    hide IsWhitespace, IsAsciiWhitespace;
    assert forall i :: |v| <= i < |v + gap| ==> (v + gap)[i] == gap[i - |v|];
  }

  /** A plain value, with white space behind it, is that value; from a `#` behind ASCII
      white space on, what follows it does not count. */
  lemma PlainValueIsRead(v: string, gap: string, comment: string, lines: seq<string>, key: string, strict: bool)
    requires IsPlainValue(v) && AllBlank(gap) && (v == "" ==> gap == "")
    ensures ParseValue(v + gap, lines, key, strict) == Ok((v, lines))
    ensures v != "" && gap != "" && IsAsciiWhitespace(gap[|gap| - 1]) && comment != "" && comment[0] == '#' ==>
              ParseValue(v + gap + comment, lines, key, strict) == Ok((v, lines))
  {
    hide IsWhitespace, IsAsciiWhitespace, CommentStart, TrimEnd;
    BlanksHideNoComment(v, gap);
    NoCommentStarts(v + gap, false);
    TrimEndPads(v, gap);
    TrimEndKeeps(v);
    if v != "" && gap != "" && IsAsciiWhitespace(gap[|gap| - 1]) && comment != "" && comment[0] == '#' {
      var front := v + gap;
      assert front[|front| - 1] == gap[|gap| - 1];
      CommentStartsAfter(front, comment, false);
      assert (front + comment)[..|front|] == front;
      assert (front + comment)[0] == v[0];
    }
  }

  lemma TrimEndKeeps(v: string)
    requires IsTrimmed(v)
    ensures TrimEnd(v) == v
  {}

  lemma {:induction false} NoQuoteBefore(v: string, rest: string)
    requires '\'' !in v
    ensures Closing(v + "'" + rest, '\'') == Some(|v|)
  {
    if v == "" {
      assert (v + "'" + rest)[0] == '\'';
    } else {
      assert (v + "'" + rest)[1..] == v[1..] + "'" + rest;
      NoQuoteBefore(v[1..], rest);
    }
  }

  /** Between single quotes everything stands for itself, backslashes included, and what
      follows the closing one is dropped. */
  lemma SingleQuotedIsVerbatim(v: string, rest: string, lines: seq<string>, key: string, strict: bool)
    requires '\'' !in v
    ensures ParseValue("'" + v + "'" + rest, lines, key, strict) == Ok((v, lines))
  {
    hide Closing;
    NoQuoteBefore(v, rest);
    var s := "'" + v + "'" + rest;
    assert s[1..] == v + "'" + rest && s[1..][..|v|] == v;
  }

  /** An unquoted assignment is one entry, whatever stands around the key and the value,
      a comment behind white space included. */
  lemma PlainAssignmentIsAnEntry(host: map<string, string>, lead: string, key: string, mid: string, gap: string, v: string, post: string, comment: string, more: seq<string>, strict: bool)
    requires GoodKey(key) && AllBlank(mid) && AllBlank(gap) && IsPlainValue(v) && AllBlank(post) && (v == "" ==> post == "")
    requires comment == "" || (v != "" && post != "" && IsAsciiWhitespace(post[|post| - 1]) && comment[0] == '#')
    requires MayLead(lead, key + mid + "=" + (gap + (v + post + comment)))
    ensures Entries(host, [lead + (key + mid + "=" + (gap + (v + post + comment)))] + more, strict)
            == Before([(key, v)], Entries(host, more, strict))
  {
    hide ReadLine, ParseValue, MayLead, IsPlainValue, GoodKey, IsWhitespace;
    var rest := v + post + comment;
    StartsWithTheValue(v, post, comment);
    AssignmentIsRead(lead, key, mid, gap, rest);
    PlainValueIsRead(v, post, comment, more, key, strict);
    assert comment == "" ==> rest == v + post;
    var line := lead + (key + mid + "=" + (gap + rest));
    FirstOf(line, more);
  }

  lemma StartsWithTheValue(v: string, post: string, comment: string)
    requires IsPlainValue(v) && (v == "" ==> post == "" && comment == "")
    ensures v + post + comment == "" || !IsWhitespace((v + post + comment)[0])
  {
    hide IsWhitespace;
    assert v != "" ==> (v + post + comment)[0] == v[0];
  }

  lemma FirstOf(line: string, more: seq<string>)
    ensures ([line] + more)[0] == line && ([line] + more)[1..] == more
  {}

  lemma SingleQuotedIsAnEntry(host: map<string, string>, lead: string, key: string, mid: string, gap: string, v: string, rest: string, more: seq<string>, strict: bool)
    requires GoodKey(key) && AllBlank(mid) && AllBlank(gap) && '\'' !in v
    requires MayLead(lead, key + mid + "=" + (gap + ("'" + v + "'" + rest)))
    ensures Entries(host, [lead + (key + mid + "=" + (gap + ("'" + v + "'" + rest)))] + more, strict)
            == Before([(key, v)], Entries(host, more, strict))
  {
    hide ReadLine, ParseValue, MayLead, GoodKey;
    var text := "'" + v + "'" + rest;
    assert text[0] == '\'' && !IsWhitespace('\'');
    hide IsWhitespace;
    AssignmentIsRead(lead, key, mid, gap, text);
    SingleQuotedIsVerbatim(v, rest, more, key, strict);
    FirstOf(lead + (key + mid + "=" + (gap + text)), more);
  }

  /** A bare key takes the host's value, or is left out. */
  lemma BareKeyTakesTheHostValue(host: map<string, string>, lead: string, key: string, post: string, more: seq<string>, strict: bool)
    requires GoodKey(key) && AllBlank(post) && MayLead(lead, key + post)
    ensures Entries(host, [lead + (key + post)] + more, strict)
            == Before(if key in host then [(key, host[key])] else [], Entries(host, more, strict))
  {
    hide IsWhitespace, TrimStart, TrimEnd, WithoutExport, MayLead;
    var text := key + post;
    assert text[0] == key[0];
    LeadIsDropped(lead, text);
    NoEqualsBefore(key, post);
    assert "" + key + post == text;
    TrimPads("", key, post);
    FirstOf(lead + text, more);
    hide IndexOf;
    assert ReadLine(lead + text) == Bare(key) by { NoEqualsNoIndex(text); }
  }

  lemma NoEqualsNoIndex(s: string)
    requires '=' !in s
    ensures IndexOf(s, '=') == None
  {}

  /** A blank line and a comment say nothing, nor does a line with no key. */
  lemma BlanksAndCommentsSayNothing(host: map<string, string>, pre: string, any: string, more: seq<string>, strict: bool)
    requires AllBlank(pre)
    ensures Entries(host, [pre] + more, strict) == Entries(host, more, strict)
    ensures Entries(host, [pre + ("#" + any)] + more, strict) == Entries(host, more, strict)
    ensures Entries(host, [pre + ("=" + any)] + more, strict) == Entries(host, more, strict)
  {
    assert !IsWhitespace('#');
    hide IsWhitespace, TrimStart, ReadLine;
    FirstOf(pre, more);
    FirstOf(pre + ("#" + any), more);
    FirstOf(pre + ("=" + any), more);
    BlankLineIsSkipped(pre);
    CommentIsSkipped(pre, "#" + any);
    NoKeyIsSkipped(pre, "=" + any);
  }

  lemma BlankLineIsSkipped(pre: string)
    requires AllBlank(pre)
    ensures ReadLine(pre) == Skip
  {
    hide IsWhitespace, TrimStart;
    assert pre + "" == pre;
    TrimStartPads(pre, "");
    NothingToTrim();
  }

  lemma CommentIsSkipped(pre: string, line: string)
    requires AllBlank(pre) && line != "" && line[0] == '#'
    ensures ReadLine(pre + line) == Skip
  {
    assert !IsWhitespace('#');
    hide IsWhitespace, TrimStart;
    TrimStartPads(pre, line);
    TrimStartKeeps(line);
  }

  lemma NoKeyIsSkipped(pre: string, line: string)
    requires AllBlank(pre) && line != "" && line[0] == '='
    ensures ReadLine(pre + line) == Skip
  {
    assert !IsWhitespace('=');
    hide IsWhitespace, TrimStart, TrimEnd, IndexOf, WithoutExport;
    TrimStartPads(pre, line);
    TrimStartKeeps(line);
    NothingToTrim();
    NoExport(line);
    EqualsComesFirst(line);
    assert line[..0] == "";
  }

  lemma NoExport(line: string)
    requires line != "" && line[0] != 'e'
    ensures WithoutExport(line) == line
  {}

  lemma EqualsComesFirst(line: string)
    requires line != "" && line[0] == '='
    ensures IndexOf(line, '=') == Some(0)
  {}

  lemma NothingToTrim()
    ensures TrimStart("") == "" && Trim("") == ""
  {}

  /** The lines of a text, with a byte order mark dropped from its front. */
  lemma TextIsReadLineByLine(host: map<string, string>, line: string, more: string, strict: bool)
    requires '\n' !in line && StripCr(line) == line && (line == "" || line[0] != BOM)
    ensures Parse(host, line + "\n" + more, strict) == Entries(host, [line] + Lines(more), strict)
    ensures Parse(host, [BOM] + (line + "\n" + more), strict) == Parse(host, line + "\n" + more, strict)
  {
    hide Entries, Lines, StripCr;
    LinesOfOneMore(line, more);
    var text := line + "\n" + more;
    assert text[0] != BOM;
    assert !([BOM] <= text) && ([BOM] + text)[1..] == text;
  }

  // ----- the scans work on bytes -----

  const DOUBLE: byte := 0x22
  const BACKSLASH: byte := 0x5c
  const HASH: byte := 0x23

  function ClosingByte(b: Bytes, q: byte): Option<nat> {
    if b == [] then None
    else if q == DOUBLE && b[0] == BACKSLASH then
      if |b| == 1 then None else Shift(ClosingByte(b[2..], q), 2)
    else if b[0] == q then Some(0)
    else Shift(ClosingByte(b[1..], q), 1)
  }

  predicate IsAsciiWhitespaceByte(b: byte) {
    b == 0x20 || b == 0x09 || b == 0x0a || b == 0x0c || b == 0x0d
  }

  function CommentByte(b: Bytes, blank: bool): Option<nat> {
    if b == [] then None
    else if b[0] == HASH && blank then Some(0)
    else Shift(CommentByte(b[1..], IsAsciiWhitespaceByte(b[0])), 1)
  }

  /** The byte index a character index stands for. */
  function ByteIndex(s: string, r: Option<nat>): Option<nat>
    requires r.Some? ==> r.value <= |s|
  {
    match r case None => None case Some(i) => Some(ByteLen(s[..i]))
  }

  lemma ByteIndexAfter(c: char, s: string, r: Option<nat>)
    requires r.Some? ==> r.value < |s|
    ensures ByteIndex([c] + s, Shift(r, 1)) == Shift(ByteIndex(s, r), Utf8Width(c))
  {
    if r.Some? {
      assert ([c] + s)[..r.value + 1][1..] == s[..r.value];
    }
  }

  predicate IsHigh(b: Bytes) {
    forall k :: 0 <= k < |b| ==> b[k] as int >= 0x80
  }

  lemma HighBytesOfChar(c: char)
    requires c as int >= 0x80
    ensures IsHigh(EncodeChar(c))
  {
    AsciiStandsForItself(c);
    assert forall k :: 0 <= k < |EncodeChar(c)| ==> EncodeChar(c)[k] in EncodeChar(c);
  }

  /** No quote and no backslash hides in the bytes of a character that is not
      ASCII. */
  lemma {:induction false} SkipHighBytes(high: Bytes, rest: Bytes, q: byte)
    requires IsHigh(high) && q as int < 0x80
    ensures ClosingByte(high + rest, q) == Shift(ClosingByte(rest, q), |high|)
  {
    if high == [] {
      assert high + rest == rest;
    } else {
      assert (high + rest)[1..] == high[1..] + rest;
      SkipHighBytes(high[1..], rest, q);
    }
  }

  lemma ClosingByteAfterChar(c: char, rest: Bytes, quote: char)
    requires IsQuote(quote) && c != quote && !(quote == '"' && c == '\\')
    ensures ClosingByte(EncodeChar(c) + rest, quote as int as byte) == Shift(ClosingByte(rest, quote as int as byte), Utf8Width(c))
  {
    if c as int >= 0x80 {
      HighBytesOfChar(c);
      SkipHighBytes(EncodeChar(c), rest, quote as int as byte);
    } else {
      assert EncodeChar(c) + rest == [(c as int) as byte] + rest;
      assert (EncodeChar(c) + rest)[1..] == rest;
    }
  }

  /** `i += 2` may land inside the character a backslash hides; the bytes there are
      never a quote or a backslash, so the scan leaves it as it entered it. */
  lemma ClosingByteAfterHidden(c: char, rest: Bytes)
    ensures ClosingByte([BACKSLASH] + (EncodeChar(c) + rest), DOUBLE) == Shift(ClosingByte(rest, DOUBLE), 1 + Utf8Width(c))
  {
    hide EncodeChar;
    var x := EncodeChar(c);
    assert ([BACKSLASH] + (x + rest))[2..] == x[1..] + rest;
    if c as int >= 0x80 {
      HighBytesOfChar(c);
      assert IsHigh(x[1..]);
    } else {
      AsciiStandsForItself(c);
      assert IsHigh(x[1..]);
    }
    SkipHighBytes(x[1..], rest, DOUBLE);
  }

  /** The byte scan finds the quote the characters close at. */
  lemma {:induction false} BytesCloseWhereCharactersDo(s: string, quote: char)
    requires IsQuote(quote)
    ensures ClosingByte(Encode(s), quote as int as byte) == ByteIndex(s, Closing(s, quote))
    decreases |s|
  {
    if s != [] {
      AsciiStandsForItself(s[0]);
      if quote == '"' && s[0] == '\\' {
        if |s| > 1 {
          BytesCloseWhereCharactersDo(s[2..], quote);
          ClosingPastHiddenBytes(s);
        }
      } else if s[0] != quote {
        BytesCloseWhereCharactersDo(s[1..], quote);
        ClosingPastOtherBytes(s, quote);
      }
    }
  }

  lemma ClosingPastHiddenBytes(s: string)
    requires |s| > 1 && s[0] == '\\'
    requires ClosingByte(Encode(s[2..]), DOUBLE) == ByteIndex(s[2..], Closing(s[2..], '"'))
    ensures ClosingByte(Encode(s), DOUBLE) == ByteIndex(s, Closing(s, '"'))
  {
    hide ClosingByte, ByteIndex, EncodeChar, Encode, Closing;
    var (c, rest) := (s[1], s[2..]);
    AsciiStandsForItself(s[0]);
    HiddenPair(s);
    ClosingByteAfterHidden(c, Encode(rest));
    ByteIndexAfter(c, rest, Closing(rest, '"'));
    assert [c] + rest == s[1..] && [s[0]] + s[1..] == s;
    ByteIndexAfter(s[0], s[1..], Shift(Closing(rest, '"'), 1));
  }

  lemma HiddenPair(s: string)
    requires |s| > 1 && s[0] == '\\'
    ensures Encode(s) == [BACKSLASH] + (EncodeChar(s[1]) + Encode(s[2..]))
    ensures Closing(s, '"') == Shift(Closing(s[2..], '"'), 2)
  {
    hide EncodeChar;
    AsciiStandsForItself(s[0]);
    assert s[1..][1..] == s[2..];
  }

  lemma ClosingPastOtherBytes(s: string, quote: char)
    requires IsQuote(quote) && s != [] && s[0] != quote && !(quote == '"' && s[0] == '\\')
    requires ClosingByte(Encode(s[1..]), quote as int as byte) == ByteIndex(s[1..], Closing(s[1..], quote))
    ensures ClosingByte(Encode(s), quote as int as byte) == ByteIndex(s, Closing(s, quote))
  {
    hide ClosingByte, ByteIndex, EncodeChar;
    ClosingByteAfterChar(s[0], Encode(s[1..]), quote);
    assert [s[0]] + s[1..] == s;
    ByteIndexAfter(s[0], s[1..], Closing(s[1..], quote));
  }

  lemma {:induction false} SkipOtherBytes(b: Bytes, rest: Bytes, blank: bool)
    requires b != [] && (forall k :: 0 <= k < |b| ==> b[k] != HASH || (k == 0 && !blank))
    ensures CommentByte(b + rest, blank) == Shift(CommentByte(rest, IsAsciiWhitespaceByte(b[|b| - 1])), |b|)
  {
    assert (b + rest)[1..] == b[1..] + rest;
    if |b| > 1 {
      SkipOtherBytes(b[1..], rest, IsAsciiWhitespaceByte(b[0]));
    } else {
      assert b[1..] + rest == rest;
    }
  }

  lemma LastByteTellsBlank(c: char)
    ensures IsAsciiWhitespaceByte(EncodeChar(c)[Utf8Width(c) - 1]) <==> IsAsciiWhitespace(c)
    ensures forall k :: 0 <= k < Utf8Width(c) ==> (EncodeChar(c)[k] == HASH <==> k == 0 && c == '#')
  {
    hide EncodeChar;
    AsciiStandsForItself(c);
    if c as int >= 0x80 {
      HighBytesOfChar(c);
    }
  }

  /** The byte scan finds the comment the characters start. */
  lemma {:induction false} BytesCommentWhereCharactersDo(s: string, blank: bool)
    ensures CommentByte(Encode(s), blank) == ByteIndex(s, CommentStart(s, blank))
  {
    if s != [] {
      hide EncodeChar, IsAsciiWhitespace, IsAsciiWhitespaceByte;
      LastByteTellsBlank(s[0]);
      if !(s[0] == '#' && blank) {
        hide CommentByte, ByteIndex;
        var after := IsAsciiWhitespace(s[0]);
        SkipOtherBytes(EncodeChar(s[0]), Encode(s[1..]), blank);
        BytesCommentWhereCharactersDo(s[1..], after);
        assert [s[0]] + s[1..] == s;
        ByteIndexAfter(s[0], s[1..], CommentStart(s[1..], after));
      }
    }
  }

  // ----- the parser as it runs -----

  method FindClosingByte(bytes: Bytes, q: byte) returns (r: Option<nat>)
    ensures r == ClosingByte(bytes, q)
  {
    var i := 0;
    assert bytes[0..] == bytes;
    while i < |bytes|
      invariant i <= |bytes| ==> ClosingByte(bytes, q) == Shift(ClosingByte(bytes[i..], q), i)
      invariant i > |bytes| ==> ClosingByte(bytes, q) == None
    {
      var c := bytes[i];
      assert bytes[i..][1..] == bytes[i + 1..];
      if q == DOUBLE && c == BACKSLASH {
        assert i + 2 <= |bytes| ==> bytes[i..][2..] == bytes[i + 2..];
        i := i + 2;
      } else {
        if c == q {
          return Some(i);
        }
        i := i + 1;
      }
    }
    return None;
  }

  lemma CommentByteFrom(bytes: Bytes, i: nat, blank: bool)
    requires i <= |bytes|
    ensures CommentByte(bytes[i..], blank) ==
            if i == |bytes| then None
            else if bytes[i] == HASH && blank then Some(0)
            else Shift(CommentByte(bytes[i + 1..], IsAsciiWhitespaceByte(bytes[i])), 1)
  {
    hide IsAsciiWhitespaceByte;
    assert i < |bytes| ==> bytes[i..][1..] == bytes[i + 1..];
  }

  method FindCommentByte(bytes: Bytes) returns (r: Option<nat>)
    ensures r == CommentByte(bytes, false)
  {
    hide IsAsciiWhitespaceByte, CommentByte;
    var i := 0;
    assert bytes[0..] == bytes;
    while i < |bytes|
      invariant i <= |bytes|
      invariant CommentByte(bytes, false) == Shift(CommentByte(bytes[i..], i > 0 && IsAsciiWhitespaceByte(bytes[i - 1])), i)
    {
      CommentByteFrom(bytes, i, i > 0 && IsAsciiWhitespaceByte(bytes[i - 1]));
      if bytes[i] == HASH && i > 0 && IsAsciiWhitespaceByte(bytes[i - 1]) {
        return Some(i);
      }
      i := i + 1;
    }
    CommentByteFrom(bytes, |bytes|, i > 0 && IsAsciiWhitespaceByte(bytes[i - 1]));
    return None;
  }

  /** `&s[..end]` for a byte index: `None` when it would split a character. */
  function SliceTo(s: string, end: nat): Option<string>
    decreases |s|
  {
    if end == 0 then Some("")
    else if s == [] || end < Utf8Width(s[0]) then None
    else
      match SliceTo(s[1..], end - Utf8Width(s[0]))
      case None => None
      case Some(front) => Some([s[0]] + front)
  }

  lemma {:induction false} SliceAtCharacter(s: string, i: nat)
    requires i <= |s|
    ensures SliceTo(s, ByteLen(s[..i])) == Some(s[..i])
  {
    if i > 0 {
      assert s[..i][1..] == s[1..][..i - 1];
      SliceAtCharacter(s[1..], i - 1);
      assert s[..i] == [s[0]] + s[1..][..i - 1];
    }
  }

  /** The text before the closing quote; the byte index always falls between
      characters. */
  method UpToClosing(s: string, quote: char) returns (r: Option<string>)
    requires IsQuote(quote)
    ensures r == match Closing(s, quote) case None => None case Some(end) => Some(s[..end])
  {
    var end := FindClosingByte(Encode(s), quote as int as byte);
    BytesCloseWhereCharactersDo(s, quote);
    if end.None? {
      return None;
    }
    SliceAtCharacter(s, Closing(s, quote).value);
    r := SliceTo(s, end.value);
  }

  method StripComment(s: string) returns (r: string)
    ensures r == StripInlineComment(s)
  {
    var at := FindCommentByte(Encode(s));
    BytesCommentWhereCharactersDo(s, false);
    if at.None? {
      return s;
    }
    SliceAtCharacter(s, CommentStart(s, false).value);
    r := SliceTo(s, at.value).value;
  }

  lemma UnescapeFirst(s: string)
    requires s != []
    ensures UnescapeDouble(s) ==
            if s[0] != '\\' then [s[0]] + UnescapeDouble(s[1..])
            else if |s| == 1 then ['\\'] + UnescapeDouble([])
            else [Unescaped(s[1])] + UnescapeDouble(s[2..])
  {}

  lemma OneMore(out: string, c: char, rest: string)
    ensures out + ([c] + rest) == out + [c] + rest
  {}

  method UnescapeValue(s: string, quote: char) returns (out: string)
    requires IsQuote(quote)
    ensures out == Unescape(s, quote)
  {
    hide UnescapeDouble;
    if quote == '\'' {
      return s;
    }
    out := "";
    var chars := s;
    assert "" + UnescapeDouble(s) == UnescapeDouble(s);
    while chars != []
      invariant out + UnescapeDouble(chars) == UnescapeDouble(s)
      decreases |chars|
    {
      UnescapeFirst(chars);
      var c := chars[0];
      if c != '\\' {
        OneMore(out, c, UnescapeDouble(chars[1..]));
        out, chars := out + [c], chars[1..];
      } else if |chars| == 1 {
        OneMore(out, c, UnescapeDouble([]));
        out, chars := out + [c], [];
      } else {
        var next := chars[1];
        var meant := if next == 'n' then '\n' else if next == 'r' then '\r' else if next == 't' then '\t' else next;
        OneMore(out, meant, UnescapeDouble(chars[2..]));
        out, chars := out + [meant], chars[2..];
      }
    }
    NothingLeft(out);
  }

  lemma NothingLeft(out: string)
    ensures out + UnescapeDouble([]) == out
  {}

  /** The iterator over the lines of a file that the parser and its quoted values
      share. */
  class LineReader {
    var text: string

    constructor (text: string)
      ensures this.text == text
    {
      this.text := text;
    }

    method Next() returns (line: Option<string>)
      modifies this
      ensures line.None? <==> Lines(old(text)) == []
      ensures line.None? ==> text == old(text)
      ensures line.Some? ==> Lines(old(text)) == [line.value] + Lines(text) && |text| < |old(text)|
    {
      if text == [] {
        return None;
      }
      var end := IndexOf(text, '\n');
      if end.None? {
        line := Some(text);
        text := [];
      } else {
        line := Some(StripCr(text[..end.value]));
        text := text[end.value + 1..];
      }
    }

    /** Each line a quoted value runs over is taken from the reader once. */
    method TakeValue(rest: string, key: string, strict: bool) returns (r: Result<string, DotenvError>)
      modifies this
      ensures match ParseValue(rest, Lines(old(text)), key, strict)
              case Err(e) => r == Err(e)
              case Ok((value, left)) => r == Ok(value) && Lines(text) == left && |text| <= |old(text)|
    {
      if rest == [] || !IsQuote(rest[0]) {
        var bare := StripComment(rest);
        return Ok(TrimEnd(bare));
      }
      var quote, body := rest[0], rest[1..];
      var front := UpToClosing(body, quote);
      if front.Some? {
        var value := UnescapeValue(front.value, quote);
        return Ok(value);
      }
      var buf := body;
      ghost var goal := Continue(body, Lines(text), quote, key, strict);
      while true
        invariant |text| <= |old(text)|
        invariant Continue(buf, Lines(text), quote, key, strict) == goal
        decreases |text|
      {
        hide Lines;
        ghost var lines := Lines(text);
        var next := Next();
        if next.None? {
          break;
        }
        assert lines[0] == next.value && lines[1..] == Lines(text);
        front := UpToClosing(next.value, quote);
        if front.Some? {
          var value := UnescapeValue(buf + "\n" + front.value, quote);
          return Ok(value);
        }
        buf := buf + "\n" + next.value;
      }
      if strict {
        return Err(Unterminated(key));
      }
      var value := UnescapeValue(buf, quote);
      return Ok(value);
    }
  }

  method ParseInner(host: map<string, string>, content: string, strict: bool) returns (r: Result<seq<Pair>, DotenvError>)
    ensures r == Parse(host, content, strict)
  {
    hide Lines, StripBom, ReadLine, ParseValue;
    var lines := new LineReader(StripBom(content));
    var out: seq<Pair> := [];
    ghost var goal := Parse(host, content, strict);
    assert goal == Before([], Entries(host, Lines(lines.text), strict)) by {
      var all := Entries(host, Lines(lines.text), strict);
      assert all.Ok? ==> [] + all.value == all.value;
    }
    while true
      invariant goal == Before(out, Entries(host, Lines(lines.text), strict))
      decreases |lines.text|
    {
      ghost var left := Lines(lines.text);
      var raw := lines.Next();
      if raw.None? {
        assert out + [] == out;
        return Ok(out);
      }
      assert left[0] == raw.value && left[1..] == Lines(lines.text);
      ghost var after := Entries(host, Lines(lines.text), strict);
      match ReadLine(raw.value) {
        case Skip =>
        case Bare(key) =>
          if key in host {
            BeforeTwice(out, [(key, host[key])], after);
            out := out + [(key, host[key])];
          } else {
            BeforeTwice(out, [], after);
            assert out + [] == out;
          }
        case Assign(key, rest) =>
          var value := lines.TakeValue(rest, key, strict);
          if value.Err? {
            return Err(value.error);
          }
          BeforeTwice(out, [(key, value.value)], Entries(host, Lines(lines.text), strict));
          out := out + [(key, value.value)];
      }
    }
  }
}
