/** Quoting of the YAML 1.1 boolean words in the text `config` prints. A reader of
    YAML 1.1 takes a plain `yes`, `no`, `on` or `off` for a boolean, so a string of
    that spelling gets quotes; what stands inside a block scalar is the content of a
    string and must not be touched. */
module YamlBooleans {
  import opened Prelude

  // ----- one line -----

  /** `find(": ")` */
  function FindSeparator(s: string): (r: Option<nat>)
    ensures r.Some? ==> r.value + 2 <= |s| && s[r.value] == ':' && s[r.value + 1] == ' '
    ensures r.Some? ==> forall i :: 0 <= i < r.value ==> !(s[i] == ':' && s[i + 1] == ' ')
    ensures r.None? ==> forall i :: 0 <= i < |s| - 1 ==> !(s[i] == ':' && s[i + 1] == ' ')
  {
    if |s| < 2 then None
    else if s[0] == ':' && s[1] == ' ' then Some(0)
    else
      match FindSeparator(s[1..])
      case None =>
        assert forall i :: 0 < i < |s| - 1 ==> s[i] == s[1..][i - 1] && s[i + 1] == s[1..][i];
        None
      case Some(i) =>
        assert forall j :: 0 < j < i + 1 ==> s[j] == s[1..][j - 1] && s[j + 1] == s[1..][j];
        Some(i + 1)
  }

  /** `rsplit_once(' ')`: what stands before and after the last space. */
  function SplitLastSpace(s: string): (r: Option<(string, string)>)
    ensures r.Some? ==> s == r.value.0 + " " + r.value.1 && ' ' !in r.value.1
    ensures r.None? ==> ' ' !in s
  {
    if s == [] then None
    else if s[|s| - 1] == ' ' then Some((s[..|s| - 1], ""))
    else
      match SplitLastSpace(s[..|s| - 1])
      case None => None
      case Some((head, tail)) => Some((head, tail + [s[|s| - 1]]))
  }

  function TrimSpaces(s: string): (r: string)
    ensures |r| <= |s|
  {
    if s != [] && s[0] == ' ' then TrimSpaces(s[1..]) else s
  }

  function Indent(line: string): nat {
    |line| - |TrimSpaces(line)|
  }

  predicate IsIndicator(c: char) {
    c == '-' || c == '?'
  }

  /** The key after any `- ` and `? ` before it. */
  function KeyOf(key: string): (r: string)
    ensures |r| <= |key|
    decreases |key|
  {
    if |key| >= 2 && IsIndicator(key[0]) && key[1] == ' ' then KeyOf(TrimSpaces(key[2..])) else key
  }

  /** Nothing but `-` and `?` between white space, and at least one of them. */
  predicate OnlyIndicators(head: string) {
    Trim(head) != "" && Alone(head, true)
  }

  /** Each run of non-blanks is one indicator; `start` says that a run may start. */
  predicate Alone(s: string, start: bool) {
    if s == [] then true
    else if IsWhitespace(s[0]) then Alone(s[1..], true)
    else start && IsIndicator(s[0]) && Alone(s[1..], false)
  }

  predicate IsBlockHeader(header: string) {
    && header != "" && (header[0] == '|' || header[0] == '>')
    && forall i :: 1 <= i < |header| ==> IsDigit(header[i]) || header[i] == '+' || header[i] == '-'
  }

  function WithoutTag(head: string): string {
    match SplitLastSpace(head)
    case Some((before, tag)) => if tag != "" && tag[0] == '!' then before else head
    case None => head
  }

  /** `block_scalar_parent`: the column the content is indented past, in bytes. */
  function BlockScalarParent(line: string): Option<nat> {
    match SplitLastSpace(line)
    case None => None
    case Some((before, header)) =>
      if !IsBlockHeader(header) then None
      else
        var head := WithoutTag(before);
        if head != "" && head[|head| - 1] == ':' then
          Some(|head| - |KeyOf(TrimSpaces(head))|)
        else if head != "" && OnlyIndicators(head) then
          ByteLenPositive(head);
          Some(ByteLen(head) - 1)
        else None
  }

  lemma ByteLenPositive(s: string)
    requires s != ""
    ensures ByteLen(s) >= 1
  {}

  /** `split_block_scalar`: how many characters come before the value. */
  function ValueStart(line: string): (r: Option<nat>)
    ensures r.Some? ==> 2 <= r.value < |line| && line[r.value - 1] == ' '
  {
    match FindSeparator(line)
    case Some(i) => if i + 2 < |line| then Some(i + 2) else ItemStart(line)
    case None => ItemStart(line)
  }

  /** A scalar sequence item: the value after `- `. */
  function ItemStart(line: string): (r: Option<nat>)
    ensures r.Some? ==> 2 <= r.value < |line| && line[r.value - 1] == ' ' && line[r.value - 2] == '-'
    ensures r.Some? ==> r.value == |line| - |TrimStart(line)| + 2
  {
    var rest := TrimStart(line);
    if |rest| > 2 && rest[0] == '-' && rest[1] == ' ' then Some(|line| - |rest| + 2) else None
  }

  predicate IsQuoted(s: string) {
    s != "" && (s[0] == '\'' || s[0] == '"')
  }

  predicate LooksLikeBool(s: string) {
    LowerAscii(s) in ["y", "yes", "n", "no", "on", "off"]
  }

  /** `requote_bool_line` */
  function Requote(line: string): string {
    match ValueStart(line)
    case None => line
    case Some(at) =>
      if IsQuoted(line[at..]) || !LooksLikeBool(line[at..]) then line
      else line[..at] + "'" + line[at..] + "'"
  }

  // ----- a text -----

  /** Whether a line belongs to the block scalar open before it. */
  predicate Inside(parent: Option<nat>, line: string) {
    parent.Some? && (Trim(line) == "" || Indent(line) > parent.value)
  }

  /** The block scalar open after a line. */
  function After(parent: Option<nat>, line: string): Option<nat> {
    if Inside(parent, line) then parent else BlockScalarParent(line)
  }

  function Line(parent: Option<nat>, line: string): string {
    if Inside(parent, line) then line else Requote(line)
  }

  /** The lines as they come out, `parent` being the block open before the first. */
  function QuoteLines(lines: seq<string>, parent: Option<nat>): (r: seq<string>)
    ensures |r| == |lines|
  {
    if lines == [] then [] else [Line(parent, lines[0])] + QuoteLines(lines[1..], After(parent, lines[0]))
  }

  /** The block open before each line, and after the last. */
  function States(lines: seq<string>, parent: Option<nat>): (r: seq<Option<nat>>)
    ensures |r| == |lines| + 1
  {
    if lines == [] then [parent] else [parent] + States(lines[1..], After(parent, lines[0]))
  }

  predicate EndsWithNewline(s: string) {
    s != "" && s[|s| - 1] == '\n'
  }

  /** `quote_yaml11_booleans` */
  function QuoteBooleans(yaml: string): string {
    Join(QuoteLines(Lines(yaml), None), "\n") + if EndsWithNewline(yaml) then "\n" else ""
  }

  // ----- a line is quoted once -----

  lemma BoolWords(s: string)
    requires LooksLikeBool(s)
    ensures 1 <= |s| <= 3 && forall i :: 0 <= i < |s| ==> 'a' <= AsciiLower(s[i]) <= 'z'
  {}

  lemma BoolLetters(s: string)
    requires LooksLikeBool(s)
    ensures 1 <= |s| <= 3
    ensures forall i :: 0 <= i < |s| ==> s[i] !in [' ', ':', '-', '\'', '"', '\r', '\n', '|', '>'] && !IsWhitespace(s[i])
  {
    BoolWords(s);
    forall i | 0 <= i < |s| ensures s[i] !in [' ', ':', '-', '\'', '"', '\r', '\n', '|', '>'] && !IsWhitespace(s[i]) {
      LetterIsPlain(s[i]);
    }
  }

  lemma LetterIsPlain(c: char)
    requires 'a' <= AsciiLower(c) <= 'z'
    ensures c !in [' ', ':', '-', '\'', '"', '\r', '\n', '|', '>'] && !IsWhitespace(c)
  {}

  /** The lines this changes, and how: the last word, a boolean, gets its quotes. */
  ghost predicate IsRequoted(line: string, out: string, at: nat) {
    && 2 <= at < |line| && line[at - 1] == ' '
    && LooksLikeBool(line[at..])
    && out == line[..at] + "'" + line[at..] + "'"
  }

  /** Requoting a line leaves it alone or quotes its final boolean word. */
  lemma RequoteQuotesTheLastWord(line: string)
    ensures Requote(line) == line || exists at :: IsRequoted(line, Requote(line), at)
  {
    if Requote(line) != line {
      assert IsRequoted(line, Requote(line), ValueStart(line).value);
    }
  }

  lemma TrimStartOfLonger(a: string, b: string)
    requires TrimStart(a) != []
    ensures TrimStart(a + b) == TrimStart(a) + b
  {
    if IsWhitespace(a[0]) {
      assert (a + b)[1..] == a[1..] + b;
      TrimStartOfLonger(a[1..], b);
    }
  }

  lemma FindSeparatorIs(s: string, i: nat)
    requires i + 2 <= |s| && s[i] == ':' && s[i + 1] == ' '
    requires forall j :: 0 <= j < i ==> !(s[j] == ':' && s[j + 1] == ' ')
    ensures FindSeparator(s) == Some(i)
  {
    assert s[i] == ':' && s[i + 1] == ' ';
    var r := FindSeparator(s);
  }

  lemma NoSeparator(s: string)
    requires forall j :: 0 <= j < |s| - 1 ==> !(s[j] == ':' && s[j + 1] == ' ')
    ensures FindSeparator(s).None?
  {}

  /** The value of a requoted line starts where it did. */
  lemma RequotedValueStart(line: string, at: nat)
    requires ValueStart(line) == Some(at) && LooksLikeBool(line[at..])
    ensures ValueStart(line[..at] + "'" + line[at..] + "'") == Some(at)
  {
    hide LooksLikeBool, IsWhitespace, TrimStart;
    BoolLetters(line[at..]);
    var value := line[at..];
    var out := line[..at] + "'" + value + "'";
    assert forall j :: 0 <= j < at ==> out[j] == line[j];
    assert forall j :: at <= j < |line| ==> line[j] == value[j - at];
    assert forall j :: at < j < |out| - 1 ==> out[j] == value[j - at - 1];
    assert out[at] == '\'' && out[|out| - 1] == '\'';
    var sep := FindSeparator(line);
    if sep.Some? && sep.value + 2 < |line| {
      FindSeparatorIs(out, at - 2);
    } else {
      assert line[|line| - 1] == value[|value| - 1] && value[|value| - 1] != ' ';
      forall j | 0 <= j < |out| - 1 ensures !(out[j] == ':' && out[j + 1] == ' ') {
        if j + 1 < at {
          assert !(line[j] == ':' && line[j + 1] == ' ');
        }
      }
      NoSeparator(out);
      RequotedItem(line, at);
    }
  }

  lemma RequotedItem(line: string, at: nat)
    requires ItemStart(line) == Some(at)
    ensures ItemStart(line[..at] + "'" + line[at..] + "'") == Some(at)
  {
    hide TrimStart;
    var (front, tail) := (line[..at], "'" + line[at..] + "'");
    var out := front + tail;
    assert out == line[..at] + "'" + line[at..] + "'";
    TrimFront(line, at);
    var start := TrimStart(front);
    assert |start| == 2 && start[0] == TrimStart(line)[0] && start[1] == TrimStart(line)[1];
    TrimStartOfLonger(front, tail);
    assert TrimStart(out) == start + tail;
  }

  lemma {:induction false} TrimFront(line: string, at: nat)
    requires at <= |line| && at > |line| - |TrimStart(line)|
    ensures TrimStart(line[..at]) == line[|line| - |TrimStart(line)|..at]
  {
    if line != [] && IsWhitespace(line[0]) {
      assert line[..at][1..] == line[1..][..at - 1];
      TrimFront(line[1..], at - 1);
    }
  }

  /** Requoting a line twice is requoting it once. */
  lemma RequoteTwice(line: string)
    ensures Requote(Requote(line)) == Requote(line)
  {
    hide LooksLikeBool, ValueStart;
    var at := ValueStart(line);
    if Requote(line) != line {
      RequotedValueStart(line, at.value);
      var out := Requote(line);
      assert out[at.value..][0] == '\'';
    }
  }

  // ----- blocks are left alone -----

  lemma {:induction false} SplitLastSpaceIs(s: string, head: string, tail: string)
    requires s == head + " " + tail && ' ' !in tail
    ensures SplitLastSpace(s) == Some((head, tail))
    decreases |tail|
  {
    if tail == "" {
      assert s[|s| - 1] == ' ' && s[..|s| - 1] == head;
    } else {
      var n := |tail| - 1;
      assert s[|s| - 1] == tail[n] && tail[n] in tail;
      assert s[..|s| - 1] == head + " " + tail[..n];
      SplitLastSpaceIs(s[..|s| - 1], head, tail[..n]);
      assert tail[..n] + [tail[n]] == tail;
    }
  }

  /** A line whose last word is a boolean, quoted or not, opens no block. */
  lemma RequotedOpensNoBlock(line: string, out: string, at: nat)
    requires IsRequoted(line, out, at)
    ensures BlockScalarParent(line) == None && BlockScalarParent(out) == None
  {
    hide LooksLikeBool;
    var value := line[at..];
    BoolLetters(value);
    var head := line[..at - 1];
    assert line == head + " " + value;
    SplitLastSpaceIs(line, head, value);
    assert out == head + " " + ("'" + value + "'");
    SplitLastSpaceIs(out, head, "'" + value + "'");
    assert value[0] != '|' && value[0] != '>';
  }

  lemma RequotedStandsWhereItDid(line: string, out: string, at: nat)
    requires IsRequoted(line, out, at)
    ensures Indent(out) == Indent(line) && Trim(line) != "" && Trim(out) != ""
  {
    hide LooksLikeBool, TrimStart, TrimEnd, TrimSpaces, IsWhitespace;
    BoolLetters(line[at..]);
    var front := line[..at];
    assert line == front + line[at..];
    assert out == front + ("'" + line[at..] + "'");
    LettersEndTheIndent(front, line[at..]);
    LettersEndTheIndent(front, "'" + line[at..] + "'");
    assert line[|line| - 1] == line[at..][|line| - at - 1];
    NotBlank(line);
    assert !IsWhitespace('\'') by { QuoteIsNotBlank(); }
    NotBlank(out);
  }

  lemma QuoteIsNotBlank()
    ensures !IsWhitespace('\'')
  {}

  /** Quoting a line changes neither whether it is inside a block nor what block is
      open after it. */
  lemma RequoteKeepsBlocks(line: string)
    ensures BlockScalarParent(Requote(line)) == BlockScalarParent(line)
    ensures forall parent :: Inside(parent, Requote(line)) == Inside(parent, line)
  {
    hide BlockScalarParent, LooksLikeBool, Trim, Indent;
    if Requote(line) != line {
      var at := ValueStart(line).value;
      RequotedOpensNoBlock(line, Requote(line), at);
      RequotedStandsWhereItDid(line, Requote(line), at);
    }
  }

  lemma LettersEndTheIndent(front: string, word: string)
    requires word != "" && word[0] != ' '
    ensures Indent(front + word) == if TrimSpaces(front) == "" then |front| else Indent(front)
  {
    if front == "" {
      assert front + word == word;
    } else if front[0] == ' ' {
      assert (front + word)[1..] == front[1..] + word;
      LettersEndTheIndent(front[1..], word);
    }
  }

  lemma NotBlank(line: string)
    requires line != "" && !IsWhitespace(line[|line| - 1])
    ensures Trim(line) != ""
  {
    TrimStartKeepsEnd(line);
  }

  lemma {:induction false} TrimStartKeepsEnd(line: string)
    requires line != "" && !IsWhitespace(line[|line| - 1])
    ensures TrimStart(line) != "" && TrimStart(line)[|TrimStart(line)| - 1] == line[|line| - 1]
  {
    if IsWhitespace(line[0]) {
      TrimStartKeepsEnd(line[1..]);
    }
  }

  /** The block open before each line is the same before and after quoting, so the
      same lines are inside a block. */
  lemma {:induction false} QuotingKeepsStates(lines: seq<string>, parent: Option<nat>)
    ensures States(QuoteLines(lines, parent), parent) == States(lines, parent)
    decreases |lines|
  {
    hide Requote, BlockScalarParent, Inside;
    if lines != [] {
      RequoteKeepsBlocks(lines[0]);
      QuotingKeepsStates(lines[1..], After(parent, lines[0]));
      var out := QuoteLines(lines, parent);
      assert out[1..] == QuoteLines(lines[1..], After(parent, lines[0]));
    }
  }

  /** Each line comes out as it went in, or, outside every block, with its final
      boolean word in quotes; a line inside a block is never changed. */
  lemma {:induction false} QuotingTouchesOnlyBooleans(lines: seq<string>, parent: Option<nat>, i: nat)
    requires i < |lines|
    ensures var (out, state) := (QuoteLines(lines, parent)[i], States(lines, parent)[i]);
            if Inside(state, lines[i]) then out == lines[i]
            else out == lines[i] || exists at :: IsRequoted(lines[i], out, at)
    decreases |lines|
  {
    hide Requote, After, Inside, IsRequoted;
    if i == 0 {
      RequoteQuotesTheLastWord(lines[0]);
    } else {
      QuotingTouchesOnlyBooleans(lines[1..], After(parent, lines[0]), i - 1);
    }
  }

  /** No plain boolean word is left where a YAML 1.1 reader would look for one. */
  predicate ReadsAsBool(line: string) {
    match ValueStart(line) case None => false case Some(at) => LooksLikeBool(line[at..])
  }

  lemma RequoteLeavesNoBool(line: string)
    ensures !ReadsAsBool(Requote(line))
  {
    hide LooksLikeBool, ValueStart;
    var at := ValueStart(line);
    if at.Some? && LooksLikeBool(line[at.value..]) {
      BoolLetters(line[at.value..]);
      RequotedValueStart(line, at.value);
      var out := line[..at.value] + "'" + line[at.value..] + "'";
      assert out[at.value..][0] == '\'';
      if LooksLikeBool(out[at.value..]) {
        BoolLetters(out[at.value..]);
      }
    }
  }

  lemma {:induction false} NoBoolIsLeft(lines: seq<string>, parent: Option<nat>, i: nat)
    requires i < |lines|
    ensures var (out, state) := (QuoteLines(lines, parent)[i], States(lines, parent)[i]);
            !Inside(state, lines[i]) ==> !ReadsAsBool(out)
    decreases |lines|
  {
    hide Requote, After, Inside, ReadsAsBool;
    if i == 0 {
      RequoteLeavesNoBool(lines[0]);
    } else {
      NoBoolIsLeft(lines[1..], After(parent, lines[0]), i - 1);
    }
  }

  /** On lines, quoting twice is quoting once. */
  lemma {:induction false} QuotingLinesTwice(lines: seq<string>, parent: Option<nat>)
    ensures QuoteLines(QuoteLines(lines, parent), parent) == QuoteLines(lines, parent)
    decreases |lines|
  {
    hide Requote, BlockScalarParent, Inside;
    if lines != [] {
      RequoteKeepsBlocks(lines[0]);
      RequoteTwice(lines[0]);
      var out := QuoteLines(lines, parent);
      QuotingLinesTwice(lines[1..], After(parent, lines[0]));
      assert out[1..] == QuoteLines(lines[1..], After(parent, lines[0]));
    }
  }

  // ----- on a whole text -----

  lemma {:induction false} LastLineOfUnended(s: string)
    requires s != "" && !EndsWithNewline(s)
    ensures Lines(s) != [] && Lines(s)[|Lines(s)| - 1] != ""
    decreases |s|
  {
    hide StripCr;
    var at := IndexOf(s, '\n');
    if at.Some? {
      var more := s[at.value + 1..];
      assert at.value + 1 < |s|;
      assert more[|more| - 1] == s[|s| - 1];
      LastLineOfUnended(more);
    }
  }

  lemma NoLinesIffEmpty(s: string)
    ensures Lines(s) == [] <==> s == ""
  {
    hide IndexOf, StripCr;
  }

  /** Each line of a text that ends in a newline loses one carriage return, if it ends
      in one, when the text is read again. */
  function Reread(lines: seq<string>): seq<string> {
    seq(|lines|, i requires 0 <= i < |lines| => StripCr(lines[i]))
  }

  function Text(lines: seq<string>, ended: bool): string {
    Join(lines, "\n") + if ended then "\n" else ""
  }

  lemma {:induction false} LinesOfText(lines: seq<string>, ended: bool)
    requires OnOneLine(lines) && lines != [] && (!ended ==> lines[|lines| - 1] != "")
    ensures Lines(Text(lines, ended)) ==
            if ended then Reread(lines) else Reread(lines[..|lines| - 1]) + [lines[|lines| - 1]]
    ensures EndsWithNewline(Text(lines, ended)) == ended
    decreases |lines|
  {
    hide StripCr, Lines;
    if |lines| == 1 {
      assert lines == [lines[0]] && lines[..0] == [];
      if ended {
        assert Text(lines, true) == lines[0] + "\n" + "";
        LinesOfOneMore(lines[0], "");
        NoLinesIffEmpty("");
        assert Reread(lines) == [StripCr(lines[0])] + [];
      } else {
        assert Text(lines, false) == lines[0];
        LinesOfUnended(lines[0]);
        assert Reread(lines[..0]) + [lines[0]] == [lines[0]];
        assert lines[0][|lines[0]| - 1] in lines[0];
      }
    } else {
      hide Text, Reread;
      var rest := lines[1..];
      LinesOfText(rest, ended);
      TextOneMore(lines, ended);
      LinesOfOneMore(lines[0], Text(rest, ended));
      RereadOneMore(lines);
    }
  }

  lemma TextOneMore(lines: seq<string>, ended: bool)
    requires |lines| > 1
    ensures var more := Text(lines[1..], ended);
            Text(lines, ended) == lines[0] + "\n" + more && (EndsWithNewline(more) == ended ==> EndsWithNewline(Text(lines, ended)) == ended || more == "")
    ensures Text(lines[1..], ended) == "" ==> !ended && lines[1..] == [""]
  {
    assert |lines| == 2 ==> lines[1..] == [lines[1]];
  }

  lemma RereadOneMore(lines: seq<string>)
    requires |lines| > 1
    ensures var rest := lines[1..];
            && Reread(lines) == [StripCr(lines[0])] + Reread(rest)
            && Reread(lines[..|lines| - 1]) + [lines[|lines| - 1]]
               == [StripCr(lines[0])] + (Reread(rest[..|rest| - 1]) + [rest[|rest| - 1]])
  {
    hide StripCr;
  }

  lemma LinesOfUnended(line: string)
    requires '\n' !in line && line != ""
    ensures Lines(line) == [line]
  {
    assert IndexOf(line, '\n').None?;
  }

  lemma LineKeepsEnds(parent: Option<nat>, line: string)
    ensures '\n' !in line ==> '\n' !in Line(parent, line)
    ensures Line(parent, line) == "" <==> line == ""
    ensures EndsInCr(Line(parent, line)) <==> EndsInCr(line)
  {
    hide Inside, LooksLikeBool, ValueStart;
    var out := Line(parent, line);
    if out != line {
      var at := ValueStart(line).value;
      BoolLetters(line[at..]);
      assert line[|line| - 1] == line[at..][|line| - at - 1];
      assert out[|out| - 1] == '\'';
      assert forall c :: c in out ==> c in line || c == '\'';
    }
  }

  predicate EndsInCr(line: string) {
    line != "" && line[|line| - 1] == '\r'
  }

  lemma {:induction false} QuotedLinesAreSingle(lines: seq<string>, parent: Option<nat>)
    requires OnOneLine(lines)
    ensures OnOneLine(QuoteLines(lines, parent))
    ensures forall i :: 0 <= i < |lines| ==> (QuoteLines(lines, parent)[i] == "" <==> lines[i] == "")
    ensures forall i :: 0 <= i < |lines| ==> (EndsInCr(QuoteLines(lines, parent)[i]) <==> EndsInCr(lines[i]))
    decreases |lines|
  {
    hide Line, After, EndsInCr;
    if lines != [] {
      LineKeepsEnds(parent, lines[0]);
      QuotedLinesAreSingle(lines[1..], After(parent, lines[0]));
    }
  }

  /** Quoting keeps the number of lines, and the newline at the end. */
  lemma LineCountIsKept(yaml: string)
    ensures |Lines(QuoteBooleans(yaml))| == |Lines(yaml)|
    ensures EndsWithNewline(QuoteBooleans(yaml)) == EndsWithNewline(yaml)
  {
    hide Lines, QuoteLines, Join;
    NoLinesIffEmpty(yaml);
    if yaml != "" {
      QuotedText(yaml);
    } else {
      NoLinesIffEmpty(QuoteBooleans(yaml));
      NothingQuoted();
    }
  }

  lemma NothingQuoted()
    ensures QuoteLines([], None) == [] && Join([], "\n") == "" && !EndsWithNewline("")
  {}

  /** The lines a quoted text is read as when it is quoted again. */
  lemma QuotedText(yaml: string)
    requires yaml != ""
    ensures var (out, ended) := (QuoteLines(Lines(yaml), None), EndsWithNewline(yaml));
            && QuoteBooleans(yaml) == Text(out, ended) && OnOneLine(out) && out != []
            && EndsWithNewline(QuoteBooleans(yaml)) == ended
            && Lines(QuoteBooleans(yaml)) == if ended then Reread(out) else Reread(out[..|out| - 1]) + [out[|out| - 1]]
  {
    hide Lines, QuoteLines, Join, OnOneLine, Reread;
    var lines := Lines(yaml);
    LinesAreSingle(yaml);
    NoLinesIffEmpty(yaml);
    QuotedLinesAreSingle(lines, None);
    if !EndsWithNewline(yaml) {
      LastLineOfUnended(yaml);
    }
    LinesOfText(QuoteLines(lines, None), EndsWithNewline(yaml));
  }

  // ----- what opens a block, and what it covers, on the text -----

  function Spaces(n: nat): string {
    if n == 0 then "" else " " + Spaces(n - 1)
  }

  lemma {:induction false} SpacesAre(n: nat)
    ensures |Spaces(n)| == n && forall i :: 0 <= i < n ==> Spaces(n)[i] == ' '
  {
    if n > 0 {
      SpacesAre(n - 1);
    }
  }

  lemma {:induction false} SpacesAreTrimmed(n: nat, s: string)
    ensures TrimSpaces(Spaces(n) + s) == TrimSpaces(s)
  {
    if n == 0 {
      assert "" + s == s;
    } else {
      assert (Spaces(n) + s)[1..] == Spaces(n - 1) + s;
      SpacesAreTrimmed(n - 1, s);
    }
  }

  /** A dash or a question mark with spaces behind it, any number of times. */
  datatype Mark = Mark(indicator: char, gap: nat)

  predicate AreMarks(marks: seq<Mark>) {
    forall i :: 0 <= i < |marks| ==> marks[i].indicator in {'-', '?'} && marks[i].gap >= 1
  }

  function Marked(marks: seq<Mark>): string {
    if marks == [] then "" else [marks[0].indicator] + Spaces(marks[0].gap) + Marked(marks[1..])
  }

  /** A key does not look like a space or a mark itself. */
  predicate IsKey(key: string) {
    key != "" && key[0] != ' ' && !(|key| >= 2 && key[0] in {'-', '?'} && key[1] == ' ')
  }

  /** The key that is found behind the marks is the one that stands there. */
  lemma {:induction false} KeyBehindMarks(n: nat, marks: seq<Mark>, key: string)
    requires AreMarks(marks) && IsKey(key)
    ensures KeyOf(TrimSpaces(Spaces(n) + (Marked(marks) + key))) == key
    decreases |marks|
  {
    hide KeyOf;
    if marks == [] {
      assert Marked(marks) + key == key;
      SpacesAreTrimmed(n, key);
      KeyIsItself(key);
    } else {
      hide Marked, Spaces, TrimSpaces, IsKey;
      var rest := Marked(marks[1..]) + key;
      var text := [marks[0].indicator] + (" " + (Spaces(marks[0].gap - 1) + rest));
      FirstMark(marks, key);
      SpacesAreTrimmed(n, text);
      MarkIsDropped(marks[0].indicator, Spaces(marks[0].gap - 1) + rest);
      KeyBehindMarks(marks[0].gap - 1, marks[1..], key);
    }
  }

  lemma FirstMark(marks: seq<Mark>, key: string)
    requires marks != [] && marks[0].gap >= 1
    ensures Marked(marks) + key == [marks[0].indicator] + (" " + (Spaces(marks[0].gap - 1) + (Marked(marks[1..]) + key)))
  {}

  lemma KeyIsItself(key: string)
    requires IsKey(key)
    ensures TrimSpaces(key) == key && KeyOf(key) == key
  {}

  lemma MarkIsDropped(indicator: char, rest: string)
    requires indicator in {'-', '?'}
    ensures var text := [indicator] + (" " + rest);
            TrimSpaces(text) == text && KeyOf(text) == KeyOf(TrimSpaces(rest))
  {
    var text := [indicator] + (" " + rest);
    assert text[1] == ' ' && text[2..] == rest;
  }

  /** `|` or `>`, then digits and signs. */
  predicate IsHeader(header: string) {
    header != "" && header[0] in {'|', '>'} && forall i :: 1 <= i < |header| ==> '0' <= header[i] <= '9' || header[i] in {'+', '-'}
  }

  /** No tag, or a `!`, no space, and the space behind it. */
  predicate IsTag(tag: string) {
    tag == "" || (|tag| >= 2 && tag[0] == '!' && tag[|tag| - 1] == ' ' && forall i :: 0 <= i < |tag| - 1 ==> tag[i] != ' ')
  }

  lemma {:induction false} LastSpaceIs(before: string, word: string)
    requires ' ' !in word
    ensures SplitLastSpace(before + " " + word) == Some((before, word))
    decreases |word|
  {
    var s := before + " " + word;
    if word == "" {
      assert s[..|s| - 1] == before;
    } else {
      var n := |word| - 1;
      assert s[..|s| - 1] == before + " " + word[..n];
      LastSpaceIs(before, word[..n]);
      assert word == word[..n] + [word[n]];
    }
  }

  /** The last word of a text is not a tag. */
  predicate EndsInNoTag(s: string) {
    match SplitLastSpace(s) case None => true case Some((_, word)) => word == "" || word[0] != '!'
  }

  /** A header behind a head, with a tag or without one. */
  lemma HeadIsFound(head: string, tag: string, header: string)
    requires IsHeader(header) && IsTag(tag) && (tag == "" ==> EndsInNoTag(head))
    ensures SplitLastSpace(head + " " + (tag + header)).Some?
    ensures var (before, word) := SplitLastSpace(head + " " + (tag + header)).value;
            word == header && WithoutTag(before) == head
  {
    hide SplitLastSpace;
    assert ' ' !in header;
    if tag == "" {
      assert tag + header == header;
      LastSpaceIs(head, header);
    } else {
      var word := tag[..|tag| - 1];
      assert tag == word + " ";
      assert head + " " + (tag + header) == head + " " + word + " " + header;
      LastSpaceIs(head + " " + word, header);
      LastSpaceIs(head, word);
    }
  }

  /** `key: |`, `- key: >-` and the like open a block past the column of the key. */
  lemma MappingOpensBlock(n: nat, marks: seq<Mark>, key: string, tag: string, header: string)
    requires AreMarks(marks) && IsKey(key + ":") && IsHeader(header) && IsTag(tag)
    requires tag == "" ==> EndsInNoTag(Spaces(n) + (Marked(marks) + (key + ":")))
    ensures BlockScalarParent(Spaces(n) + (Marked(marks) + (key + ":")) + " " + (tag + header)) == Some(n + |Marked(marks)|)
  {
    hide SplitLastSpace, WithoutTag, TrimSpaces, KeyOf, OnlyIndicators;
    var head := Spaces(n) + (Marked(marks) + (key + ":"));
    HeadIsFound(head, tag, header);
    KeyBehindMarks(n, marks, key + ":");
    SpacesAre(n);
    assert head[|head| - 1] == ':';
  }

  lemma {:induction false} SpacesStandAlone(n: nat, s: string, start: bool)
    requires n > 0
    ensures Alone(Spaces(n) + s, start) == Alone(s, true)
  {
    var text := Spaces(n) + s;
    assert text[0] == ' ' && text[1..] == Spaces(n - 1) + s;
    if n == 1 {
      assert Spaces(0) + s == s;
    } else {
      SpacesStandAlone(n - 1, s, true);
    }
  }

  lemma {:induction false} MarksStandAlone(marks: seq<Mark>, indicator: char)
    requires AreMarks(marks) && indicator in {'-', '?'}
    ensures Alone(Marked(marks) + [indicator], true)
    decreases |marks|
  {
    if marks == [] {
      assert Marked(marks) + [indicator] == [indicator];
      OneStandsAlone(indicator, "");
      assert [indicator] + "" == [indicator];
    } else {
      var rest := Marked(marks[1..]) + [indicator];
      var tail := Spaces(marks[0].gap) + rest;
      assert Marked(marks) + [indicator] == [marks[0].indicator] + tail;
      MarksStandAlone(marks[1..], indicator);
      SpacesStandAlone(marks[0].gap, rest, false);
      OneStandsAlone(marks[0].indicator, tail);
    }
  }

  lemma OneStandsAlone(indicator: char, tail: string)
    requires indicator in {'-', '?'}
    ensures Alone([indicator] + tail, true) == Alone(tail, false)
    ensures Alone("", false)
  {
    assert ([indicator] + tail)[1..] == tail;
  }

  lemma {:induction false} MarksAreAscii(marks: seq<Mark>)
    requires AreMarks(marks)
    ensures forall i :: 0 <= i < |Marked(marks)| ==> Marked(marks)[i] in {'-', '?', ' '}
  {
    if marks != [] {
      MarksAreAscii(marks[1..]);
      SpacesAre(marks[0].gap);
    }
  }

  lemma {:induction false} MarksAreBytes(s: string)
    requires forall i :: 0 <= i < |s| ==> s[i] in {'-', '?', ' '}
    ensures ByteLen(s) == |s|
  {
    if s != "" {
      MarksAreBytes(s[1..]);
    }
  }

  /** `- |`, `? >-`, `- - |` and the like open one past the column of the last mark. */
  lemma SequenceOpensBlock(n: nat, marks: seq<Mark>, indicator: char, tag: string, header: string)
    requires AreMarks(marks) && indicator in {'-', '?'} && IsHeader(header) && IsTag(tag)
    ensures BlockScalarParent(Spaces(n) + (Marked(marks) + [indicator]) + " " + (tag + header)) == Some(n + |Marked(marks)|)
  {
    var head := Spaces(n) + (Marked(marks) + [indicator]);
    hide SplitLastSpace, WithoutTag, Alone, Trim, ByteLen, EndsInNoTag, IsHeader, IsTag, Marked;
    HeadOfMarks(n, marks, indicator);
    HeadIsFound(head, tag, header);
    HeaderOpens(header);
    hide IsBlockHeader;
    assert head[|head| - 1] != ':';
  }

  lemma HeaderOpens(header: string)
    requires IsHeader(header)
    ensures IsBlockHeader(header)
  {}

  lemma HeadOfMarks(n: nat, marks: seq<Mark>, indicator: char)
    requires AreMarks(marks) && indicator in {'-', '?'}
    ensures var head := Spaces(n) + (Marked(marks) + [indicator]);
            && |head| == n + |Marked(marks)| + 1 && head[|head| - 1] == indicator
            && EndsInNoTag(head) && OnlyIndicators(head) && ByteLen(head) == |head|
  {
    var head := Spaces(n) + (Marked(marks) + [indicator]);
    hide SplitLastSpace, Alone, Trim, ByteLen, EndsInNoTag, Marked;
    SpacesAre(n);
    MarksAreAscii(marks);
    assert head[|head| - 1] == indicator;
    assert forall i :: 0 <= i < |head| ==> head[i] in {'-', '?', ' '};
    MarksAreBytes(head);
    MarksEndInNoTag(head);
    MarksStandAlone(marks, indicator);
    EndsInAMark(head);
    if n > 0 {
      SpacesStandAlone(n, Marked(marks) + [indicator], true);
    } else {
      assert head == Marked(marks) + [indicator];
    }
  }

  lemma MarksEndInNoTag(head: string)
    requires forall i :: 0 <= i < |head| ==> head[i] in {'-', '?', ' '}
    ensures EndsInNoTag(head)
  {
    hide SplitLastSpace;
    var cut := SplitLastSpace(head);
    if cut.Some? && cut.value.1 != "" {
      assert head == cut.value.0 + " " + cut.value.1;
      assert cut.value.1[0] == head[|cut.value.0| + 1];
    }
  }

  lemma EndsInAMark(head: string)
    requires head != "" && head[|head| - 1] in {'-', '?'}
    ensures Trim(head) != ""
  {
    assert !IsWhitespace(head[|head| - 1]);
    TrimsAwayIffBlank(head);
  }

  lemma TrimsAwayIffBlank(s: string)
    ensures Trim(s) == "" <==> AllBlank(s)
  {
    hide IsWhitespace;
    var pre, post := TrimCuts(s);
    assert Trim(s) == "" ==> s == pre + post;
    if AllBlank(s) {
      assert s + "" == s;
      TrimStartPads(s, "");
    }
  }

  /** A line of a block past column `parent`: blank, or deeper. */
  predicate IsDeeper(parent: nat, line: string) {
    AllBlank(line) || (|line| > parent && forall i :: 0 <= i <= parent ==> line[i] == ' ')
  }

  lemma {:induction false} SpacesInFront(n: nat, line: string)
    requires n <= |line| && forall i :: 0 <= i < n ==> line[i] == ' '
    ensures line == Spaces(n) + line[n..]
  {
    SpacesAre(n);
    assert line == line[..n] + line[n..];
    assert line[..n] == Spaces(n);
  }

  lemma DeeperIsInside(parent: nat, line: string)
    requires IsDeeper(parent, line)
    ensures Inside(Some(parent), line)
  {
    TrimsAwayIffBlank(line);
    if !AllBlank(line) {
      SpacesInFront(parent + 1, line);
      SpacesAreTrimmed(parent + 1, line[parent + 1..]);
    }
  }

  predicate StartsAt(line: string, n: nat) {
    n < |line| && !IsWhitespace(line[n]) && forall i :: 0 <= i < n ==> line[i] == ' '
  }

  /** Outside a block: a line that is neither blank nor deeper. */
  ghost predicate IsShallow(parent: nat, line: string) {
    exists n: nat :: n <= parent && StartsAt(line, n)
  }

  lemma ShallowIsOutside(parent: nat, line: string)
    requires IsShallow(parent, line)
    ensures !Inside(Some(parent), line)
  {
    var n: nat :| n <= parent && StartsAt(line, n);
    TrimsAwayIffBlank(line);
    SpacesInFront(n, line);
    SpacesAreTrimmed(n, line[n..]);
    assert IsWhitespace(' ');
    assert TrimSpaces(line[n..]) == line[n..];
  }

  /** The lines of a block come out as they went in, and the first line that is not
      deeper ends it. */
  lemma {:induction false} BlockIsUntouched(parent: nat, content: seq<string>, rest: seq<string>)
    requires forall i :: 0 <= i < |content| ==> IsDeeper(parent, content[i])
    ensures QuoteLines(content + rest, Some(parent)) == content + QuoteLines(rest, Some(parent))
    ensures rest != [] && IsShallow(parent, rest[0]) ==> QuoteLines(rest, Some(parent)) == QuoteLines(rest, None)
    decreases |content|
  {
    hide Inside, IsDeeper, IsShallow, Requote, BlockScalarParent;
    if rest != [] && IsShallow(parent, rest[0]) {
      ShallowIsOutside(parent, rest[0]);
      NothingIsInsideNone(rest[0]);
    }
    if content == [] {
      assert content + rest == rest;
    } else {
      DeeperIsInside(parent, content[0]);
      assert (content + rest)[1..] == content[1..] + rest;
      BlockIsUntouched(parent, content[1..], rest);
    }
  }

  lemma NothingIsInsideNone(line: string)
    ensures !Inside(None, line)
  {}

  /** A line that opens a block is left alone, and so are the deeper and blank lines
      behind it, up to the first that is neither. */
  lemma OpenedBlockIsUntouched(open: string, parent: nat, content: seq<string>, rest: seq<string>)
    requires BlockScalarParent(open) == Some(parent)
    requires forall i :: 0 <= i < |content| ==> IsDeeper(parent, content[i])
    requires rest == [] || IsShallow(parent, rest[0])
    ensures QuoteLines([open] + (content + rest), None) == [open] + content + QuoteLines(rest, None)
  {
    hide IsDeeper, IsShallow, BlockScalarParent, Requote, Inside;
    NothingIsInsideNone(open);
    OpenerIsNotRequoted(open);
    BlockIsUntouched(parent, content, rest);
    assert ([open] + (content + rest))[1..] == content + rest;
  }

  lemma OpenerIsNotRequoted(open: string)
    requires BlockScalarParent(open).Some?
    ensures Requote(open) == open
  {
    hide BlockScalarParent, IsRequoted, Requote;
    RequoteQuotesTheLastWord(open);
    if at :| IsRequoted(open, Requote(open), at) {
      RequotedOpensNoBlock(open, Requote(open), at);
      assert false;
    }
  }

  /** The words, in any case, behind `key: ` or `- `: quoted; anything else is not. */
  lemma PlainBoolIsQuoted(front: string, word: string)
    requires front != "" && '\n' !in front
    requires forall j :: 0 <= j < |front| - 1 ==> !(front[j] == ':' && front[j + 1] == ' ')
    requires word != "" && ' ' !in word
    ensures Requote(front + ": " + word)
            == if LowerAscii(word) in ["y", "yes", "n", "no", "on", "off"] then front + ": " + "'" + word + "'" else front + ": " + word
  {
    hide LooksLikeBool, FindSeparator;
    var line := front + ": " + word;
    SeparatorComesFirst(front, word);
    QuotedOrNot(line, |front| + 2, front + ": ", word);
  }

  lemma SeparatorComesFirst(front: string, word: string)
    requires forall j :: 0 <= j < |front| - 1 ==> !(front[j] == ':' && front[j + 1] == ' ')
    ensures FindSeparator(front + ": " + word) == Some(|front|)
  {
    var line := front + ": " + word;
    FindSeparatorIs(line, |front|);
  }

  /** What becomes of a line whose value starts at `at`. */
  lemma QuotedOrNot(line: string, at: nat, front: string, word: string)
    requires line == front + word && at == |front| && word != "" && ValueStart(line) == Some(at)
    ensures Requote(line) == if LowerAscii(word) in ["y", "yes", "n", "no", "on", "off"] then front + "'" + word + "'" else line
  {
    hide ValueStart;
    assert line[at..] == word && line[..at] == front;
    BoolIff(word);
    hide LooksLikeBool;
    if LooksLikeBool(word) {
      BoolLetters(word);
    }
  }

  lemma BoolIff(word: string)
    ensures LooksLikeBool(word) <==> LowerAscii(word) in ["y", "yes", "n", "no", "on", "off"]
  {}

  lemma BoolItemIsQuoted(n: nat, word: string)
    requires word != "" && ' ' !in word
    ensures Requote(Spaces(n) + ("- " + word))
            == if LowerAscii(word) in ["y", "yes", "n", "no", "on", "off"] then Spaces(n) + "- " + "'" + word + "'" else Spaces(n) + ("- " + word)
  {
    hide LooksLikeBool, ValueStart;
    var line := Spaces(n) + ("- " + word);
    ItemIsFound(n, word);
    SpacesAre(n);
    assert line == (Spaces(n) + "- ") + word;
    QuotedOrNot(line, n + 2, Spaces(n) + "- ", word);
  }

  lemma ItemIsFound(n: nat, word: string)
    requires word != "" && ' ' !in word
    ensures ValueStart(Spaces(n) + ("- " + word)) == Some(n + 2)
  {
    hide FindSeparator, ItemStart, Spaces;
    ItemHasNoSeparator(n, word);
    ItemStartIs(n, word);
  }

  lemma ItemHasNoSeparator(n: nat, word: string)
    requires ' ' !in word
    ensures FindSeparator(Spaces(n) + ("- " + word)).None?
  {
    hide Spaces, FindSeparator;
    var line := Spaces(n) + ("- " + word);
    SpacesAre(n);
    forall j | 0 <= j < |line| - 1 ensures !(line[j] == ':' && line[j + 1] == ' ') {
      if j > n {
        assert line[j + 1] == word[j - n - 1];
      } else if j == n {
        assert line[j] == '-';
      }
    }
    NoSeparator(line);
  }

  lemma ItemStartIs(n: nat, word: string)
    requires word != ""
    ensures ItemStart(Spaces(n) + ("- " + word)) == Some(n + 2)
  {
    hide Spaces, TrimStart, IsWhitespace;
    var item := "- " + word;
    SpacesAre(n);
    SpacesAreBlank(n);
    TrimStartPads(Spaces(n), item);
    DashStays(item);
    ItemStartOf(Spaces(n) + item, item);
  }

  lemma ItemStartOf(line: string, item: string)
    requires TrimStart(line) == item && |item| > 2 && item[0] == '-' && item[1] == ' '
    ensures ItemStart(line) == Some(|line| - |item| + 2)
  {
    hide TrimStart, IsWhitespace;
  }

  lemma DashStays(item: string)
    requires item != "" && item[0] == '-'
    ensures TrimStart(item) == item
  {}

  lemma SpacesAreBlank(n: nat)
    ensures AllBlank(Spaces(n))
  {
    SpacesAre(n);
  }

  /** Two carriage returns before a newline: `lines()` takes one of them off. */
  ghost predicate HasDoubleCr(yaml: string) {
    exists i :: 0 <= i < |yaml| - 2 && DoubleCrAt(yaml, i)
  }

  predicate DoubleCrAt(s: string, i: nat)
    requires i + 2 < |s|
  {
    s[i] == '\r' && s[i + 1] == '\r' && s[i + 2] == '\n'
  }

  /** Line `i` still ends in a carriage return, with a newline after it. */
  ghost predicate KeepsCr(lines: seq<string>, ended: bool, i: nat) {
    i < |lines| && (ended || i + 1 < |lines|) && EndsInCr(lines[i])
  }

  ghost predicate SomeLineKeepsCr(lines: seq<string>, ended: bool) {
    exists i: nat :: KeepsCr(lines, ended, i)
  }

  lemma {:induction false} DoubleCrIsInALine(yaml: string)
    ensures HasDoubleCr(yaml) <==> SomeLineKeepsCr(Lines(yaml), EndsWithNewline(yaml))
    decreases |yaml|
  {
    hide StripCr, EndsInCr;
    var at := IndexOf(yaml, '\n');
    if at.None? {
      NoNewlineNoDoubleCr(yaml);
    } else {
      hide IndexOf;
      var (line, more) := (yaml[..at.value], yaml[at.value + 1..]);
      assert yaml == line + "\n" + more;
      LinesOfOneMore(line, more);
      DoubleCrIsInALine(more);
      DoubleCrOfOneMore(line, more);
      KeepsCrOfOneMore(StripCr(line), Lines(more), EndsWithNewline(yaml));
      NoLinesIffEmpty(more);
      assert more != "" ==> more[|more| - 1] == yaml[|yaml| - 1];
    }
  }

  lemma NoNewlineNoDoubleCr(yaml: string)
    requires '\n' !in yaml
    ensures !HasDoubleCr(yaml) && !SomeLineKeepsCr(Lines(yaml), EndsWithNewline(yaml))
  {
    assert IndexOf(yaml, '\n').None?;
    assert |Lines(yaml)| <= 1;
    assert !EndsWithNewline(yaml);
  }

  lemma DoubleCrOfOneMore(line: string, more: string)
    requires '\n' !in line
    ensures HasDoubleCr(line + "\n" + more) <==> EndsInCr(StripCr(line)) || HasDoubleCr(more)
  {
    var (s, n) := (line + "\n" + more, |line|);
    assert forall k :: 0 <= k < n ==> s[k] == line[k] && line[k] != '\n';
    if HasDoubleCr(s) {
      var i :| 0 <= i < |s| - 2 && DoubleCrAt(s, i);
      if i + 2 > n {
        assert i > n;
        assert DoubleCrAt(more, i - n - 1);
      } else {
        assert i + 2 == n;
        assert line[n - 1] == '\r' && line[n - 2] == '\r';
      }
    }
    if EndsInCr(StripCr(line)) {
      assert line[n - 1] == '\r' && line[n - 2] == '\r';
      assert DoubleCrAt(s, n - 2);
    }
    if HasDoubleCr(more) {
      var i :| 0 <= i < |more| - 2 && DoubleCrAt(more, i);
      assert DoubleCrAt(s, n + 1 + i);
    }
  }

  lemma KeepsCrOfOneMore(first: string, rest: seq<string>, ended: bool)
    requires rest == [] ==> ended
    ensures SomeLineKeepsCr([first] + rest, ended) <==> EndsInCr(first) || SomeLineKeepsCr(rest, ended)
  {
    hide EndsInCr;
    var all := [first] + rest;
    if SomeLineKeepsCr(all, ended) {
      var i: nat :| KeepsCr(all, ended, i);
      if i > 0 {
        assert KeepsCr(rest, ended, i - 1);
      }
    }
    if EndsInCr(first) {
      assert KeepsCr(all, ended, 0);
    }
    if SomeLineKeepsCr(rest, ended) {
      var i: nat :| KeepsCr(rest, ended, i);
      assert KeepsCr(all, ended, i + 1);
    }
  }

  /** Quoting a text twice is quoting it once exactly when it holds no `\r\r\n`. What
      serde_yaml writes holds no carriage return at the end of a line. */
  lemma QuotingTwiceIffNoDoubleCr(yaml: string)
    ensures QuoteBooleans(QuoteBooleans(yaml)) == QuoteBooleans(yaml) <==> !HasDoubleCr(yaml)
  {
    hide HasDoubleCr, SomeLineKeepsCr, QuoteBooleans, Lines;
    DoubleCrIsInALine(yaml);
    if !HasDoubleCr(yaml) {
      WithoutDoubleCr(yaml);
    } else {
      WithDoubleCr(yaml);
    }
  }

  /** The shortest text that is not quoted once and for all. */
  lemma DoubleCrIsReadAway()
    ensures QuoteBooleans(QuoteBooleans("\r\r\n")) != QuoteBooleans("\r\r\n")
  {
    hide QuoteBooleans;
    assert DoubleCrAt("\r\r\n", 0);
    QuotingTwiceIffNoDoubleCr("\r\r\n");
  }

  lemma WithoutDoubleCr(yaml: string)
    requires !SomeLineKeepsCr(Lines(yaml), EndsWithNewline(yaml))
    ensures QuoteBooleans(QuoteBooleans(yaml)) == QuoteBooleans(yaml)
  {
    hide Lines, QuoteLines, EndsInCr, Join;
    if yaml == "" {
      NoLinesIffEmpty("");
      NothingQuoted();
    } else {
      var (lines, ended) := (Lines(yaml), EndsWithNewline(yaml));
      var out := QuoteLines(lines, None);
      LinesAreSingle(yaml);
      QuotedText(yaml);
      QuotedLinesAreSingle(lines, None);
      forall i | 0 <= i < |out| && (ended || i + 1 < |out|) ensures StripCr(out[i]) == out[i] {
        assert !KeepsCr(lines, ended, i);
        NoCrToStrip(out[i]);
      }
      assert Lines(QuoteBooleans(yaml)) == out;
      QuotingLinesTwice(lines, None);
    }
  }

  lemma NoCrToStrip(line: string)
    ensures EndsInCr(line) <==> StripCr(line) != line
  {}

  lemma WithDoubleCr(yaml: string)
    requires SomeLineKeepsCr(Lines(yaml), EndsWithNewline(yaml))
    ensures QuoteBooleans(QuoteBooleans(yaml)) != QuoteBooleans(yaml)
  {
    hide Lines, QuoteLines, EndsInCr, Join, StripCr, EndsWithNewline, OnOneLine;
    var (lines, ended) := (Lines(yaml), EndsWithNewline(yaml));
    NoLinesIffEmpty(yaml);
    var i: nat :| KeepsCr(lines, ended, i);
    var once := QuoteBooleans(yaml);
    var out := QuoteLines(lines, None);
    LinesAreSingle(yaml);
    QuotedText(yaml);
    QuotedLinesAreSingle(lines, None);
    var again := Lines(once);
    assert again[i] == StripCr(out[i]);
    NoLinesIffEmpty(once);
    QuotedText(once);
    var twice := QuoteLines(again, None);
    LineAt(again, None, i);
    CrIsNotPutBack(States(again, None)[i], out[i]);
    assert twice[i] != out[i];
    if QuoteBooleans(once) == once {
      TextIsFaithful(twice, out, ended);
    }
  }

  lemma {:induction false} LineAt(lines: seq<string>, parent: Option<nat>, i: nat)
    requires i < |lines|
    ensures QuoteLines(lines, parent)[i] == Line(States(lines, parent)[i], lines[i])
    decreases |lines|
  {
    hide Line, After;
    if i > 0 {
      LineAt(lines[1..], After(parent, lines[0]), i - 1);
    }
  }

  /** Once a carriage return is off a line, no quoting makes the line what it was. */
  lemma CrIsNotPutBack(parent: Option<nat>, line: string)
    requires EndsInCr(line)
    ensures Line(parent, StripCr(line)) != line
  {
    hide Inside, LooksLikeBool, ValueStart;
    var out := Line(parent, StripCr(line));
    if out != StripCr(line) {
      assert out[|out| - 1] == '\'';
    }
  }

  lemma TextIsFaithful(a: seq<string>, b: seq<string>, ended: bool)
    requires OnOneLine(a) && OnOneLine(b) && a != [] && b != [] && Text(a, ended) == Text(b, ended)
    ensures a == b
  {
    hide Join, SplitOn;
    assert "\n" == ['\n'];
    var (x, y) := (Join(a, "\n"), Join(b, "\n"));
    if ended {
      assert (x + "\n")[..|x + "\n"| - 1] == x && (y + "\n")[..|y + "\n"| - 1] == y;
    } else {
      assert x + "" == x && y + "" == y;
    }
    SplitJoined(a, '\n');
    SplitJoined(b, '\n');
  }

  // ----- as it runs -----

  method FindKey(head: string) returns (key: string)
    ensures key == KeyOf(TrimSpaces(head))
  {
    hide TrimSpaces;
    key := TrimSpaces(head);
    while |key| >= 2 && IsIndicator(key[0]) && key[1] == ' '
      invariant KeyOf(key) == KeyOf(TrimSpaces(head))
      decreases |key|
    {
      key := TrimSpaces(key[2..]);
    }
  }

  method FindBlockParent(line: string) returns (parent: Option<nat>)
    ensures parent == BlockScalarParent(line)
  {
    hide KeyOf, TrimSpaces, OnlyIndicators;
    var cut := SplitLastSpace(line);
    if cut.None? || !IsBlockHeader(cut.value.1) {
      return None;
    }
    var head := WithoutTag(cut.value.0);
    if head != "" && head[|head| - 1] == ':' {
      var key := FindKey(head);
      return Some(|head| - |key|);
    }
    if head != "" && OnlyIndicators(head) {
      ByteLenPositive(head);
      return Some(ByteLen(head) - 1);
    }
    return None;
  }

  /** The lines in order, `blockParent` being the block open before each. */
  method QuoteYaml11Booleans(yaml: string) returns (joined: string)
    ensures joined == QuoteBooleans(yaml)
  {
    hide Lines, Requote, BlockScalarParent, Trim, Indent;
    var lines := Lines(yaml);
    var out: seq<string> := [];
    var blockParent: Option<nat> := None;
    var i := 0;
    assert lines[0..] == lines && [] + QuoteLines(lines, None) == QuoteLines(lines, None);
    while i < |lines|
      invariant i <= |lines|
      invariant out + QuoteLines(lines[i..], blockParent) == QuoteLines(lines, None)
    {
      var line := lines[i];
      ghost var (before, more) := (out, QuoteLines(lines[i + 1..], After(blockParent, line)));
      assert lines[i..][1..] == lines[i + 1..];
      assert out + ([Line(blockParent, line)] + more) == out + [Line(blockParent, line)] + more;
      if blockParent.Some? && (Trim(line) == "" || Indent(line) > blockParent.value) {
        out := out + [line];
      } else {
        blockParent := FindBlockParent(line);
        out := out + [Requote(line)];
      }
      i := i + 1;
    }
    assert lines[i..] == [] && out + [] == out;
    joined := Join(out, "\n");
    if EndsWithNewline(yaml) {
      joined := joined + "\n";
    } else {
      assert joined + "" == joined;
    }
  }
}
