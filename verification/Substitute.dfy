/** Compose variable substitution, bounded. */
module Substitute {
  // `$VAR`, `${VAR}` and the six modifier forms, under a cap on one scalar's output,
  // a budget for a whole document and a cap on nesting, with unset variables reported
  // once a pass.

  import opened Prelude

  const MAX_INTERP_DEPTH: nat := 64
  const MAX_INTERP_OUTPUT_BYTES: nat := 4 * 1024 * 1024
  const MAX_INTERP_DOCUMENT_BYTES: nat := 16 * 1024 * 1024
  const USIZE_MAX: nat := 0xffff_ffff_ffff_ffff

  function SaturatingAdd(a: nat, b: nat): nat {
    if a + b > USIZE_MAX then USIZE_MAX else a + b
  }

  /** Unicode's alphabetic and numeric properties, which are not spelled out here. */
  datatype Alphabet = Alphabet(alphabetic: char -> bool, numeric: char -> bool)

  predicate IsVarStart(a: Alphabet, c: char) {
    a.alphabetic(c) || c == '_'
  }

  predicate IsVarChar(a: Alphabet, c: char) {
    a.alphabetic(c) || a.numeric(c) || c == '_'
  }

  // ----- reading a reference -----

  datatype Modifier =
    | Plain
    | DefaultIfUnsetOrEmpty(text: string)
    | DefaultIfUnset(text: string)
    | AltIfSetAndNonEmpty(text: string)
    | AltIfSet(text: string)
    | ErrorIfUnsetOrEmpty(text: string)
    | ErrorIfUnset(text: string)

  datatype SubstError =
    | BadName(name: string)
    | BadCharacter(c: char, name: string)
    | Unterminated
    | RequiredNotSet(name: string, msg: string)
    | TooDeep
    | PastOutputCap(name: string)
    | PastDocumentBudget(name: string)

  /** The errors that come from the limits, not from the text. */
  predicate IsLimit(e: SubstError) {
    e.TooDeep? || e.PastOutputCap? || e.PastDocumentBudget?
  }

  /** The longest run of name characters, and what follows it. */
  function VarName(a: Alphabet, s: string): (r: (string, string))
    ensures r.0 + r.1 == s
    ensures s != [] && IsVarChar(a, s[0]) ==> r.0 != []
  {
    if s != [] && IsVarChar(a, s[0]) then
      var (name, rest) := VarName(a, s[1..]);
      ([s[0]] + name, rest)
    else ("", s)
  }

  /** The text up to the matching `}`, and what follows that brace. */
  function UntilClose(s: string, depth: nat): (r: Option<(string, string)>)
    ensures r.Some? ==> |r.value.0| + 1 + |r.value.1| == |s|
  {
    if s == [] then None
    else if s[0] == '}' && depth == 0 then Some(("", s[1..]))
    else
      var inner := if s[0] == '{' then depth + 1 else if s[0] == '}' then depth - 1 else depth;
      match UntilClose(s[1..], inner)
      case None => None
      case Some((text, rest)) => Some(([s[0]] + text, rest))
  }

  datatype Reference = Reference(name: string, modifier: Modifier, rest: string)

  function ModifierText(m: Modifier): string {
    if m.Plain? then "" else m.text
  }

  function WithText(kind: string -> Modifier, name: string, s: string): Result<Reference, SubstError> {
    match UntilClose(s, 0)
    case None => Err(Unterminated)
    case Some((text, rest)) => Ok(Reference(name, kind(text), rest))
  }

  /** `parse_braced_var`, after the `{`. */
  function ParseBraced(a: Alphabet, s: string): (r: Result<Reference, SubstError>)
    ensures r.Ok? ==> |ModifierText(r.value.modifier)| + |r.value.rest| <= |s|
    ensures r.Err? ==> !IsLimit(r.error) && !r.error.RequiredNotSet?
  {
    var (name, rest) := VarName(a, s);
    if name == [] || !IsVarStart(a, name[0]) then Err(BadName(name))
    else if rest == [] then Ok(Reference(name, Plain, rest))
    else if rest[0] == '}' then Ok(Reference(name, Plain, rest[1..]))
    else if rest[0] == ':' then
      if |rest| > 1 && rest[1] == '-' then WithText(t => DefaultIfUnsetOrEmpty(t), name, rest[2..])
      else if |rest| > 1 && rest[1] == '+' then WithText(t => AltIfSetAndNonEmpty(t), name, rest[2..])
      else if |rest| > 1 && rest[1] == '?' then WithText(t => ErrorIfUnsetOrEmpty(t), name, rest[2..])
      else WithText(t => DefaultIfUnsetOrEmpty(t), name, rest[1..])
    else if rest[0] == '-' then WithText(t => DefaultIfUnset(t), name, rest[1..])
    else if rest[0] == '+' then WithText(t => AltIfSet(t), name, rest[1..])
    else if rest[0] == '?' then WithText(t => ErrorIfUnset(t), name, rest[1..])
    else Err(BadCharacter(rest[0], name))
  }

  // ----- what a text means, limits aside -----

  type Vars = map<string, string>

  /** What a modifier asks for: a value, another text to interpolate, or an error. */
  datatype Choice = Value(value: string) | Blank | Interpolate(text: string) | Missing(msg: string)

  function Choose(vars: Vars, name: string, m: Modifier): Choice {
    var filled := name in vars && vars[name] != "";
    match m
    case Plain => if name in vars then Value(vars[name]) else Blank
    case DefaultIfUnsetOrEmpty(t) => if filled then Value(vars[name]) else Interpolate(t)
    case DefaultIfUnset(t) => if name in vars then Value(vars[name]) else Interpolate(t)
    case AltIfSetAndNonEmpty(t) => if filled then Interpolate(t) else Value("")
    case AltIfSet(t) => if name in vars then Interpolate(t) else Value("")
    case ErrorIfUnsetOrEmpty(t) => if filled then Value(vars[name]) else Missing(t)
    case ErrorIfUnset(t) => if name in vars then Value(vars[name]) else Missing(t)
  }

  /** The text with every reference replaced, however long and however deep. */
  function Meaning(a: Alphabet, vars: Vars, s: string): (r: Result<string, SubstError>)
    ensures r.Err? ==> !IsLimit(r.error)
    decreases |s|, 1
  {
    if s == [] then Ok("")
    else if s[0] != '$' || |s| == 1 then Prepend([s[0]], Meaning(a, vars, s[1..]))
    else if s[1] == '$' then Prepend("$", Meaning(a, vars, s[2..]))
    else if s[1] == '{' then
      match ParseBraced(a, s[2..])
      case Err(e) => Err(e)
      case Ok(ref) =>
        match MeaningOf(a, vars, ref.name, ref.modifier, |s| - 1)
        case Err(e) => Err(e)
        case Ok(value) => Prepend(value, Meaning(a, vars, ref.rest))
    else if IsVarStart(a, s[1]) then
      var (name, rest) := VarName(a, s[1..]);
      Prepend(if name in vars then vars[name] else "", Meaning(a, vars, rest))
    else Prepend("$", Meaning(a, vars, s[1..]))
  }

  function MeaningOf(a: Alphabet, vars: Vars, name: string, m: Modifier, room: nat): (r: Result<string, SubstError>)
    requires |ModifierText(m)| < room
    ensures r.Err? ==> !IsLimit(r.error)
    decreases room, 0
  {
    match Choose(vars, name, m)
    case Value(v) => Ok(v)
    case Blank => Ok("")
    case Interpolate(t) => Meaning(a, vars, t)
    case Missing(msg) => Err(RequiredNotSet(name, msg))
  }

  function Prepend(front: string, r: Result<string, SubstError>): Result<string, SubstError> {
    match r case Ok(t) => Ok(front + t) case Err(e) => Err(e)
  }

  // ----- what the forms mean, on the text -----

  /** The characters that end a name are none of Unicode's letters and numbers. */
  predicate EndsNames(a: Alphabet) {
    !IsVarChar(a, '}') && !IsVarChar(a, ':') && !IsVarChar(a, '-') && !IsVarChar(a, '+') && !IsVarChar(a, '?')
  }

  predicate IsName(a: Alphabet, name: string) {
    name != "" && IsVarStart(a, name[0]) && forall i :: 0 <= i < |name| ==> IsVarChar(a, name[i])
  }

  /** How many braces are open at the end of a text. */
  function Nesting(s: string): int {
    if s == [] then 0 else (if s[0] == '{' then 1 else if s[0] == '}' then -1 else 0) + Nesting(s[1..])
  }

  /** No brace closes that the text did not open. */
  ghost predicate NeverCloses(t: string, depth: nat) {
    forall i :: 0 <= i <= |t| ==> depth + Nesting(t[..i]) >= 0
  }

  ghost predicate Balanced(t: string) {
    NeverCloses(t, 0) && Nesting(t) == 0
  }

  lemma NeverClosesAfter(t: string, depth: nat)
    requires t != [] && NeverCloses(t, depth)
    ensures var inner := depth + Nesting([t[0]]);
            inner >= 0 && NeverCloses(t[1..], inner) && depth + Nesting(t) == inner + Nesting(t[1..])
  {
    assert Nesting([t[0]]) == (if t[0] == '{' then 1 else if t[0] == '}' then -1 else 0) + Nesting([t[0]][1..]);
    assert t[..1] == [t[0]];
    var inner := depth + Nesting([t[0]]);
    forall i | 0 <= i <= |t[1..]| ensures inner + Nesting(t[1..][..i]) >= 0 {
      assert t[..i + 1][1..] == t[1..][..i];
      assert depth + Nesting(t[..i + 1]) >= 0;
    }
  }

  lemma {:induction false} ClosesAtTheBrace(t: string, rest: string, depth: nat)
    requires NeverCloses(t, depth) && depth + Nesting(t) == 0
    ensures UntilClose(t + "}" + rest, depth) == Some((t, rest))
  {
    var s := t + "}" + rest;
    if t == [] {
      assert s[1..] == rest;
    } else {
      hide NeverCloses, Nesting;
      NeverClosesAfter(t, depth);
      NestingOfOne(t[0]);
      var inner := depth + Nesting([t[0]]);
      assert s[1..] == t[1..] + "}" + rest;
      ClosesAtTheBrace(t[1..], rest, inner);
      assert t == [t[0]] + t[1..];
    }
  }

  lemma NestingOfOne(c: char)
    ensures Nesting([c]) == if c == '{' then 1 else if c == '}' then -1 else 0
  {
    assert [c][1..] == [];
  }

  lemma {:induction false} NeverClosed(t: string, depth: nat)
    requires NeverCloses(t, depth)
    ensures UntilClose(t, depth) == None
  {
    if t != [] {
      hide NeverCloses, Nesting;
      NeverClosesAfter(t, depth);
      NestingOfOne(t[0]);
      NeverClosed(t[1..], depth + Nesting([t[0]]));
    }
  }

  lemma {:induction false} NameIsRead(a: Alphabet, name: string, after: string)
    requires forall i :: 0 <= i < |name| ==> IsVarChar(a, name[i])
    requires after == [] || !IsVarChar(a, after[0])
    ensures VarName(a, name + after) == (name, after)
  {
    hide IsVarChar;
    if name == [] {
      assert name + after == after;
    } else {
      assert (name + after)[1..] == name[1..] + after;
      NameIsRead(a, name[1..], after);
      assert name == [name[0]] + name[1..];
    }
  }

  /** One text after another: the first error counts. */
  function Followed(first: Result<string, SubstError>, second: Result<string, SubstError>): Result<string, SubstError> {
    match first
    case Err(e) => Err(e)
    case Ok(front) => match second case Err(e) => Err(e) case Ok(back) => Ok(front + back)
  }

  function ModifierOf(form: string, t: string): Modifier
    requires form in {":-", ":+", ":?", ":", "-", "+", "?"}
  {
    if form == ":-" || form == ":" then DefaultIfUnsetOrEmpty(t)
    else if form == ":+" then AltIfSetAndNonEmpty(t)
    else if form == ":?" then ErrorIfUnsetOrEmpty(t)
    else if form == "-" then DefaultIfUnset(t)
    else if form == "+" then AltIfSet(t)
    else ErrorIfUnset(t)
  }

  /** What stands between the braces, after the name. */
  predicate IsForm(form: string, t: string) {
    && form in {":-", ":+", ":?", ":", "-", "+", "?"}
    && (form == ":" ==> t == "" || t[0] !in {'-', '+', '?'})
  }

  lemma FormIsRead(a: Alphabet, name: string, form: string, t: string, rest: string)
    requires EndsNames(a) && IsName(a, name) && IsForm(form, t) && Balanced(t)
    ensures ParseBraced(a, name + (form + (t + "}" + rest))) == Ok(Reference(name, ModifierOf(form, t), rest))
  {
    var tail := t + "}" + rest;
    var after := form + tail;
    NameIsRead(a, name, after);
    ClosesAtTheBrace(t, rest, 0);
    hide UntilClose, VarName, Balanced, IsVarChar, IsVarStart;
    assert after[|form|..] == tail;
    if form == ":" {
      assert |after| > 1 && after[1] == tail[0];
    }
  }

  lemma BracedMeans(a: Alphabet, vars: Vars, name: string, form: string, t: string, rest: string)
    requires EndsNames(a) && IsName(a, name) && IsForm(form, t) && Balanced(t)
    ensures var m := ModifierOf(form, t);
            Meaning(a, vars, "${" + name + form + t + "}" + rest)
            == Followed(MeaningOf(a, vars, name, m, |ModifierText(m)| + 1), Meaning(a, vars, rest))
  {
    hide Meaning, ParseBraced, EndsNames, IsName, Balanced, Followed;
    FormIsRead(a, name, form, t, rest);
    var inner := name + (form + (t + "}" + rest));
    var m := ModifierOf(form, t);
    ReferenceMeans(a, vars, inner, Reference(name, m, rest));
    assert "${" + name + form + t + "}" + rest == "${" + inner;
    RoomDoesNotMatter(a, vars, name, m, |inner| + 1, |ModifierText(m)| + 1);
  }

  lemma ReferenceMeans(a: Alphabet, vars: Vars, inner: string, ref: Reference)
    requires ParseBraced(a, inner) == Ok(ref) && |ModifierText(ref.modifier)| <= |inner|
    ensures Meaning(a, vars, "${" + inner)
            == Followed(MeaningOf(a, vars, ref.name, ref.modifier, |inner| + 1), Meaning(a, vars, ref.rest))
  {
    hide ParseBraced, Choose;
    assert ("${" + inner)[2..] == inner;
  }

  lemma BrokenReferenceMeans(a: Alphabet, vars: Vars, inner: string, e: SubstError)
    requires ParseBraced(a, inner) == Err(e)
    ensures Meaning(a, vars, "${" + inner) == Err(e)
  {
    hide ParseBraced;
    assert ("${" + inner)[2..] == inner;
  }

  lemma RoomDoesNotMatter(a: Alphabet, vars: Vars, name: string, m: Modifier, x: nat, y: nat)
    requires |ModifierText(m)| < x && |ModifierText(m)| < y
    ensures MeaningOf(a, vars, name, m, x) == MeaningOf(a, vars, name, m, y)
  {}

  predicate IsFilled(vars: Vars, name: string) {
    name in vars && vars[name] != ""
  }

  /** `${NAME:-t}` and `${NAME:t}`: the value unless it is unset or empty, else `t`. */
  lemma DefaultUnlessFilled(a: Alphabet, vars: Vars, name: string, t: string, rest: string)
    requires EndsNames(a) && IsName(a, name) && Balanced(t)
    ensures var meant := Followed(if IsFilled(vars, name) then Ok(vars[name]) else Meaning(a, vars, t), Meaning(a, vars, rest));
            && Meaning(a, vars, "${" + name + ":-" + t + "}" + rest) == meant
            && (t == "" || t[0] !in {'-', '+', '?'} ==> Meaning(a, vars, "${" + name + ":" + t + "}" + rest) == meant)
  {
    hide Meaning, IsName, EndsNames, Balanced;
    BracedMeans(a, vars, name, ":-", t, rest);
    if t == "" || t[0] !in {'-', '+', '?'} {
      BracedMeans(a, vars, name, ":", t, rest);
    }
  }

  /** `${NAME-t}`: the value unless it is unset, else `t`. */
  lemma DefaultUnlessSet(a: Alphabet, vars: Vars, name: string, t: string, rest: string)
    requires EndsNames(a) && IsName(a, name) && Balanced(t)
    ensures Meaning(a, vars, "${" + name + "-" + t + "}" + rest)
            == Followed(if name in vars then Ok(vars[name]) else Meaning(a, vars, t), Meaning(a, vars, rest))
  {
    hide Meaning, IsName, EndsNames, Balanced;
    BracedMeans(a, vars, name, "-", t, rest);
  }

  /** `${NAME:+t}`: `t` where the value is set and not empty, else nothing. */
  lemma AlternateIfFilled(a: Alphabet, vars: Vars, name: string, t: string, rest: string)
    requires EndsNames(a) && IsName(a, name) && Balanced(t)
    ensures Meaning(a, vars, "${" + name + ":+" + t + "}" + rest)
            == Followed(if IsFilled(vars, name) then Meaning(a, vars, t) else Ok(""), Meaning(a, vars, rest))
  {
    hide Meaning, IsName, EndsNames, Balanced;
    BracedMeans(a, vars, name, ":+", t, rest);
  }

  /** `${NAME+t}`: `t` where the value is set, else nothing. */
  lemma AlternateIfSet(a: Alphabet, vars: Vars, name: string, t: string, rest: string)
    requires EndsNames(a) && IsName(a, name) && Balanced(t)
    ensures Meaning(a, vars, "${" + name + "+" + t + "}" + rest)
            == Followed(if name in vars then Meaning(a, vars, t) else Ok(""), Meaning(a, vars, rest))
  {
    hide Meaning, IsName, EndsNames, Balanced;
    BracedMeans(a, vars, name, "+", t, rest);
  }

  /** `${NAME:?t}`: the value, or an error with `t` as it stands where it is unset or
      empty. */
  lemma ErrorUnlessFilled(a: Alphabet, vars: Vars, name: string, t: string, rest: string)
    requires EndsNames(a) && IsName(a, name) && Balanced(t)
    ensures Meaning(a, vars, "${" + name + ":?" + t + "}" + rest)
            == Followed(if IsFilled(vars, name) then Ok(vars[name]) else Err(RequiredNotSet(name, t)), Meaning(a, vars, rest))
  {
    hide Meaning, IsName, EndsNames, Balanced;
    BracedMeans(a, vars, name, ":?", t, rest);
  }

  /** `${NAME?t}`: the value, or an error with `t` as it stands where it is unset. */
  lemma ErrorUnlessSet(a: Alphabet, vars: Vars, name: string, t: string, rest: string)
    requires EndsNames(a) && IsName(a, name) && Balanced(t)
    ensures Meaning(a, vars, "${" + name + "?" + t + "}" + rest)
            == Followed(if name in vars then Ok(vars[name]) else Err(RequiredNotSet(name, t)), Meaning(a, vars, rest))
  {
    hide Meaning, IsName, EndsNames, Balanced;
    BracedMeans(a, vars, name, "?", t, rest);
  }

  function ValueOrNothing(vars: Vars, name: string): string {
    if name in vars then vars[name] else ""
  }

  /** `${NAME}`, and `${NAME` at the end of a text: the value, or nothing. */
  lemma BracedNameMeansItsValue(a: Alphabet, vars: Vars, name: string, rest: string)
    requires EndsNames(a) && IsName(a, name)
    ensures Meaning(a, vars, "${" + name + "}" + rest) == Followed(Ok(ValueOrNothing(vars, name)), Meaning(a, vars, rest))
    ensures Meaning(a, vars, "${" + name) == Ok(ValueOrNothing(vars, name))
  {
    NameIsRead(a, name, "}" + rest);
    NameIsRead(a, name, "");
    hide VarName, IsVarChar, IsVarStart;
    var (s, u) := ("${" + name + "}" + rest, "${" + name);
    assert s[2..] == name + ("}" + rest) && ("}" + rest)[1..] == rest;
    assert u[2..] == name && name + "" == name;
    assert ParseBraced(a, s[2..]) == Ok(Reference(name, Plain, rest));
    assert ParseBraced(a, u[2..]) == Ok(Reference(name, Plain, ""));
    hide ParseBraced;
    assert Meaning(a, vars, "") == Ok("");
    assert ValueOrNothing(vars, name) + "" == ValueOrNothing(vars, name);
  }

  /** `$NAME`, up to a character no name goes on with: the value, or nothing. */
  lemma BareNameMeansItsValue(a: Alphabet, vars: Vars, name: string, rest: string)
    requires IsName(a, name) && name[0] !in {'$', '{'} && (rest == "" || !IsVarChar(a, rest[0]))
    ensures Meaning(a, vars, "$" + name + rest) == Followed(Ok(ValueOrNothing(vars, name)), Meaning(a, vars, rest))
  {
    NameIsRead(a, name, rest);
    hide VarName, IsVarChar;
    var s := "$" + name + rest;
    assert s[1..] == name + rest && s[1] == name[0];
  }

  /** Anything else stands for itself: `$$` for a `$`, a `$` no reference begins with,
      any other character. */
  lemma OtherTextMeansItself(a: Alphabet, vars: Vars, c: char, rest: string)
    ensures Meaning(a, vars, "$$" + rest) == Followed(Ok("$"), Meaning(a, vars, rest))
    ensures c != '$' ==> Meaning(a, vars, [c] + rest) == Followed(Ok([c]), Meaning(a, vars, rest))
    ensures rest == "" || (rest[0] !in {'$', '{'} && !IsVarStart(a, rest[0])) ==>
              Meaning(a, vars, "$" + rest) == Followed(Ok("$"), Meaning(a, vars, rest))
  {
    hide IsVarStart;
    assert ("$$" + rest)[2..] == rest && ([c] + rest)[1..] == rest && ("$" + rest)[1..] == rest;
  }

  /** A reference that cannot be read: no name, no brace after a modifier, or another
      character after the name. */
  lemma BrokenReferencesFail(a: Alphabet, vars: Vars, name: string, form: string, t: string, c: char, rest: string)
    requires EndsNames(a) && IsName(a, name)
    ensures IsForm(form, t) && NeverCloses(t, 0) ==> Meaning(a, vars, "${" + name + form + t) == Err(Unterminated)
    ensures !IsVarChar(a, c) && c !in {'}', ':', '-', '+', '?'} ==>
              Meaning(a, vars, "${" + name + [c] + rest) == Err(BadCharacter(c, name))
    ensures rest == "" || !IsVarChar(a, rest[0]) ==> Meaning(a, vars, "${" + rest) == Err(BadName(""))
  {
    if IsForm(form, t) && NeverCloses(t, 0) {
      UnclosedFails(a, vars, name, form, t);
    }
    if !IsVarChar(a, c) && c !in {'}', ':', '-', '+', '?'} {
      StrangerFails(a, vars, name, c, rest);
    }
    if rest == "" || !IsVarChar(a, rest[0]) {
      assert ("${" + rest)[2..] == rest;
    }
  }

  lemma UnclosedFails(a: Alphabet, vars: Vars, name: string, form: string, t: string)
    requires EndsNames(a) && IsName(a, name) && IsForm(form, t) && NeverCloses(t, 0)
    ensures Meaning(a, vars, "${" + name + form + t) == Err(Unterminated)
  {
    hide Meaning;
    UnclosedIsRead(a, name, form, t);
    hide ParseBraced, EndsNames, IsName, IsForm, NeverCloses;
    BrokenReferenceMeans(a, vars, name + (form + t), Unterminated);
    assert "${" + name + form + t == "${" + (name + (form + t));
  }

  lemma UnclosedIsRead(a: Alphabet, name: string, form: string, t: string)
    requires EndsNames(a) && IsName(a, name) && IsForm(form, t) && NeverCloses(t, 0)
    ensures ParseBraced(a, name + (form + t)) == Err(Unterminated)
  {
    var after := form + t;
    NameIsRead(a, name, after);
    NeverClosed(t, 0);
    hide VarName, UntilClose, NeverCloses, IsVarChar, IsVarStart;
    assert after[|form|..] == t;
    assert form == ":" && t != "" ==> after[1] == t[0];
  }

  lemma StrangerFails(a: Alphabet, vars: Vars, name: string, c: char, rest: string)
    requires EndsNames(a) && IsName(a, name) && !IsVarChar(a, c) && c !in {'}', ':', '-', '+', '?'}
    ensures Meaning(a, vars, "${" + name + [c] + rest) == Err(BadCharacter(c, name))
  {
    hide Meaning;
    StrangerIsRead(a, name, c, rest);
    hide ParseBraced, IsVarChar, IsName, EndsNames;
    var inner := name + ([c] + rest);
    BrokenReferenceMeans(a, vars, inner, BadCharacter(c, name));
    assert "${" + name + [c] + rest == "${" + inner;
  }

  lemma StrangerIsRead(a: Alphabet, name: string, c: char, rest: string)
    requires IsName(a, name) && !IsVarChar(a, c) && c !in {'}', ':', '-', '+', '?'}
    ensures ParseBraced(a, name + ([c] + rest)) == Err(BadCharacter(c, name))
  {
    NameIsRead(a, name, [c] + rest);
    hide VarName, UntilClose, IsVarChar, IsVarStart;
    assert ([c] + rest)[0] == c;
  }

  // ----- the bounded pass -----

  /** What a pass threads through every nested call. `warnings` is what it
      printed, `deepest` the deepest call it made. */
  datatype Pass = Pass(spent: nat, warned: set<string>, warnings: seq<string>, deepest: nat)

  datatype Env = Env(letters: Alphabet, vars: Vars, warnEnabled: bool)

  function WarnUnset(e: Env, name: string, p: Pass): Pass {
    if !e.warnEnabled || name in p.warned then p
    else p.(warned := p.warned + {name}, warnings := p.warnings + [name])
  }

  /** `check_output_cap`, then `check_document_budget`, which counts even what it
      refuses. */
  function Charge(out: string, value: string, name: string, p: Pass): (Option<SubstError>, Pass) {
    if SaturatingAdd(ByteLen(out), ByteLen(value)) > MAX_INTERP_OUTPUT_BYTES then (Some(PastOutputCap(name)), p)
    else
      var q := p.(spent := SaturatingAdd(p.spent, ByteLen(value)));
      (if q.spent > MAX_INTERP_DOCUMENT_BYTES then Some(PastDocumentBudget(name)) else None, q)
  }

  /** `substitute_depth` */
  function Substituted(e: Env, input: string, depth: nat, p: Pass): (Result<string, SubstError>, Pass)
    decreases |input|, 2
  {
    var p := p.(deepest := if depth > p.deepest then depth else p.deepest);
    if depth > MAX_INTERP_DEPTH then (Err(TooDeep), p) else Scan(e, input, "", depth, p)
  }

  /** The character loop: `out` so far, `s` still to read. */
  function Scan(e: Env, s: string, out: string, depth: nat, p: Pass): (Result<string, SubstError>, Pass)
    decreases |s|, 1
  {
    if s == [] then (Ok(out), p)
    else if s[0] != '$' || |s| == 1 then Scan(e, s[1..], out + [s[0]], depth, p)
    else if s[1] == '$' then Scan(e, s[2..], out + "$", depth, p)
    else if s[1] == '{' then
      match ParseBraced(e.letters, s[2..])
      case Err(why) => (Err(why), p)
      case Ok(ref) =>
        match Resolved(e, ref.name, ref.modifier, depth, p, |s| - 1)
        case (Err(why), q) => (Err(why), q)
        case (Ok(value), q) => Push(e, ref.rest, out, value, ref.name, depth, q, |s|)
    else if IsVarStart(e.letters, s[1]) then
      var (name, rest) := VarName(e.letters, s[1..]);
      var (value, q) := Lookup(e, name, p);
      Push(e, rest, out, value, name, depth, q, |s|)
    else Scan(e, s[1..], out + "$", depth, p)
  }

  function Push(e: Env, rest: string, out: string, value: string, name: string, depth: nat, p: Pass, room: nat)
    : (Result<string, SubstError>, Pass)
    requires |rest| < room
    decreases room, 0
  {
    match Charge(out, value, name, p)
    case (Some(why), q) => (Err(why), q)
    case (None, q) => Scan(e, rest, out + value, depth, q)
  }

  function Lookup(e: Env, name: string, p: Pass): (string, Pass) {
    if name in e.vars then (e.vars[name], p) else ("", WarnUnset(e, name, p))
  }

  /** `resolve_modifier` */
  function Resolved(e: Env, name: string, m: Modifier, depth: nat, p: Pass, room: nat): (Result<string, SubstError>, Pass)
    requires |ModifierText(m)| < room
    decreases room, 0
  {
    match Choose(e.vars, name, m)
    case Value(v) => (Ok(v), p)
    case Blank => (Ok(""), WarnUnset(e, name, p))
    case Interpolate(t) => Substituted(e, t, depth + 1, p)
    case Missing(msg) => (Err(RequiredNotSet(name, msg)), p)
  }

  // ----- limits only ever refuse -----

  /** `r` is `m`, unless a limit fired. */
  ghost predicate Refines(r: Result<string, SubstError>, m: Result<string, SubstError>) {
    r == m || (r.Err? && IsLimit(r.error))
  }

  /** Text that comes out is the text that was meant, and an error is either the
      one the text deserves or a limit: no limit is ever passed by cutting. */
  lemma {:induction false} SubstitutedRefinesMeaning(e: Env, input: string, depth: nat, p: Pass)
    ensures Refines(Substituted(e, input, depth, p).0, Meaning(e.letters, e.vars, input))
    decreases |input|, 2
  {
    if depth <= MAX_INTERP_DEPTH {
      var q := p.(deepest := if depth > p.deepest then depth else p.deepest);
      ScanRefinesMeaning(e, input, "", depth, q);
      var m := Meaning(e.letters, e.vars, input);
      assert m.Ok? ==> "" + m.value == m.value;
    }
  }

  lemma {:induction false} ScanRefinesMeaning(e: Env, s: string, out: string, depth: nat, p: Pass)
    ensures Refines(Scan(e, s, out, depth, p).0, Prepend(out, Meaning(e.letters, e.vars, s)))
    decreases |s|, 1
  {
    var (a, vars) := (e.letters, e.vars);
    if s == [] {
      assert out + "" == out;
    } else if s[0] != '$' || |s| == 1 {
      ScanRefinesMeaning(e, s[1..], out + [s[0]], depth, p);
      PrependTwice(out, [s[0]], Meaning(a, vars, s[1..]));
    } else if s[1] == '$' {
      ScanRefinesMeaning(e, s[2..], out + "$", depth, p);
      PrependTwice(out, "$", Meaning(a, vars, s[2..]));
    } else if s[1] == '{' {
      var parsed := ParseBraced(a, s[2..]);
      if parsed.Ok? {
        var ref := parsed.value;
        ResolvedRefinesMeaning(e, ref.name, ref.modifier, depth, p, |s| - 1);
        var (value, q) := Resolved(e, ref.name, ref.modifier, depth, p, |s| - 1);
        if value.Ok? {
          PushRefinesMeaning(e, ref.rest, out, value.value, ref.name, depth, q, |s|);
        }
      }
    } else if IsVarStart(a, s[1]) {
      var (name, rest) := VarName(a, s[1..]);
      var (value, q) := Lookup(e, name, p);
      PushRefinesMeaning(e, rest, out, value, name, depth, q, |s|);
    } else {
      ScanRefinesMeaning(e, s[1..], out + "$", depth, p);
      PrependTwice(out, "$", Meaning(a, vars, s[1..]));
    }
  }

  lemma {:induction false} PushRefinesMeaning(e: Env, rest: string, out: string, value: string, name: string, depth: nat, p: Pass, room: nat)
    requires |rest| < room
    ensures Refines(Push(e, rest, out, value, name, depth, p, room).0, Prepend(out, Prepend(value, Meaning(e.letters, e.vars, rest))))
    decreases room, 0
  {
    var (why, q) := Charge(out, value, name, p);
    if why.None? {
      ScanRefinesMeaning(e, rest, out + value, depth, q);
      PrependTwice(out, value, Meaning(e.letters, e.vars, rest));
    }
  }

  lemma {:induction false} ResolvedRefinesMeaning(e: Env, name: string, m: Modifier, depth: nat, p: Pass, room: nat)
    requires |ModifierText(m)| < room
    ensures Refines(Resolved(e, name, m, depth, p, room).0, MeaningOf(e.letters, e.vars, name, m, room))
    decreases room, 0
  {
    match Choose(e.vars, name, m)
    case Interpolate(t) => SubstitutedRefinesMeaning(e, t, depth + 1, p);
    case _ =>
  }

  lemma PrependTwice(a: string, b: string, r: Result<string, SubstError>)
    ensures Prepend(a, Prepend(b, r)) == Prepend(a + b, r)
  {
    if r.Ok? {
      assert a + (b + r.value) == a + b + r.value;
    }
  }

  // ----- how much comes out, how deep it goes -----

  function Max(a: nat, b: nat): nat {
    if a > b then a else b
  }

  /** From `p` to `q` the spending only grows, what succeeds is within the budget,
      and a call past the nesting cap is made only to be refused. */
  ghost predicate Accounted(p: Pass, q: Pass, r: Result<string, SubstError>) {
    && p.spent <= q.spent
    && (r.Ok? ==> q.spent <= MAX_INTERP_DOCUMENT_BYTES)
    && p.deepest <= q.deepest <= Max(p.deepest, MAX_INTERP_DEPTH + 1)
    && (r == Err(TooDeep) ==> q.deepest > MAX_INTERP_DEPTH)
    && (r.Ok? && p.deepest <= MAX_INTERP_DEPTH ==> q.deepest <= MAX_INTERP_DEPTH)
  }

  /** What comes out is at most `base` bytes plus what was charged, and at most
      `top` bytes. */
  ghost predicate Bounded(p: Pass, q: Pass, r: Result<string, SubstError>, base: nat, top: nat) {
    && Accounted(p, q, r)
    && (r.Ok? ==> ByteLen(r.value) <= base + (q.spent - p.spent) && ByteLen(r.value) <= top)
  }

  /** `spent` never goes down, on any path; a text that comes out is at most its
      input plus what was charged, and at most its input plus the scalar cap; the
      nesting never passes the cap, and refusing for it is the one way past 64. */
  lemma {:induction false} SubstitutedIsBounded(e: Env, input: string, depth: nat, p: Pass)
    requires p.spent <= MAX_INTERP_DOCUMENT_BYTES && depth <= MAX_INTERP_DEPTH + 1
    ensures var (r, q) := Substituted(e, input, depth, p);
            Bounded(p, q, r, ByteLen(input), ByteLen(input) + MAX_INTERP_OUTPUT_BYTES)
    decreases |input|, 2
  {
    if depth <= MAX_INTERP_DEPTH {
      ScanIsBounded(e, input, "", depth, p.(deepest := Max(depth, p.deepest)));
    }
  }

  lemma {:induction false} ScanIsBounded(e: Env, s: string, out: string, depth: nat, p: Pass)
    requires p.spent <= MAX_INTERP_DOCUMENT_BYTES && depth <= MAX_INTERP_DEPTH
    ensures var (r, q) := Scan(e, s, out, depth, p);
            Bounded(p, q, r, ByteLen(out) + ByteLen(s), Max(ByteLen(out), MAX_INTERP_OUTPUT_BYTES) + ByteLen(s))
    decreases |s|, 1
  {
    hide ParseBraced, VarName, Resolved, Push, Lookup, Accounted;
    if s == [] {
      assert Accounted(p, p, Ok(out)) by { AccountedAtRest(p, out); }
    } else if s[0] != '$' || |s| == 1 {
      ByteLenConcat(out, [s[0]]);
      ScanIsBounded(e, s[1..], out + [s[0]], depth, p);
    } else if s[1] == '$' {
      ByteLenConcat(out, "$");
      ByteLenDrop(s, 2);
      ScanIsBounded(e, s[2..], out + "$", depth, p);
    } else if s[1] == '{' {
      BracedIsBounded(e, s, out, depth, p);
    } else if IsVarStart(e.letters, s[1]) {
      NamedIsBounded(e, s, out, depth, p);
    } else {
      ByteLenConcat(out, "$");
      ScanIsBounded(e, s[1..], out + "$", depth, p);
    }
  }

  lemma AccountedAtRest(p: Pass, out: string)
    requires p.spent <= MAX_INTERP_DOCUMENT_BYTES
    ensures Accounted(p, p, Ok(out))
  {}

  lemma {:induction false} BracedIsBounded(e: Env, s: string, out: string, depth: nat, p: Pass)
    requires p.spent <= MAX_INTERP_DOCUMENT_BYTES && depth <= MAX_INTERP_DEPTH
    requires |s| > 1 && s[0] == '$' && s[1] == '{'
    ensures var (r, q) := Scan(e, s, out, depth, p);
            Bounded(p, q, r, ByteLen(out) + ByteLen(s), Max(ByteLen(out), MAX_INTERP_OUTPUT_BYTES) + ByteLen(s))
    decreases |s|, 0, 1
  {
    hide ParseBraced, Resolved, Push;
    var parsed := ParseBraced(e.letters, s[2..]);
    if parsed.Ok? {
      var ref := parsed.value;
      ParsedShrinks(e.letters, s[2..]);
      ByteLenDrop(s, 2);
      ResolvedIsBounded(e, ref.name, ref.modifier, depth, p, |s| - 1);
      var (value, q) := Resolved(e, ref.name, ref.modifier, depth, p, |s| - 1);
      if value.Ok? {
        PushIsBounded(e, ref.rest, out, value.value, ref.name, depth, q, |s|);
      }
    }
  }

  lemma {:induction false} NamedIsBounded(e: Env, s: string, out: string, depth: nat, p: Pass)
    requires p.spent <= MAX_INTERP_DOCUMENT_BYTES && depth <= MAX_INTERP_DEPTH
    requires |s| > 1 && s[0] == '$' && s[1] != '$' && s[1] != '{' && IsVarStart(e.letters, s[1])
    ensures var (r, q) := Scan(e, s, out, depth, p);
            Bounded(p, q, r, ByteLen(out) + ByteLen(s), Max(ByteLen(out), MAX_INTERP_OUTPUT_BYTES) + ByteLen(s))
    decreases |s|, 0, 1
  {
    hide Push;
    var (name, rest) := VarName(e.letters, s[1..]);
    var (value, q) := Lookup(e, name, p);
    ByteLenDrop(s, 1);
    ByteLenConcat(name, rest);
    PushIsBounded(e, rest, out, value, name, depth, q, |s|);
  }

  lemma {:induction false} PushIsBounded(e: Env, rest: string, out: string, value: string, name: string, depth: nat, p: Pass, room: nat)
    requires p.spent <= MAX_INTERP_DOCUMENT_BYTES && depth <= MAX_INTERP_DEPTH && |rest| < room
    ensures var (r, q) := Push(e, rest, out, value, name, depth, p, room);
            Bounded(p, q, r, ByteLen(out) + ByteLen(rest), MAX_INTERP_OUTPUT_BYTES + ByteLen(rest))
    decreases room, 0, 0
  {
    hide Scan;
    var (why, q) := Charge(out, value, name, p);
    ByteLenConcat(out, value);
    if why.None? {
      ScanIsBounded(e, rest, out + value, depth, q);
    }
  }

  lemma {:induction false} ResolvedIsBounded(e: Env, name: string, m: Modifier, depth: nat, p: Pass, room: nat)
    requires p.spent <= MAX_INTERP_DOCUMENT_BYTES && depth <= MAX_INTERP_DEPTH && |ModifierText(m)| < room
    ensures var (r, q) := Resolved(e, name, m, depth, p, room); Accounted(p, q, r)
    decreases room, 0, 0
  {
    hide Substituted;
    match Choose(e.vars, name, m)
    case Interpolate(t) => SubstitutedIsBounded(e, t, depth + 1, p);
    case _ =>
  }

  lemma ByteLenDrop(s: string, k: nat)
    requires k <= |s|
    ensures ByteLen(s[k..]) <= ByteLen(s)
    ensures k > 0 ==> ByteLen(s[k..]) < ByteLen(s)
  {
    ByteLenConcat(s[..k], s[k..]);
    assert s == s[..k] + s[k..];
  }

  lemma {:induction false} UntilCloseShrinks(s: string, depth: nat)
    ensures UntilClose(s, depth).Some? ==>
              ByteLen(UntilClose(s, depth).value.0) + ByteLen(UntilClose(s, depth).value.1) <= ByteLen(s)
  {
    if s != [] && !(s[0] == '}' && depth == 0) {
      UntilCloseShrinks(s[1..], if s[0] == '{' then depth + 1 else if s[0] == '}' then depth - 1 else depth);
    }
  }

  /** Where the text of a modifier and what follows it were read. */
  lemma ParsedFrom(a: Alphabet, s: string)
    requires ParseBraced(a, s).Ok?
    ensures var (ref, rest) := (ParseBraced(a, s).value, VarName(a, s).1);
            || (ref.modifier == Plain && ref.rest == if rest == [] then [] else rest[1..])
            || (|rest| >= 1 && UntilClose(rest[1..], 0) == Some((ModifierText(ref.modifier), ref.rest)))
            || (|rest| >= 2 && UntilClose(rest[2..], 0) == Some((ModifierText(ref.modifier), ref.rest)))
  {
    hide VarName, UntilClose, IsVarStart;
  }

  /** The text of a modifier and what is left after the reference are no longer than
      the text they were read from. */
  lemma ParsedShrinks(a: Alphabet, s: string)
    ensures ParseBraced(a, s).Ok? ==>
              ByteLen(ModifierText(ParseBraced(a, s).value.modifier)) + ByteLen(ParseBraced(a, s).value.rest) <= ByteLen(s)
  {
    if ParseBraced(a, s).Ok? {
      ParsedFrom(a, s);
      assert ByteLen("") == 0;
      hide ParseBraced, VarName, UntilClose, ByteLen;
      var (name, rest) := VarName(a, s);
      ByteLenConcat(name, rest);
      if rest != [] {
        ByteLenDrop(rest, 1);
        UntilCloseShrinks(rest[1..], 0);
        if |rest| > 1 {
          ByteLenDrop(rest, 2);
          UntilCloseShrinks(rest[2..], 0);
        }
      }
    }
  }

  // ----- no limit fires before it is passed -----

  /** No variable is longer than `longest` bytes. */
  ghost predicate NoLonger(vars: Vars, longest: nat) {
    forall n :: n in vars ==> ByteLen(vars[n]) <= longest
  }

  /** A limit that fired had been passed: the budget by what the pass has spent, the
      nesting by how deep it went, and the cap on one text by its own length, what was
      charged and one more value. */
  ghost predicate HasCause(p: Pass, q: Pass, r: Result<string, SubstError>, size: nat, longest: nat) {
    && (r.Err? && r.error.PastDocumentBudget? ==> q.spent > MAX_INTERP_DOCUMENT_BYTES)
    && (r.Err? && r.error.TooDeep? ==> q.deepest > MAX_INTERP_DEPTH)
    && (r.Err? && r.error.PastOutputCap? ==> p.spent <= q.spent && size + (q.spent - p.spent) + longest > MAX_INTERP_OUTPUT_BYTES)
  }

  lemma {:induction false} LimitsHaveACause(e: Env, input: string, depth: nat, p: Pass, longest: nat)
    requires p.spent <= MAX_INTERP_DOCUMENT_BYTES && depth <= MAX_INTERP_DEPTH + 1 && NoLonger(e.vars, longest)
    ensures var (r, q) := Substituted(e, input, depth, p); HasCause(p, q, r, ByteLen(input), longest)
    decreases |input|, 2
  {
    if depth <= MAX_INTERP_DEPTH {
      ScanHasCause(e, input, "", depth, p.(deepest := Max(depth, p.deepest)), longest);
    }
  }

  lemma {:induction false} ScanHasCause(e: Env, s: string, out: string, depth: nat, p: Pass, longest: nat)
    requires p.spent <= MAX_INTERP_DOCUMENT_BYTES && depth <= MAX_INTERP_DEPTH && NoLonger(e.vars, longest)
    ensures var (r, q) := Scan(e, s, out, depth, p); HasCause(p, q, r, ByteLen(out) + ByteLen(s), longest)
    decreases |s|, 1
  {
    hide ParseBraced, VarName, Resolved, Push, Lookup, NoLonger;
    if s == [] {
    } else if s[0] != '$' || |s| == 1 {
      ByteLenConcat(out, [s[0]]);
      ScanHasCause(e, s[1..], out + [s[0]], depth, p, longest);
    } else if s[1] == '$' {
      ByteLenConcat(out, "$");
      ByteLenDrop(s, 2);
      ScanHasCause(e, s[2..], out + "$", depth, p, longest);
    } else if s[1] == '{' {
      BracedHasCause(e, s, out, depth, p, longest);
    } else if IsVarStart(e.letters, s[1]) {
      NamedHasCause(e, s, out, depth, p, longest);
    } else {
      ByteLenConcat(out, "$");
      ScanHasCause(e, s[1..], out + "$", depth, p, longest);
    }
  }

  lemma {:induction false} BracedHasCause(e: Env, s: string, out: string, depth: nat, p: Pass, longest: nat)
    requires p.spent <= MAX_INTERP_DOCUMENT_BYTES && depth <= MAX_INTERP_DEPTH && NoLonger(e.vars, longest)
    requires |s| > 1 && s[0] == '$' && s[1] == '{'
    ensures var (r, q) := Scan(e, s, out, depth, p); HasCause(p, q, r, ByteLen(out) + ByteLen(s), longest)
    decreases |s|, 0, 1
  {
    hide ParseBraced, Resolved, Push, NoLonger;
    var parsed := ParseBraced(e.letters, s[2..]);
    if parsed.Ok? {
      var ref := parsed.value;
      ParsedShrinks(e.letters, s[2..]);
      ByteLenDrop(s, 2);
      ResolvedIsBounded(e, ref.name, ref.modifier, depth, p, |s| - 1);
      ResolvedHasCause(e, ref.name, ref.modifier, depth, p, |s| - 1, longest);
      var (value, q) := Resolved(e, ref.name, ref.modifier, depth, p, |s| - 1);
      if value.Ok? {
        PushHasCause(e, ref.rest, out, value.value, ref.name, depth, q, |s|,
                     ByteLen(ModifierText(ref.modifier)) + (q.spent - p.spent), longest);
      }
    }
  }

  lemma {:induction false} NamedHasCause(e: Env, s: string, out: string, depth: nat, p: Pass, longest: nat)
    requires p.spent <= MAX_INTERP_DOCUMENT_BYTES && depth <= MAX_INTERP_DEPTH && NoLonger(e.vars, longest)
    requires |s| > 1 && s[0] == '$' && s[1] != '$' && s[1] != '{' && IsVarStart(e.letters, s[1])
    ensures var (r, q) := Scan(e, s, out, depth, p); HasCause(p, q, r, ByteLen(out) + ByteLen(s), longest)
    decreases |s|, 0, 1
  {
    hide Push;
    var (name, rest) := VarName(e.letters, s[1..]);
    var (value, q) := Lookup(e, name, p);
    ByteLenDrop(s, 1);
    ByteLenConcat(name, rest);
    PushHasCause(e, rest, out, value, name, depth, q, |s|, 0, longest);
  }

  /** A value is no longer than `extra` bytes, or than a variable. */
  lemma {:induction false} PushHasCause(e: Env, rest: string, out: string, value: string, name: string, depth: nat, p: Pass, room: nat, extra: nat, longest: nat)
    requires p.spent <= MAX_INTERP_DOCUMENT_BYTES && depth <= MAX_INTERP_DEPTH && |rest| < room && NoLonger(e.vars, longest)
    requires ByteLen(value) <= Max(extra, longest)
    ensures var (r, q) := Push(e, rest, out, value, name, depth, p, room);
            HasCause(p, q, r, ByteLen(out) + extra + ByteLen(rest), longest)
    decreases room, 0, 0
  {
    hide Scan, NoLonger;
    var (why, q) := Charge(out, value, name, p);
    ByteLenConcat(out, value);
    if why.None? {
      ScanHasCause(e, rest, out + value, depth, q, longest);
    }
  }

  lemma {:induction false} ResolvedHasCause(e: Env, name: string, m: Modifier, depth: nat, p: Pass, room: nat, longest: nat)
    requires p.spent <= MAX_INTERP_DOCUMENT_BYTES && depth <= MAX_INTERP_DEPTH && |ModifierText(m)| < room && NoLonger(e.vars, longest)
    ensures var (r, q) := Resolved(e, name, m, depth, p, room);
            && HasCause(p, q, r, ByteLen(ModifierText(m)), longest)
            && (r.Ok? ==> p.spent <= q.spent && ByteLen(r.value) <= Max(ByteLen(ModifierText(m)) + (q.spent - p.spent), longest))
    decreases room, 0, 0
  {
    hide Substituted;
    assert ByteLen("") == 0;
    match Choose(e.vars, name, m)
    case Interpolate(t) =>
      SubstitutedIsBounded(e, t, depth + 1, p);
      LimitsHaveACause(e, t, depth + 1, p, longest);
    case _ =>
  }

  // ----- warnings do not change the text -----

  /** Two passes that differ at most in what was warned about. */
  ghost predicate Alike(p: Pass, q: Pass) {
    p.spent == q.spent && p.deepest == q.deepest
  }

  ghost predicate SameText(x: (Result<string, SubstError>, Pass), y: (Result<string, SubstError>, Pass)) {
    x.0 == y.0 && Alike(x.1, y.1)
  }

  /** The text, the error and the spending are the same whatever the warning flag
      says and whatever was already warned about. */
  lemma {:induction false} WarningsDoNotMatter(e: Env, f: Env, input: string, depth: nat, p: Pass, q: Pass)
    requires e.letters == f.letters && e.vars == f.vars && Alike(p, q)
    ensures SameText(Substituted(e, input, depth, p), Substituted(f, input, depth, q))
    decreases |input|, 2
  {
    if depth <= MAX_INTERP_DEPTH {
      ScanIgnoresWarnings(e, f, input, "", depth, p.(deepest := Max(depth, p.deepest)), q.(deepest := Max(depth, q.deepest)));
    }
  }

  lemma {:induction false} ScanIgnoresWarnings(e: Env, f: Env, s: string, out: string, depth: nat, p: Pass, q: Pass)
    requires e.letters == f.letters && e.vars == f.vars && Alike(p, q)
    ensures SameText(Scan(e, s, out, depth, p), Scan(f, s, out, depth, q))
    decreases |s|, 1
  {
    hide ParseBraced, VarName, Resolved, Push;
    if s == [] {
    } else if s[0] != '$' || |s| == 1 {
      ScanIgnoresWarnings(e, f, s[1..], out + [s[0]], depth, p, q);
    } else if s[1] == '$' {
      ScanIgnoresWarnings(e, f, s[2..], out + "$", depth, p, q);
    } else if s[1] == '{' {
      var parsed := ParseBraced(e.letters, s[2..]);
      if parsed.Ok? {
        var ref := parsed.value;
        ResolvedIgnoresWarnings(e, f, ref.name, ref.modifier, depth, p, q, |s| - 1);
        var x := Resolved(e, ref.name, ref.modifier, depth, p, |s| - 1);
        var y := Resolved(f, ref.name, ref.modifier, depth, q, |s| - 1);
        if x.0.Ok? {
          PushIgnoresWarnings(e, f, ref.rest, out, x.0.value, ref.name, depth, x.1, y.1, |s|);
        }
      }
    } else if IsVarStart(e.letters, s[1]) {
      var (name, rest) := VarName(e.letters, s[1..]);
      PushIgnoresWarnings(e, f, rest, out, Lookup(e, name, p).0, name, depth, Lookup(e, name, p).1, Lookup(f, name, q).1, |s|);
    } else {
      ScanIgnoresWarnings(e, f, s[1..], out + "$", depth, p, q);
    }
  }

  lemma {:induction false} PushIgnoresWarnings(e: Env, f: Env, rest: string, out: string, value: string, name: string, depth: nat, p: Pass, q: Pass, room: nat)
    requires e.letters == f.letters && e.vars == f.vars && Alike(p, q) && |rest| < room
    ensures SameText(Push(e, rest, out, value, name, depth, p, room), Push(f, rest, out, value, name, depth, q, room))
    decreases room, 0
  {
    if Charge(out, value, name, p).0.None? {
      ScanIgnoresWarnings(e, f, rest, out + value, depth, Charge(out, value, name, p).1, Charge(out, value, name, q).1);
    }
  }

  lemma {:induction false} ResolvedIgnoresWarnings(e: Env, f: Env, name: string, m: Modifier, depth: nat, p: Pass, q: Pass, room: nat)
    requires e.letters == f.letters && e.vars == f.vars && Alike(p, q) && |ModifierText(m)| < room
    ensures SameText(Resolved(e, name, m, depth, p, room), Resolved(f, name, m, depth, q, room))
    decreases room, 0
  {
    match Choose(e.vars, name, m)
    case Interpolate(t) => WarningsDoNotMatter(e, f, t, depth + 1, p, q);
    case _ =>
  }

  // ----- who is warned about -----

  /** The names a text reads while they are unset and without a default: the ones
      worth a warning. */
  function UnsetNames(a: Alphabet, vars: Vars, s: string): set<string>
    decreases |s|, 1
  {
    if s == [] then {}
    else if s[0] != '$' || |s| == 1 then UnsetNames(a, vars, s[1..])
    else if s[1] == '$' then UnsetNames(a, vars, s[2..])
    else if s[1] == '{' then
      match ParseBraced(a, s[2..])
      case Err(_) => {}
      case Ok(ref) => UnsetIn(a, vars, ref.name, ref.modifier, |s| - 1) + UnsetNames(a, vars, ref.rest)
    else if IsVarStart(a, s[1]) then
      var (name, rest) := VarName(a, s[1..]);
      (if name in vars then {} else {name}) + UnsetNames(a, vars, rest)
    else UnsetNames(a, vars, s[1..])
  }

  function UnsetIn(a: Alphabet, vars: Vars, name: string, m: Modifier, room: nat): set<string>
    requires |ModifierText(m)| < room
    decreases room, 0
  {
    match Choose(vars, name, m)
    case Blank => {name}
    case Interpolate(t) => UnsetNames(a, vars, t)
    case _ => {}
  }

  ghost predicate Distinct(names: seq<string>) {
    forall i, j :: 0 <= i < j < |names| ==> names[i] != names[j]
  }

  /** From `p` to `q` each warning is new, is about an unset name and is remembered;
      with the flag off nothing is warned about. After a success the names
      remembered are exactly the ones in `unset`, added. */
  ghost predicate Warned(e: Env, p: Pass, q: Pass, ok: bool, unset: set<string>) {
    && p.warnings <= q.warnings
    && Distinct(q.warnings[|p.warnings|..])
    && (forall i :: |p.warnings| <= i < |q.warnings| ==> q.warnings[i] !in p.warned && q.warnings[i] !in e.vars)
    && (forall n :: n in q.warned <==> n in p.warned || n in q.warnings[|p.warnings|..])
    && (!e.warnEnabled ==> q.warnings == p.warnings)
    && (ok && e.warnEnabled ==> q.warned == p.warned + unset)
  }

  lemma WarnedThen(e: Env, p: Pass, q: Pass, r: Pass, ok: bool, first: set<string>, second: set<string>)
    requires Warned(e, p, q, true, first) && Warned(e, q, r, ok, second)
    ensures Warned(e, p, r, ok, first + second)
  {
    var (a, b) := (|p.warnings|, |q.warnings|);
    assert q.warnings[a..] + r.warnings[b..] == r.warnings[a..];
    forall i | b <= i < |r.warnings| ensures r.warnings[i] !in p.warned && r.warnings[i] !in q.warnings[a..] {
      assert r.warnings[i] !in q.warned;
    }
    forall i, j | 0 <= i < j < |r.warnings[a..]| ensures r.warnings[a..][i] != r.warnings[a..][j] {
      if j < b - a {
        assert r.warnings[a..][i] == q.warnings[a..][i] && r.warnings[a..][j] == q.warnings[a..][j];
      } else if i < b - a {
        assert r.warnings[a..][i] == q.warnings[a..][i] && r.warnings[a..][j] == r.warnings[a + j];
      } else {
        assert r.warnings[a..][i] == r.warnings[b..][i + a - b] && r.warnings[a..][j] == r.warnings[b..][j + a - b];
      }
    }
  }

  lemma WarnedAtRest(e: Env, p: Pass, q: Pass, ok: bool)
    requires p.warned == q.warned && p.warnings == q.warnings
    ensures Warned(e, p, q, ok, {})
  {}

  lemma WarnedOfLookup(e: Env, name: string, p: Pass)
    ensures Warned(e, p, Lookup(e, name, p).1, true, if name in e.vars then {} else {name})
  {}

  /** A pass warns about a name at most once, only if it is unset, and, when the
      text comes out, about exactly the unset names it read. */
  lemma {:induction false} EachUnsetNameIsReportedOnce(e: Env, input: string, depth: nat, p: Pass)
    ensures var (r, q) := Substituted(e, input, depth, p);
            Warned(e, p, q, r.Ok?, UnsetNames(e.letters, e.vars, input))
    decreases |input|, 2
  {
    hide Warned, Scan, UnsetNames;
    if depth <= MAX_INTERP_DEPTH {
      var q := p.(deepest := Max(depth, p.deepest));
      ScanWarns(e, input, "", depth, q);
      var (r, end) := Scan(e, input, "", depth, q);
      WarnedAtRest(e, p, q, true);
      WarnedThen(e, p, q, end, r.Ok?, {}, UnsetNames(e.letters, e.vars, input));
      assert {} + UnsetNames(e.letters, e.vars, input) == UnsetNames(e.letters, e.vars, input);
    } else {
      WarnedOnFailure(e, p, Substituted(e, input, depth, p).1, UnsetNames(e.letters, e.vars, input));
    }
  }

  lemma WarnedOnFailure(e: Env, p: Pass, q: Pass, unset: set<string>)
    requires p.warned == q.warned && p.warnings == q.warnings
    ensures Warned(e, p, q, false, unset)
  {}

  lemma WarnedGivesUp(e: Env, p: Pass, q: Pass, ok: bool, some: set<string>, unset: set<string>)
    requires Warned(e, p, q, ok, some)
    ensures Warned(e, p, q, false, unset)
  {}

  lemma {:induction false} ScanWarns(e: Env, s: string, out: string, depth: nat, p: Pass)
    ensures var (r, q) := Scan(e, s, out, depth, p);
            Warned(e, p, q, r.Ok?, UnsetNames(e.letters, e.vars, s))
    decreases |s|, 1
  {
    hide Warned, ParseBraced, VarName, Resolved, Push, Lookup;
    if s == [] {
      WarnedAtRest(e, p, p, true);
    } else if s[0] != '$' || |s| == 1 {
      ScanWarns(e, s[1..], out + [s[0]], depth, p);
    } else if s[1] == '$' {
      ScanWarns(e, s[2..], out + "$", depth, p);
    } else if s[1] == '{' {
      BracedWarns(e, s, out, depth, p);
    } else if IsVarStart(e.letters, s[1]) {
      var (name, rest) := VarName(e.letters, s[1..]);
      var (value, q) := Lookup(e, name, p);
      WarnedOfLookup(e, name, p);
      PushWarns(e, rest, out, value, name, depth, q, |s|);
      var (r, end) := Push(e, rest, out, value, name, depth, q, |s|);
      WarnedThen(e, p, q, end, r.Ok?, if name in e.vars then {} else {name}, UnsetNames(e.letters, e.vars, rest));
    } else {
      ScanWarns(e, s[1..], out + "$", depth, p);
    }
  }

  lemma {:induction false} BracedWarns(e: Env, s: string, out: string, depth: nat, p: Pass)
    requires |s| > 1 && s[0] == '$' && s[1] == '{'
    ensures var (r, q) := Scan(e, s, out, depth, p);
            Warned(e, p, q, r.Ok?, UnsetNames(e.letters, e.vars, s))
    decreases |s|, 0, 1
  {
    hide Warned, ParseBraced, Resolved, Push, UnsetIn;
    var unset := UnsetNames(e.letters, e.vars, s);
    var parsed := ParseBraced(e.letters, s[2..]);
    if parsed.Err? {
      WarnedOnFailure(e, p, p, unset);
    } else {
      var ref := parsed.value;
      var own := UnsetIn(e.letters, e.vars, ref.name, ref.modifier, |s| - 1);
      ResolvedWarns(e, ref.name, ref.modifier, depth, p, |s| - 1);
      var (value, q) := Resolved(e, ref.name, ref.modifier, depth, p, |s| - 1);
      if value.Err? {
        WarnedGivesUp(e, p, q, false, own, unset);
      } else {
        PushWarns(e, ref.rest, out, value.value, ref.name, depth, q, |s|);
        var (r, end) := Push(e, ref.rest, out, value.value, ref.name, depth, q, |s|);
        WarnedThen(e, p, q, end, r.Ok?, own, UnsetNames(e.letters, e.vars, ref.rest));
      }
    }
  }

  lemma {:induction false} PushWarns(e: Env, rest: string, out: string, value: string, name: string, depth: nat, p: Pass, room: nat)
    requires |rest| < room
    ensures var (r, q) := Push(e, rest, out, value, name, depth, p, room);
            Warned(e, p, q, r.Ok?, UnsetNames(e.letters, e.vars, rest))
    decreases room, 0, 0
  {
    hide Warned, Scan, UnsetNames;
    var unset := UnsetNames(e.letters, e.vars, rest);
    var (why, q) := Charge(out, value, name, p);
    if why.None? {
      ScanWarns(e, rest, out + value, depth, q);
      WarnedAtRest(e, p, q, true);
      var (r, end) := Scan(e, rest, out + value, depth, q);
      WarnedThen(e, p, q, end, r.Ok?, {}, unset);
      assert {} + unset == unset;
    } else {
      WarnedOnFailure(e, p, q, unset);
    }
  }

  lemma {:induction false} ResolvedWarns(e: Env, name: string, m: Modifier, depth: nat, p: Pass, room: nat)
    requires |ModifierText(m)| < room
    ensures var (r, q) := Resolved(e, name, m, depth, p, room);
            Warned(e, p, q, r.Ok?, UnsetIn(e.letters, e.vars, name, m, room))
    decreases room, 0, 0
  {
    hide Substituted, UnsetNames;
    match Choose(e.vars, name, m)
    case Interpolate(t) => EachUnsetNameIsReportedOnce(e, t, depth + 1, p);
    case Blank => WarnedOfLookup(e, name, p);
    case _ =>
  }

  // ----- writing text that means itself -----

  /** Each `$` doubled. */
  function Escaped(s: string): string {
    if s == [] then "" else (if s[0] == '$' then "$$" else [s[0]]) + Escaped(s[1..])
  }

  /** Every text can be written so that substitution gives it back, at no cost. */
  lemma {:induction false} EscapedMeansItself(e: Env, s: string, depth: nat, p: Pass)
    requires depth <= MAX_INTERP_DEPTH
    ensures Substituted(e, Escaped(s), depth, p) == (Ok(s), p.(deepest := Max(depth, p.deepest)))
  {
    EscapedScan(e, s, "", depth, p.(deepest := Max(depth, p.deepest)));
    assert "" + s == s;
  }

  lemma {:induction false} EscapedScan(e: Env, s: string, out: string, depth: nat, p: Pass)
    ensures Scan(e, Escaped(s), out, depth, p) == (Ok(out + s), p)
  {
    if s == [] {
      assert out + s == out;
    } else {
      var t := Escaped(s);
      assert t[if s[0] == '$' then 2 else 1..] == Escaped(s[1..]);
      EscapedScan(e, s[1..], out + [s[0]], depth, p);
      assert out + [s[0]] + s[1..] == out + s;
    }
  }

  /** Text without a `$` needs no escaping, which is why a document skips it. */
  lemma {:induction false} TextWithoutReferencesIsItsOwnEscape(s: string)
    requires '$' !in s
    ensures Escaped(s) == s
  {
    if s != [] {
      assert s[0] in s;
      assert s == [s[0]] + s[1..];
      TextWithoutReferencesIsItsOwnEscape(s[1..]);
    }
  }

  // ----- a document, a project -----

  /** The scalars of one document, all on one pass; a scalar without a `$` is left
      alone. */
  function Interpolated(e: Env, scalars: seq<string>, p: Pass): (Result<seq<string>, SubstError>, Pass)
    decreases |scalars|
  {
    if scalars == [] then (Ok([]), p)
    else
      match if '$' in scalars[0] then Substituted(e, scalars[0], 0, p) else (Ok(scalars[0]), p)
      case (Err(why), q) => (Err(why), q)
      case (Ok(text), q) =>
        match Interpolated(e, scalars[1..], q)
        case (Err(why), r) => (Err(why), r)
        case (Ok(texts), r) => (Ok([text] + texts), r)
  }

  /** The files of one project: each has its own warnings, and starts from what the
      files before it spent. */
  function Loaded(e: Env, files: seq<seq<string>>, spent: nat): (Result<seq<seq<string>>, SubstError>, nat)
    decreases |files|
  {
    if files == [] then (Ok([]), spent)
    else
      match Interpolated(e, files[0], Pass(spent, {}, [], 0))
      case (Err(why), _) => (Err(why), spent)
      case (Ok(file), q) =>
        match Loaded(e, files[1..], q.spent)
        case (Err(why), end) => (Err(why), end)
        case (Ok(rest), end) => (Ok([file] + rest), end)
  }

  function TotalLen(scalars: seq<string>): nat {
    if scalars == [] then 0 else ByteLen(scalars[0]) + TotalLen(scalars[1..])
  }

  function ProjectLen(files: seq<seq<string>>): nat {
    if files == [] then 0 else TotalLen(files[0]) + ProjectLen(files[1..])
  }

  function UnsetInAll(a: Alphabet, vars: Vars, scalars: seq<string>): set<string> {
    if scalars == [] then {} else UnsetNames(a, vars, scalars[0]) + UnsetInAll(a, vars, scalars[1..])
  }

  /** Interpolating a document adds at most the document budget to its text, and
      at most the scalar cap to any one scalar. */
  lemma {:induction false} DocumentIsBounded(e: Env, scalars: seq<string>, p: Pass)
    requires p.spent <= MAX_INTERP_DOCUMENT_BYTES && p.deepest <= MAX_INTERP_DEPTH
    ensures var (r, q) := Interpolated(e, scalars, p);
            && p.spent <= q.spent
            && (r.Ok? ==>
                  && q.spent <= MAX_INTERP_DOCUMENT_BYTES && q.deepest <= MAX_INTERP_DEPTH
                  && |r.value| == |scalars|
                  && TotalLen(r.value) <= TotalLen(scalars) + (q.spent - p.spent)
                  && forall i :: 0 <= i < |scalars| ==> ByteLen(r.value[i]) <= ByteLen(scalars[i]) + MAX_INTERP_OUTPUT_BYTES)
    decreases |scalars|
  {
    hide Substituted, ByteLen;
    if scalars != [] {
      SubstitutedIsBounded(e, scalars[0], 0, p);
      var (first, q) := if '$' in scalars[0] then Substituted(e, scalars[0], 0, p) else (Ok(scalars[0]), p);
      if first.Ok? {
        DocumentIsBounded(e, scalars[1..], q);
        var (rest, end) := Interpolated(e, scalars[1..], q);
        if rest.Ok? {
          assert ([first.value] + rest.value)[1..] == rest.value;
        }
      }
    }
  }

  /** However many files a project has, its interpolated text is at most its own
      text plus one document budget. */
  lemma {:induction false} ProjectIsBounded(e: Env, files: seq<seq<string>>, spent: nat)
    requires spent <= MAX_INTERP_DOCUMENT_BYTES
    ensures var (r, end) := Loaded(e, files, spent);
            && spent <= end <= MAX_INTERP_DOCUMENT_BYTES
            && (r.Ok? ==> ProjectLen(r.value) <= ProjectLen(files) + (end - spent))
    decreases |files|
  {
    hide Interpolated, TotalLen;
    if files != [] {
      var p := Pass(spent, {}, [], 0);
      DocumentIsBounded(e, files[0], p);
      var (first, q) := Interpolated(e, files[0], p);
      if first.Ok? {
        ProjectIsBounded(e, files[1..], q.spent);
        var (rest, end) := Loaded(e, files[1..], q.spent);
        if rest.Ok? {
          assert ([first.value] + rest.value)[1..] == rest.value;
        }
      }
    }
  }

  /** One document warns once about each unset name it read, over all its scalars. */
  lemma {:induction false} DocumentWarnsOnce(e: Env, scalars: seq<string>, p: Pass)
    ensures var (r, q) := Interpolated(e, scalars, p);
            Warned(e, p, q, r.Ok?, UnsetInAll(e.letters, e.vars, scalars))
    decreases |scalars|
  {
    hide Substituted, Warned, UnsetNames;
    var unset := UnsetInAll(e.letters, e.vars, scalars);
    if scalars == [] {
      WarnedAtRest(e, p, p, true);
    } else {
      var own := UnsetNames(e.letters, e.vars, scalars[0]);
      var (first, q) := if '$' in scalars[0] then Substituted(e, scalars[0], 0, p) else (Ok(scalars[0]), p);
      if '$' in scalars[0] {
        EachUnsetNameIsReportedOnce(e, scalars[0], 0, p);
      } else {
        PlainTextReadsNothing(e.letters, e.vars, scalars[0]);
        WarnedAtRest(e, p, q, true);
      }
      if first.Ok? {
        DocumentWarnsOnce(e, scalars[1..], q);
        var (rest, end) := Interpolated(e, scalars[1..], q);
        WarnedThen(e, p, q, end, rest.Ok?, own, UnsetInAll(e.letters, e.vars, scalars[1..]));
      } else {
        WarnedGivesUp(e, p, q, false, own, unset);
      }
    }
  }

  lemma {:induction false} PlainTextReadsNothing(a: Alphabet, vars: Vars, s: string)
    requires '$' !in s
    ensures UnsetNames(a, vars, s) == {}
  {
    if s != [] {
      assert s[0] in s;
      PlainTextReadsNothing(a, vars, s[1..]);
    }
  }

  // ----- the pass as it runs -----

  method CollectVarName(a: Alphabet, chars: string) returns (name: string, rest: string)
    ensures (name, rest) == VarName(a, chars)
  {
    hide IsVarChar, VarName;
    name, rest := "", chars;
    assert "" + VarName(a, chars).0 == VarName(a, chars).0;
    while rest != [] && IsVarChar(a, rest[0])
      invariant VarName(a, chars) == (name + VarName(a, rest).0, VarName(a, rest).1)
      decreases |rest|
    {
      NameOneMore(a, rest);
      assert name + ([rest[0]] + VarName(a, rest[1..]).0) == name + [rest[0]] + VarName(a, rest[1..]).0;
      name, rest := name + [rest[0]], rest[1..];
    }
    NameOneMore(a, rest);
    assert name + "" == name;
  }

  lemma NameOneMore(a: Alphabet, s: string)
    ensures VarName(a, s) ==
            if s != [] && IsVarChar(a, s[0]) then ([s[0]] + VarName(a, s[1..]).0, VarName(a, s[1..]).1) else ("", s)
  {}

  method CollectUntilClose(chars: string) returns (r: Option<(string, string)>)
    ensures r == UntilClose(chars, 0)
  {
    var buf, rest := "", chars;
    var depth: nat := 0;
    assert UntilClose(chars, 0).Some? ==> "" + UntilClose(chars, 0).value.0 == UntilClose(chars, 0).value.0;
    while rest != []
      invariant match UntilClose(rest, depth)
                case None => UntilClose(chars, 0) == None
                case Some((text, end)) => UntilClose(chars, 0) == Some((buf + text, end))
      decreases |rest|
    {
      var c := rest[0];
      if c == '}' && depth == 0 {
        assert buf + "" == buf;
        return Some((buf, rest[1..]));
      }
      ghost var inner := if c == '{' then depth + 1 else if c == '}' then depth - 1 else depth;
      assert UntilClose(rest[1..], inner).Some? ==>
          buf + ([c] + UntilClose(rest[1..], inner).value.0) == buf + [c] + UntilClose(rest[1..], inner).value.0;
      if c == '{' {
        depth := depth + 1;
      } else if c == '}' {
        depth := depth - 1;
      }
      buf, rest := buf + [c], rest[1..];
    }
    return None;
  }

  method ReadText(kind: string -> Modifier, name: string, chars: string) returns (r: Result<Reference, SubstError>)
    ensures r == WithText(kind, name, chars)
  {
    var text := CollectUntilClose(chars);
    if text.None? {
      return Err(Unterminated);
    }
    return Ok(Reference(name, kind(text.value.0), text.value.1));
  }

  method ParseBracedVar(a: Alphabet, chars: string) returns (r: Result<Reference, SubstError>)
    ensures r == ParseBraced(a, chars)
  {
    var name, rest := CollectVarName(a, chars);
    if name == [] || !IsVarStart(a, name[0]) {
      return Err(BadName(name));
    }
    if rest == [] {
      return Ok(Reference(name, Plain, rest));
    }
    var (next, after) := (rest[0], rest[1..]);
    if next == '}' {
      return Ok(Reference(name, Plain, after));
    } else if next == ':' {
      if after != [] && after[0] == '-' {
        r := ReadText(t => DefaultIfUnsetOrEmpty(t), name, after[1..]);
      } else if after != [] && after[0] == '+' {
        r := ReadText(t => AltIfSetAndNonEmpty(t), name, after[1..]);
      } else if after != [] && after[0] == '?' {
        r := ReadText(t => ErrorIfUnsetOrEmpty(t), name, after[1..]);
      } else {
        r := ReadText(t => DefaultIfUnsetOrEmpty(t), name, after);
      }
    } else if next == '-' {
      r := ReadText(t => DefaultIfUnset(t), name, after);
    } else if next == '+' {
      r := ReadText(t => AltIfSet(t), name, after);
    } else if next == '?' {
      r := ReadText(t => ErrorIfUnset(t), name, after);
    } else {
      return Err(BadCharacter(next, name));
    }
  }

  /** What one pass changes as it goes: the budget spent, the names warned about and
      the warnings printed. */
  class Interpolator {
    const letters: Alphabet
    const vars: Vars
    const warnEnabled: bool
    var spent: nat
    var warned: set<string>
    var warnings: seq<string>
    ghost var deepest: nat

    constructor (letters: Alphabet, vars: Vars, warnEnabled: bool, spent: nat)
      ensures Settings() == Env(letters, vars, warnEnabled)
      ensures State() == Pass(spent, {}, [], 0)
    {
      this.letters, this.vars, this.warnEnabled := letters, vars, warnEnabled;
      this.spent, warned, warnings, deepest := spent, {}, [], 0;
    }

    ghost function Settings(): Env {
      Env(letters, vars, warnEnabled)
    }

    ghost function State(): Pass
      reads this
    {
      Pass(spent, warned, warnings, deepest)
    }

    method WarnUnsetVariable(name: string)
      modifies this
      ensures State() == WarnUnset(Settings(), name, old(State()))
    {
      if !warnEnabled || name in warned {
        return;
      }
      warned := warned + {name};
      warnings := warnings + [name];
    }

    /** The cap on the scalar, then the budget of the document. */
    method Check(out: string, value: string, name: string) returns (why: Option<SubstError>)
      modifies this
      ensures (why, State()) == Charge(out, value, name, old(State()))
    {
      if SaturatingAdd(ByteLen(out), ByteLen(value)) > MAX_INTERP_OUTPUT_BYTES {
        return Some(PastOutputCap(name));
      }
      spent := SaturatingAdd(spent, ByteLen(value));
      if spent > MAX_INTERP_DOCUMENT_BYTES {
        return Some(PastDocumentBudget(name));
      }
      return None;
    }

    method ResolveModifier(name: string, m: Modifier, depth: nat, ghost room: nat) returns (r: Result<string, SubstError>)
      requires |ModifierText(m)| < room
      modifies this
      ensures (r, State()) == Resolved(Settings(), name, m, depth, old(State()), room)
      decreases room, 0
    {
      match m
      case Plain =>
        if name in vars {
          r := Ok(vars[name]);
        } else {
          WarnUnsetVariable(name);
          r := Ok("");
        }
      case DefaultIfUnsetOrEmpty(t) =>
        if name in vars && vars[name] != "" {
          r := Ok(vars[name]);
        } else {
          r := SubstituteDepth(t, depth + 1);
        }
      case DefaultIfUnset(t) =>
        if name in vars {
          r := Ok(vars[name]);
        } else {
          r := SubstituteDepth(t, depth + 1);
        }
      case AltIfSetAndNonEmpty(t) =>
        if name in vars && vars[name] != "" {
          r := SubstituteDepth(t, depth + 1);
        } else {
          r := Ok("");
        }
      case AltIfSet(t) =>
        if name in vars {
          r := SubstituteDepth(t, depth + 1);
        } else {
          r := Ok("");
        }
      case ErrorIfUnsetOrEmpty(t) =>
        r := if name in vars && vars[name] != "" then Ok(vars[name]) else Err(RequiredNotSet(name, t));
      case ErrorIfUnset(t) =>
        r := if name in vars then Ok(vars[name]) else Err(RequiredNotSet(name, t));
    }

    method SubstituteDepth(input: string, depth: nat) returns (r: Result<string, SubstError>)
      modifies this
      ensures (r, State()) == Substituted(Settings(), input, depth, old(State()))
      decreases |input|, 2
    {
      deepest := Max(depth, deepest);
      if depth > MAX_INTERP_DEPTH {
        return Err(TooDeep);
      }
      ghost var goal := Scan(Settings(), input, "", depth, State());
      var out, chars := "", input;
      while chars != []
        invariant |chars| <= |input|
        invariant Scan(Settings(), chars, out, depth, State()) == goal
        decreases |chars|
      {
        if chars[0] != '$' {
          out, chars := out + [chars[0]], chars[1..];
        } else if |chars| == 1 {
          assert "$" == [chars[0]];
          out, chars := out + "$", chars[1..];
        } else if chars[1] == '$' {
          out, chars := out + "$", chars[2..];
        } else if chars[1] == '{' {
          var parsed := ParseBracedVar(letters, chars[2..]);
          if parsed.Err? {
            return Err(parsed.error);
          }
          var ref := parsed.value;
          var value := ResolveModifier(ref.name, ref.modifier, depth, |chars| - 1);
          if value.Err? {
            return value;
          }
          var why := Check(out, value.value, ref.name);
          if why.Some? {
            return Err(why.value);
          }
          out, chars := out + value.value, ref.rest;
        } else if IsVarStart(letters, chars[1]) {
          var name, rest := CollectVarName(letters, chars[1..]);
          var value := "";
          if name in vars {
            value := vars[name];
          } else {
            WarnUnsetVariable(name);
          }
          var why := Check(out, value, name);
          if why.Some? {
            return Err(why.value);
          }
          out, chars := out + value, rest;
        } else {
          out, chars := out + "$", chars[1..];
        }
      }
      return Ok(out);
    }
  }
}
