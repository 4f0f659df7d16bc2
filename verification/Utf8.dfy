/** UTF-8, as far as the modelled code depends on it: text is scanned and
    compared as bytes while its meaning is characters. */
module Utf8 {
  import opened Prelude

  newtype byte = b: int | 0 <= b < 256
  type Bytes = seq<byte>

  function EncodeChar(c: char): (r: Bytes)
    ensures |r| == Utf8Width(c)
  {
    var n := c as int;
    if n < 0x80 then [n as byte]
    else if n < 0x800 then [(0xc0 + n / 64) as byte, (0x80 + n % 64) as byte]
    else if n < 0x10000 then [(0xe0 + n / 4096) as byte, (0x80 + n / 64 % 64) as byte, (0x80 + n % 64) as byte]
    else [(0xf0 + n / 262144) as byte, (0x80 + n / 4096 % 64) as byte, (0x80 + n / 64 % 64) as byte, (0x80 + n % 64) as byte]
  }

  function Encode(s: string): (r: Bytes)
    ensures |r| == ByteLen(s)
  {
    if s == [] then [] else EncodeChar(s[0]) + Encode(s[1..])
  }

  /** An ASCII byte only ever stands for its own character. */
  lemma AsciiStandsForItself(c: char)
    ensures c as int < 0x80 ==> EncodeChar(c) == [(c as int) as byte]
    ensures c as int >= 0x80 ==> |EncodeChar(c)| >= 2 && forall b :: b in EncodeChar(c) ==> b as int >= 0x80
  {}

  lemma EncodeConcat(a: string, b: string)
    ensures Encode(a + b) == Encode(a) + Encode(b)
  {
    if a == [] {
      assert a + b == b;
    } else {
      assert (a + b)[1..] == a[1..] + b;
      EncodeConcat(a[1..], b);
    }
  }

  /** The first byte tells how many bytes the character takes. */
  lemma LeadTellsWidth(c: char)
    ensures var lead := EncodeChar(c)[0] as int;
            Utf8Width(c) == if lead < 0x80 then 1 else if lead < 0xe0 then 2 else if lead < 0xf0 then 3 else 4
  {}

  /** The code point the bytes of one character spell. */
  function CodePoint(r: Bytes): int {
    if |r| == 1 then r[0] as int
    else if |r| == 2 then (r[0] as int - 0xc0) * 64 + (r[1] as int - 0x80)
    else if |r| == 3 then (r[0] as int - 0xe0) * 4096 + (r[1] as int - 0x80) * 64 + (r[2] as int - 0x80)
    else if |r| == 4 then (r[0] as int - 0xf0) * 262144 + (r[1] as int - 0x80) * 4096 + (r[2] as int - 0x80) * 64 + (r[3] as int - 0x80)
    else 0
  }

  lemma SixBitGroups(n: nat)
    ensures n == n / 64 * 64 + n % 64
    ensures n / 64 == n / 4096 * 64 + n / 64 % 64
    ensures n / 4096 == n / 262144 * 64 + n / 4096 % 64
  {
    assert n / 64 / 64 == n / 4096;
    assert n / 4096 / 64 == n / 262144;
  }

  lemma CodePointOfChar(c: char)
    ensures CodePoint(EncodeChar(c)) == c as int
  {
    SixBitGroups(c as int);
  }

  lemma CharIsFaithful(c: char, d: char)
    requires EncodeChar(c) == EncodeChar(d)
    ensures c == d
  {
    CodePointOfChar(c);
    CodePointOfChar(d);
  }

  /** Comparing bytes is comparing text. */
  lemma {:induction false} EncodeIsFaithful(a: string, b: string)
    requires Encode(a) == Encode(b)
    ensures a == b
  {
    if a != [] && b != [] {
      LeadTellsWidth(a[0]);
      LeadTellsWidth(b[0]);
      var (x, y) := (EncodeChar(a[0]), EncodeChar(b[0]));
      assert x[0] == Encode(a)[0] && y[0] == Encode(b)[0];
      assert x == Encode(a)[..|x|] && y == Encode(b)[..|y|];
      CharIsFaithful(a[0], b[0]);
      assert Encode(a[1..]) == Encode(a)[|x|..] && Encode(b[1..]) == Encode(b)[|y|..];
      EncodeIsFaithful(a[1..], b[1..]);
      assert a == [a[0]] + a[1..] && b == [b[0]] + b[1..];
    }
  }

  // ----- decoding -----

  predicate IsScalar(n: int) {
    0 <= n < 0xd800 || 0xe000 <= n < 0x110000
  }

  /** The first `w` bytes are the encoding of one character. */
  predicate StartsWithChar(b: Bytes, w: nat)
    requires 1 <= w <= 4
  {
    |b| >= w && IsScalar(CodePoint(b[..w])) && EncodeChar(CodePoint(b[..w]) as char) == b[..w]
  }

  /** How many bytes a character takes that starts with this one. */
  function LeadWidth(lead: byte): (w: nat)
    ensures 1 <= w <= 4
  {
    if lead as int < 0x80 then 1 else if lead as int < 0xe0 then 2 else if lead as int < 0xf0 then 3 else 4
  }

  function FirstChar(b: Bytes): (r: Option<char>)
    ensures r.Some? ==> Utf8Width(r.value) <= |b| && b[..Utf8Width(r.value)] == EncodeChar(r.value)
  {
    if b != [] && StartsWithChar(b, LeadWidth(b[0])) then Some(CodePoint(b[..LeadWidth(b[0])]) as char) else None
  }

  /** `str::from_utf8`: the text whose encoding the bytes are, if there is one. */
  function Decode(b: Bytes): (r: Option<string>)
    ensures r.Some? ==> Encode(r.value) == b
    decreases |b|
  {
    if b == [] then Some("")
    else
      match FirstChar(b)
      case None => None
      case Some(c) =>
        match Decode(b[Utf8Width(c)..])
        case None => None
        case Some(rest) =>
          EncodeFront(c, rest, b);
          Some([c] + rest)
  }

  lemma EncodeFront(c: char, rest: string, b: Bytes)
    requires Utf8Width(c) <= |b| && b[..Utf8Width(c)] == EncodeChar(c) && Encode(rest) == b[Utf8Width(c)..]
    ensures Encode([c] + rest) == b
  {
    hide EncodeChar;
    assert ([c] + rest)[1..] == rest;
  }

  lemma FirstCharOfEncoded(c: char, rest: Bytes)
    ensures FirstChar(EncodeChar(c) + rest) == Some(c)
  {
    var b := EncodeChar(c) + rest;
    assert b[..Utf8Width(c)] == EncodeChar(c);
    CodePointOfChar(c);
    LeadTellsWidth(c);
  }

  lemma {:induction false} DecodeIsInverse(s: string)
    ensures Decode(Encode(s)) == Some(s)
  {
    if s != [] {
      FirstCharOfEncoded(s[0], Encode(s[1..]));
      assert Encode(s)[Utf8Width(s[0])..] == Encode(s[1..]);
      DecodeIsInverse(s[1..]);
      assert [s[0]] + s[1..] == s;
    }
  }
}
