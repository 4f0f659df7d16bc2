/** Chunked transfer coding (section 7.1 of RFC 9112): the encoder and the
    buffer-draining decoder of the fake engine, over a socket that hands out its
    bytes in pieces of any size. */
module Chunked {
  import opened Prelude
  import opened Utf8

  const CRLF: Bytes := [13, 10]
  const USIZE_LIMIT: nat := 0x1_0000_0000_0000_0000

  // ----- chunk sizes -----

  /** `{:x}` */
  function HexText(n: nat): (s: string)
    ensures |s| >= 1
    ensures forall c :: c in s ==> '0' <= c <= '9' || 'a' <= c <= 'f'
  {
    if n < 16 then [HexDigitChar(n)] else HexText(n / 16) + [HexDigitChar(n % 16)]
  }

  function FoldHex(s: string): Option<nat> {
    if s == [] then Some(0)
    else
      match FoldHex(s[..|s| - 1])
      case Some(n) => if IsHexDigit(s[|s| - 1]) then Some(16 * n + HexValue(s[|s| - 1])) else None
      case None => None
  }

  /** `usize::from_str_radix(s, 16)`, which also takes a leading `+`. */
  function ParseHex(s: string): Option<nat> {
    var digits := if s != [] && s[0] == '+' then s[1..] else s;
    if digits == [] then None
    else match FoldHex(digits)
      case Some(n) => if n < USIZE_LIMIT then Some(n) else None
      case None => None
  }

  lemma FoldHexText(n: nat)
    ensures FoldHex(HexText(n)) == Some(n)
  {
    if n < 16 {
      assert HexText(n)[..0] == [];
    } else {
      var s := HexText(n);
      assert s[..|s| - 1] == HexText(n / 16);
      FoldHexText(n / 16);
    }
  }

  // ----- one size line -----

  datatype ChunkError = NotText | BadSize | ReadFailed | SizeOverflow

  function BeforeSemicolon(s: string): string {
    SplitOn(s, ';')[0]
  }

  /** The size token, up to a chunk extension. */
  function ReadSize(line: Bytes): Result<nat, ChunkError> {
    match Decode(line)
    case None => Err(NotText)
    case Some(text) =>
      match ParseHex(Trim(BeforeSemicolon(text)))
      case None => Err(BadSize)
      case Some(n) => Ok(n)
  }

  lemma ParseHexOfText(n: nat)
    requires n < USIZE_LIMIT
    ensures ParseHex(HexText(n)) == Some(n)
  {
    var s := HexText(n);
    assert s[0] in s;
    FoldHexText(n);
  }

  predicate IsHexText(s: string) {
    s != [] && forall c :: c in s ==> '0' <= c <= '9' || 'a' <= c <= 'f'
  }

  lemma HexTextIsTrimmed(s: string)
    requires IsHexText(s)
    ensures IsTrimmed(s)
  {
    assert s[0] in s && s[|s| - 1] in s;
  }

  lemma HexTextHasNoExtension(s: string)
    requires IsHexText(s)
    ensures BeforeSemicolon(s) == s
  {
    assert ';' !in s;
  }

  lemma PlainToken(s: string)
    requires IsHexText(s)
    ensures Trim(BeforeSemicolon(s)) == s
  {
    hide BeforeSemicolon, Trim, IsTrimmed;
    HexTextIsTrimmed(s);
    HexTextHasNoExtension(s);
    TrimIsTrimmed(s);
  }

  lemma PlainSize(n: nat)
    requires n < USIZE_LIMIT
    ensures ReadSize(Encode(HexText(n))) == Ok(n)
  {
    hide HexText, Encode, Decode, ParseHex, Trim, BeforeSemicolon;
    DecodeIsInverse(HexText(n));
    PlainToken(HexText(n));
    ParseHexOfText(n);
  }

  // ----- the other spellings of a size -----

  /** The hex digits of `n`, in either case. */
  predicate IsHexOf(digits: string, n: nat) {
    && |digits| == |HexText(n)|
    && forall i :: 0 <= i < |digits| ==> IsHexDigit(digits[i]) && IsHexDigit(HexText(n)[i]) && HexValue(digits[i]) == HexValue(HexText(n)[i])
  }

  lemma {:induction false} SameDigitsSameNumber(a: string, b: string)
    requires |a| == |b|
    requires forall i :: 0 <= i < |a| ==> IsHexDigit(a[i]) && IsHexDigit(b[i]) && HexValue(a[i]) == HexValue(b[i])
    ensures FoldHex(a) == FoldHex(b)
  {
    if a != [] {
      hide IsHexDigit, HexValue;
      SameDigitsSameNumber(a[..|a| - 1], b[..|b| - 1]);
    }
  }

  predicate AllZeros(s: string) {
    forall i :: 0 <= i < |s| ==> s[i] == '0'
  }

  lemma {:induction false} ZerosCountNothing(zeros: string, s: string)
    requires AllZeros(zeros)
    ensures FoldHex(zeros + s) == FoldHex(s)
    decreases |zeros| + |s|
  {
    var t := zeros + s;
    if s != [] {
      assert t[..|t| - 1] == zeros + s[..|s| - 1];
      ZerosCountNothing(zeros, s[..|s| - 1]);
    } else if zeros != [] {
      assert t == zeros && t[..|t| - 1] == zeros[..|zeros| - 1] + [];
      ZerosCountNothing(zeros[..|zeros| - 1], []);
    }
  }

  /** A number is read exactly from hex digits. */
  lemma {:induction false} OnlyHexIsRead(s: string)
    ensures FoldHex(s).Some? <==> forall i :: 0 <= i < |s| ==> IsHexDigit(s[i])
  {
    if s != [] {
      hide IsHexDigit, HexValue;
      OnlyHexIsRead(s[..|s| - 1]);
    }
  }

  /** The token of a size line: what is left without white space and an extension. */
  lemma TokenIsFound(pre: string, token: string, post: string, ext: string)
    requires AllBlank(pre) && AllBlank(post) && token != "" && IsTrimmed(token) && ';' !in token
    requires ext == "" || ext[0] == ';'
    ensures ReadSize(Encode(pre + token + post + ext))
            == match ParseHex(token) case None => Err(BadSize) case Some(n) => Ok(n)
  {
    var front := pre + token + post;
    NoSemicolonInBlanks(pre);
    NoSemicolonInBlanks(post);
    hide Decode, Encode, ParseHex, BeforeSemicolon, Trim, AllBlank, IsTrimmed;
    DecodeIsInverse(front + ext);
    assert ';' !in front;
    ExtensionIsCut(front, ext);
    TrimPads(pre, token, post);
  }

  lemma ExtensionIsCut(front: string, ext: string)
    requires ';' !in front && (ext == "" || ext[0] == ';')
    ensures BeforeSemicolon(front + ext) == front
  {
    hide SplitOn;
    if ext == "" {
      assert front + ext == front;
      NoSeparatorNoSplit(front, ';');
    } else {
      assert front + ext == front + [';'] + ext[1..];
      SplitOnJoin(front, ';', ext[1..]);
    }
  }

  lemma NoSemicolonInBlanks(s: string)
    requires AllBlank(s)
    ensures ';' !in s
  {
    assert !IsWhitespace(';');
  }

  /** Digits of either case, zeros before them, a `+`, white space around them and an
      extension behind them: all the same size. */
  lemma SizeIsRead(pre: string, sign: string, zeros: string, digits: string, n: nat, post: string, ext: string)
    requires AllBlank(pre) && AllBlank(post) && AllZeros(zeros) && IsHexOf(digits, n) && n < USIZE_LIMIT
    requires (sign == "" || sign == "+") && (ext == "" || ext[0] == ';')
    ensures ReadSize(Encode(pre + (sign + (zeros + digits)) + post + ext)) == Ok(n)
  {
    hide ReadSize, HexText, FoldHex, ParseHex;
    var number := zeros + digits;
    FoldHexText(n);
    SameDigitsSameNumber(digits, HexText(n));
    ZerosCountNothing(zeros, digits);
    hide IsHexOf, AllZeros, IsHexDigit;
    OnlyHexIsRead(number);
    TokenIsParsed(sign, number, n);
    HexTokens(sign, number);
    TokenIsFound(pre, sign + number, post, ext);
  }

  lemma TokenIsParsed(sign: string, number: string, n: nat)
    requires (sign == "" || sign == "+") && number != "" && FoldHex(number) == Some(n) && n < USIZE_LIMIT
    ensures ParseHex(sign + number) == Some(n)
  {
    hide FoldHex;
    OnlyHexIsRead(number);
    assert !IsHexDigit('+');
    assert (sign + number)[|sign|..] == number;
  }

  lemma HexTokens(sign: string, number: string)
    requires (sign == "" || sign == "+") && number != "" && forall i :: 0 <= i < |number| ==> IsHexDigit(number[i])
    ensures var token := sign + number;
            token != "" && IsTrimmed(token) && ';' !in token && (sign == "" ==> token[0] != '+')
  {
    assert !IsWhitespace('+') && !IsHexDigit(';') && !IsHexDigit('+');
    assert forall c :: IsHexDigit(c) ==> !IsWhitespace(c);
  }

  /** Anything else is refused: another character, no digit at all, or a number that
      does not fit. */
  lemma OtherSizesAreRefused(pre: string, sign: string, number: string, post: string, ext: string)
    requires AllBlank(pre) && AllBlank(post) && (sign == "" || sign == "+") && (ext == "" || ext[0] == ';')
    requires sign + number != "" && IsTrimmed(sign + number) && ';' !in number && (sign == "" ==> number[0] != '+')
    requires number == "" || (exists i :: 0 <= i < |number| && !IsHexDigit(number[i])) || exists n :: n >= USIZE_LIMIT && FoldHex(number) == Some(n)
    ensures ReadSize(Encode(pre + (sign + number) + post + ext)) == Err(BadSize)
  {
    hide ReadSize, FoldHex, IsHexDigit, AllBlank, IsTrimmed;
    var token := sign + number;
    assert token[|sign|..] == number;
    OnlyHexIsRead(number);
    TokenIsFound(pre, token, post, ext);
  }

  // ----- finding the end of a line -----

  /** `windows(2).position(|w| w == b"\r\n")` */
  function FindCrlf(b: Bytes): (r: Option<nat>)
    ensures r.Some? ==> r.value + 2 <= |b| && b[r.value] == 13 && b[r.value + 1] == 10
  {
    if |b| < 2 then None
    else if b[0] == 13 && b[1] == 10 then Some(0)
    else match FindCrlf(b[1..]) case None => None case Some(i) => Some(i + 1)
  }

  /** A line end that is in the buffer stays the first one, whatever follows. */
  lemma FoundStaysFound(b: Bytes, more: Bytes)
    requires FindCrlf(b).Some?
    ensures FindCrlf(b + more) == FindCrlf(b)
  {
    if !(b[0] == 13 && b[1] == 10) {
      assert (b + more)[1..] == b[1..] + more;
      FoundStaysFound(b[1..], more);
    }
  }

  /** A line end, and none begun before it. */
  predicate LineEndsAt(b: Bytes, n: nat) {
    n + 2 <= |b| && b[n] == 13 && b[n + 1] == 10 && forall i :: 0 <= i < n ==> b[i] != 13
  }

  lemma FirstCrlf(b: Bytes, n: nat)
    requires LineEndsAt(b, n)
    ensures FindCrlf(b) == Some(n)
  {
    if n > 0 {
      FirstCrlf(b[1..], n - 1);
    }
  }

  lemma NoCrlf(b: Bytes)
    requires forall i :: 0 <= i < |b| - 1 ==> b[i] != 13
    ensures FindCrlf(b) == None
  {
    if |b| >= 2 {
      NoCrlf(b[1..]);
    }
  }

  // ----- what a byte stream decodes to -----

  /** `read_chunked_body` on everything the peer sends before it stops: the
      payload of every chunk that arrived whole, and how the walk ended. A peer
      that stops early is not an error. */
  function Walk(stream: Bytes, out: Bytes): (Result<(), ChunkError>, Bytes)
    decreases |stream|
  {
    match FindCrlf(stream)
    case None => (Ok(()), out)
    case Some(nl) =>
      match ReadSize(stream[..nl])
      case Err(e) => (Err(e), out)
      case Ok(size) =>
        var rest := stream[nl + 2..];
        if size == 0 then (Ok(()), out)
        else if size + 2 >= USIZE_LIMIT then (Err(SizeOverflow), out)
        else if |rest| < size + 2 then (Ok(()), out)
        else Walk(rest[size + 2..], out + rest[..size])
  }

  lemma WalkExtends(stream: Bytes, out: Bytes)
    ensures out <= Walk(stream, out).1
    decreases |stream|
  {
    hide ReadSize, FindCrlf;
    if FindCrlf(stream).Some? {
      var nl := FindCrlf(stream).value;
      var size := ReadSize(stream[..nl]);
      if size.Ok? && size.value > 0 && size.value + 2 < USIZE_LIMIT && |stream[nl + 2..]| >= size.value + 2 {
        WalkExtends(stream[nl + 2..][size.value + 2..], out + stream[nl + 2..][..size.value]);
      }
    }
  }

  /** The next step of the walk, once the end of its first line is known. */
  lemma WalkLine(stream: Bytes, nl: nat, out: Bytes)
    requires FindCrlf(stream) == Some(nl)
    ensures nl + 2 <= |stream|
    ensures var (size, rest) := (ReadSize(stream[..nl]), stream[nl + 2..]);
            Walk(stream, out) ==
            if size.Err? then (Err(size.error), out)
            else if size.value == 0 then (Ok(()), out)
            else if size.value + 2 >= USIZE_LIMIT then (Err(SizeOverflow), out)
            else if |rest| < size.value + 2 then (Ok(()), out)
            else Walk(rest[size.value + 2..], out + rest[..size.value])
  {
    hide ReadSize, FindCrlf;
  }

  lemma WalkNoLine(stream: Bytes, out: Bytes)
    requires FindCrlf(stream).None?
    ensures Walk(stream, out) == (Ok(()), out)
  {}

  // ----- the decoder -----

  /** The peer has `rest` still to deliver; every read returns some of it. */
  class Socket {
    var rest: Bytes

    /** `None` is an I/O error, an empty read the end of the stream. */
    method Read(max: nat) returns (r: Option<Bytes>)
      requires max > 0
      modifies this
      ensures r.Some? ==> |r.value| <= max && old(rest) == r.value + rest && (r.value == [] <==> old(rest) == [])
    {
      var failed: bool := *;
      if failed {
        return None;
      }
      var n: int := *;
      n := if n < 1 then 1 else if n <= max then n else max;
      n := if n <= |rest| then n else |rest|;
      r := Some(rest[..n]);
      rest := rest[n..];
    }
  }

  /** How the bytes were split between the buffered prefix and the reads cannot be
      seen in the result: it is the walk over all of them. An I/O error leaves a
      prefix of that payload. */
  method ReadChunkedBody(stream: Socket, prefix: Bytes) returns (r: Result<(), ChunkError>, out: Bytes)
    modifies stream
    ensures r == Err(ReadFailed) || (r, out) == Walk(prefix + old(stream.rest), [])
    ensures out <= Walk(prefix + old(stream.rest), []).1
  {
    hide ReadSize, FindCrlf, Walk;
    ghost var all := prefix + stream.rest;
    var buf := prefix;
    out := [];
    while true
      invariant Walk(buf + stream.rest, out) == Walk(all, [])
      decreases |buf| + |stream.rest|
    {
      WalkExtends(buf + stream.rest, out);
      var step;
      step, buf := FillLine(stream, buf);
      if step != More {
        if step == Stopped {
          WalkNoLine(buf + stream.rest, out);
        }
        return if step == Stopped then Ok(()) else Err(ReadFailed), out;
      }
      FoundStaysFound(buf, stream.rest);
      var nl := FindCrlf(buf).value;
      WalkLine(buf + stream.rest, nl, out);
      assert (buf + stream.rest)[..nl] == buf[..nl];
      var size := ReadSize(buf[..nl]);
      if size.Err? {
        return Err(size.error), out;
      }
      assert (buf + stream.rest)[nl + 2..] == buf[nl + 2..] + stream.rest;
      buf := buf[nl + 2..];
      if size.value == 0 {
        r := SkipTrailer(stream, buf);
        return;
      }
      if size.value + 2 >= USIZE_LIMIT {
        return Err(SizeOverflow), out;
      }
      step, buf := FillTo(stream, buf, size.value + 2);
      if step != More {
        return if step == Stopped then Ok(()) else Err(ReadFailed), out;
      }
      assert (buf + stream.rest)[..size.value] == buf[..size.value];
      assert (buf + stream.rest)[size.value + 2..] == buf[size.value + 2..] + stream.rest;
      out := out + buf[..size.value];
      buf := buf[size.value + 2..];
    }
  }

  datatype Fill = More | Stopped | Broken

  /** Reads until the buffer holds a line end. */
  method FillLine(stream: Socket, have: Bytes) returns (step: Fill, buf: Bytes)
    modifies stream
    ensures buf + stream.rest == have + old(stream.rest) || step == Broken
    ensures step == More ==> FindCrlf(buf).Some?
    ensures step == Stopped ==> FindCrlf(buf + stream.rest).None?
  {
    buf := have;
    while FindCrlf(buf).None?
      invariant buf + stream.rest == have + old(stream.rest)
      decreases |stream.rest|
    {
      var read := stream.Read(4096);
      if read.None? {
        return Broken, buf;
      }
      if read.value == [] {
        assert buf + stream.rest == buf;
        return Stopped, buf;
      }
      buf := buf + read.value;
    }
    step := More;
  }

  /** Reads until the buffer holds `n` bytes. */
  method FillTo(stream: Socket, have: Bytes, n: nat) returns (step: Fill, buf: Bytes)
    modifies stream
    ensures buf + stream.rest == have + old(stream.rest) || step == Broken
    ensures step == More ==> |buf| >= n
    ensures step == Stopped ==> |buf + stream.rest| < n
  {
    buf := have;
    while |buf| < n
      invariant buf + stream.rest == have + old(stream.rest)
      decreases |stream.rest|
    {
      var read := stream.Read(4096);
      if read.None? {
        return Broken, buf;
      }
      if read.value == [] {
        return Stopped, buf;
      }
      buf := buf + read.value;
    }
    step := More;
  }

  /** The CRLF after the last chunk, if the client sent one. */
  method SkipTrailer(stream: Socket, have: Bytes) returns (r: Result<(), ChunkError>)
    modifies stream
    ensures r == Ok(()) || r == Err(ReadFailed)
  {
    var buf := have;
    while |buf| < 2
      decreases |stream.rest|
    {
      var read := stream.Read(2);
      if read.None? {
        return Err(ReadFailed);
      }
      if read.value == [] {
        break;
      }
      buf := buf + read.value;
    }
    r := Ok(());
  }

  // ----- the encoder -----

  function EncodeChunk(chunk: Bytes): Bytes {
    Encode(HexText(|chunk|)) + CRLF + chunk + CRLF
  }

  function EncodeChunks(chunks: seq<Bytes>): Bytes {
    if chunks == [] then [] else EncodeChunk(chunks[0]) + EncodeChunks(chunks[1..])
  }

  /** The loop of `write_chunked`. */
  method WriteChunked(chunks: seq<Bytes>) returns (wire: Bytes)
    ensures wire == EncodeChunks(chunks)
  {
    wire := [];
    var i := 0;
    while i < |chunks|
      invariant 0 <= i <= |chunks| && wire + EncodeChunks(chunks[i..]) == EncodeChunks(chunks)
    {
      assert chunks[i..][1..] == chunks[i + 1..];
      wire := wire + EncodeChunk(chunks[i]);
      i := i + 1;
    }
    assert wire + [] == wire;
  }

  /** The zero-length chunk `ChunkedEnd` adds; `ChunkedTruncated` does not. */
  const TERMINATOR: Bytes := [48] + CRLF + CRLF

  predicate Sendable(chunk: Bytes) {
    0 < |chunk| && |chunk| + 2 < USIZE_LIMIT
  }

  lemma HexBytesHaveNoCr(n: nat)
    ensures forall i :: 0 <= i < |Encode(HexText(n))| ==> Encode(HexText(n))[i] != 13
  {
    var s := HexText(n);
    assert forall i :: 0 <= i < |s| ==> s[i] in s;
    AsciiEncoding(s);
  }

  lemma {:induction false} AsciiEncoding(s: string)
    requires forall i :: 0 <= i < |s| ==> s[i] as int < 0x80
    ensures |Encode(s)| == |s| && forall i :: 0 <= i < |s| ==> Encode(s)[i] as int == s[i] as int
  {
    if s != [] {
      AsciiEncoding(s[1..]);
    }
  }

  /** `wire` is a size line of `n` bytes and its line end, the chunk, and two bytes more,
      which nobody looks at. */
  predicate IsEncoded(wire: Bytes, n: nat, chunk: Bytes) {
    && LineEndsAt(wire, n) && ReadSize(wire[..n]) == Ok(|chunk|)
    && |wire| == n + 2 + |chunk| + 2 && wire[n + 2..][..|chunk|] == chunk
  }

  lemma ChunkIsEncoded(chunk: Bytes) returns (n: nat)
    requires Sendable(chunk)
    ensures n == |Encode(HexText(|chunk|))| && IsEncoded(EncodeChunk(chunk), n, chunk)
  {
    hide ReadSize, HexText, Encode;
    HexBytesHaveNoCr(|chunk|);
    PlainSize(|chunk|);
    n := |Encode(HexText(|chunk|))|;
    assert EncodeChunk(chunk)[..n] == Encode(HexText(|chunk|));
    assert forall i :: 0 <= i < n ==> EncodeChunk(chunk)[i] == Encode(HexText(|chunk|))[i];
    assert EncodeChunk(chunk)[n + 2..] == chunk + CRLF && (chunk + CRLF)[..|chunk|] == chunk;
  }

  /** A whole chunk at the front of a stream is taken off it. */
  lemma WalkOneChunk(wire: Bytes, n: nat, chunk: Bytes, rest: Bytes, out: Bytes)
    requires Sendable(chunk) && IsEncoded(wire, n, chunk)
    ensures Walk(wire + rest, out) == Walk(rest, out + chunk)
  {
    hide ReadSize, FindCrlf, Walk;
    var (stream, body) := (wire + rest, wire[n + 2..] + rest);
    FirstCrlf(stream, n);
    assert stream[..n] == wire[..n] && stream[n + 2..] == body;
    WalkLine(stream, n, out);
    assert body[..|chunk|] == chunk && body[|chunk| + 2..] == rest;
  }

  /** A proper beginning of one chunk yields nothing and is no error. */
  lemma WalkPartOfChunk(wire: Bytes, n: nat, chunk: Bytes, k: nat, out: Bytes)
    requires Sendable(chunk) && IsEncoded(wire, n, chunk) && k < |wire|
    ensures Walk(wire[..k], out) == (Ok(()), out)
  {
    hide ReadSize, FindCrlf, Walk;
    var part := wire[..k];
    if k < n + 2 {
      NoCrlf(part);
      WalkNoLine(part, out);
    } else {
      FirstCrlf(part, n);
      assert part[..n] == wire[..n] && |part[n + 2..]| < |wire[n + 2..]|;
      WalkLine(part, n, out);
    }
  }

  lemma WalkTerminator(rest: Bytes, out: Bytes)
    ensures Walk(TERMINATOR + rest, out) == (Ok(()), out)
  {
    hide ReadSize;
    var stream := TERMINATOR + rest;
    assert stream == [48] + CRLF + (CRLF + rest);
    FirstCrlf(stream, 1);
    assert Encode("0") == [48];
    assert HexText(0) == "0";
    assert stream[..1] == Encode(HexText(0));
    PlainSize(0);
  }

  /** Round trip: whatever pipelined bytes follow the terminator, the decoder
      returns the payload of all the chunks. */
  lemma {:induction false} DecodeOfEncode(chunks: seq<Bytes>, rest: Bytes, out: Bytes)
    requires forall i :: 0 <= i < |chunks| ==> Sendable(chunks[i])
    ensures Walk(EncodeChunks(chunks) + TERMINATOR + rest, out) == (Ok(()), out + Concat(chunks))
  {
    hide Walk, EncodeChunk, IsEncoded, HexText, Encode;
    if chunks == [] {
      assert EncodeChunks(chunks) + TERMINATOR + rest == TERMINATOR + rest;
      WalkTerminator(rest, out);
      assert out + [] == out;
    } else {
      var tail := EncodeChunks(chunks[1..]) + TERMINATOR + rest;
      assert EncodeChunks(chunks) + TERMINATOR + rest == EncodeChunk(chunks[0]) + tail;
      var n := ChunkIsEncoded(chunks[0]);
      WalkOneChunk(EncodeChunk(chunks[0]), n, chunks[0], tail, out);
      DecodeOfEncode(chunks[1..], rest, out + chunks[0]);
      assert out + chunks[0] + Concat(chunks[1..]) == out + Concat(chunks);
    }
  }

  /** How many chunks arrived whole, CRLF included, in the first `k` bytes. */
  function WholeChunks(chunks: seq<Bytes>, k: nat): (n: nat)
    ensures n <= |chunks|
  {
    if chunks == [] || k < |EncodeChunk(chunks[0])| then 0
    else 1 + WholeChunks(chunks[1..], k - |EncodeChunk(chunks[0])|)
  }

  /** `WholeChunks` counts exactly the chunks whose encoding fits in `k` bytes. */
  lemma {:induction false} WholeChunksIsMaximal(chunks: seq<Bytes>, k: nat)
    ensures var n := WholeChunks(chunks, k);
            && |EncodeChunks(chunks[..n])| <= k
            && (n < |chunks| ==> k < |EncodeChunks(chunks[..n + 1])|)
  {
    if chunks != [] && k >= |EncodeChunk(chunks[0])| {
      var n := WholeChunks(chunks[1..], k - |EncodeChunk(chunks[0])|);
      WholeChunksIsMaximal(chunks[1..], k - |EncodeChunk(chunks[0])|);
      assert chunks[..n + 1][1..] == chunks[1..][..n];
      if n + 1 < |chunks| {
        assert chunks[..n + 2][1..] == chunks[1..][..n + 1];
      }
    } else if chunks != [] {
      assert chunks[..1][1..] == [];
    }
  }

  /** Cutting the terminated body anywhere: the decoder returns exactly the chunks
      that arrived whole, never part of one, and reports no error. */
  lemma {:induction false} CutAnywhere(chunks: seq<Bytes>, k: nat, out: Bytes)
    requires forall i :: 0 <= i < |chunks| ==> Sendable(chunks[i])
    requires k <= |EncodeChunks(chunks) + TERMINATOR|
    ensures Walk((EncodeChunks(chunks) + TERMINATOR)[..k], out) == (Ok(()), out + Concat(chunks[..WholeChunks(chunks, k)]))
  {
    hide Walk, EncodeChunk, IsEncoded, HexText, Encode;
    var wire := EncodeChunks(chunks) + TERMINATOR;
    if chunks == [] {
      assert wire == TERMINATOR;
      CutTerminator(k, out);
      assert out + [] == out;
    } else {
      var first := EncodeChunk(chunks[0]);
      var rest := EncodeChunks(chunks[1..]) + TERMINATOR;
      assert wire == first + rest;
      CutOfTwo(first, rest, k);
      var n := ChunkIsEncoded(chunks[0]);
      if k < |first| {
        WalkPartOfChunk(first, n, chunks[0], k, out);
        assert out + [] == out;
      } else {
        WalkOneChunk(first, n, chunks[0], rest[..k - |first|], out);
        CutAnywhere(chunks[1..], k - |first|, out + chunks[0]);
        OneMoreWhole(chunks, WholeChunks(chunks[1..], k - |first|), out);
      }
    }
  }

  lemma CutOfTwo(first: Bytes, rest: Bytes, k: nat)
    requires k <= |first + rest|
    ensures (first + rest)[..k] == if k < |first| then first[..k] else first + rest[..k - |first|]
  {}

  lemma OneMoreWhole(chunks: seq<Bytes>, n: nat, out: Bytes)
    requires n < |chunks|
    ensures out + chunks[0] + Concat(chunks[1..][..n]) == out + Concat(chunks[..n + 1])
  {
    assert chunks[..n + 1][1..] == chunks[1..][..n];
  }

  lemma CutTerminator(k: nat, out: Bytes)
    requires k <= |TERMINATOR|
    ensures Walk(TERMINATOR[..k], out) == (Ok(()), out)
  {
    hide ReadSize;
    if k < 3 {
      NoCrlfInShort(TERMINATOR[..k]);
    } else {
      assert TERMINATOR == [48, 13, 10, 13, 10];
      FirstCrlf(TERMINATOR[..k], 1);
      assert Encode("0") == [48];
      assert HexText(0) == "0";
      assert TERMINATOR[..k][..1] == Encode(HexText(0));
      PlainSize(0);
    }
  }

  lemma NoCrlfInShort(b: Bytes)
    requires b <= TERMINATOR && |b| < 3
    ensures FindCrlf(b) == None
  {
    NoCrlf(b);
  }

  /** The reply shape that promises a chunk and hangs up halfway delivers nothing. */
  lemma CutMidPayloadDeliversNothing(chunk: Bytes)
    requires Sendable(chunk)
    ensures Walk(Encode(HexText(|chunk|)) + CRLF + chunk[..|chunk| / 2], []) == (Ok(()), [])
  {
    hide Walk, Encode, HexText, IsEncoded;
    var k := |Encode(HexText(|chunk|))| + 2 + |chunk| / 2;
    assert Encode(HexText(|chunk|)) + CRLF + chunk[..|chunk| / 2] == EncodeChunk(chunk)[..k];
    var n := ChunkIsEncoded(chunk);
    WalkPartOfChunk(EncodeChunk(chunk), n, chunk, k, []);
  }

  // ----- a body of known length -----

  /** The `Content-Length` branch of `serve_one`: `remaining` counts down. */
  method ReadSizedBody(stream: Socket, already: Bytes, n: nat) returns (r: Option<Bytes>)
    modifies stream
    ensures r.Some? ==>
            var all := already + old(stream.rest);
            r.value == if n <= |all| then all[..n] else all
  {
    ghost var all := already + stream.rest;
    if |already| >= n {
      assert all[..n] == already[..n];
      return Some(already[..n]);
    }
    var body := already;
    var remaining := n - |body|;
    while remaining > 0
      invariant 0 <= remaining == n - |body| && body + stream.rest == all
      decreases remaining
    {
      var take := if remaining <= 1024 then remaining else 1024;
      var read := stream.Read(take);
      if read.None? {
        return None;
      }
      if read.value == [] {
        break;
      }
      body := body + read.value;
      remaining := remaining - |read.value|;
    }
    assert body == all[..|body|];
    r := Some(body);
  }
}
