/** The base protocol: `Content-Length` framing of JSON-RPC messages.

    `decode` stands for the UTF-8 decoding inside `read_line`; nothing is assumed of it but
    that ASCII bytes decode to themselves. JSON parsing of the body is not modelled. */
module LspFraming {
  import opened Text

  type Byte = b: int | 0 <= b < 256

  const MAX_MESSAGE: nat := 8 * 1024 * 1024
  const USIZE_LIMIT: nat := 0x1_0000_0000_0000_0000

  datatype ReadError = UnexpectedEof | InvalidHeader | MissingLength | TooLarge

  type Decoder = seq<Byte> -> Option<string>

  predicate IsAscii(s: string) {
    forall i :: 0 <= i < |s| ==> s[i] as int < 128
  }

  function Ascii(s: string): (r: seq<Byte>)
    requires IsAscii(s)
    ensures |r| == |s|
    ensures forall i :: 0 <= i < |s| ==> r[i] == s[i] as int
  {
    if s == "" then [] else
      var b: Byte := s[0] as int;
      [b] + Ascii(s[1..])
  }

  ghost predicate DecodesAscii(decode: Decoder) {
    forall s :: IsAscii(s) ==> decode(Ascii(s)) == Some(s)
  }

  // ---------------------------------------------------------------- decimal lengths

  predicate IsDigit(c: char) {
    '0' <= c <= '9'
  }

  predicate AllDigits(s: string) {
    forall i :: 0 <= i < |s| ==> IsDigit(s[i])
  }

  function Decimal(n: nat): (s: string)
    ensures s != "" && IsAscii(s) && AllDigits(s)
  {
    var d := (n % 10 + 48) as char;
    if n < 10 then [d] else Decimal(n / 10) + [d]
  }

  function Value(s: string): nat
    requires AllDigits(s)
  {
    if s == "" then 0 else Value(s[..|s| - 1]) * 10 + (s[|s| - 1] as int - 48)
  }

  /** `str::parse::<usize>`: an optional plus sign, digits, and no overflow. */
  function ParseUsize(s: string): Option<nat> {
    var t := if s != "" && s[0] == '+' then s[1..] else s;
    if t != "" && AllDigits(t) && Value(t) < USIZE_LIMIT
    then Some(Value(t)) else None
  }

  lemma {:induction false} ValueOfDecimal(n: nat)
    ensures Value(Decimal(n)) == n
  {
    if n >= 10 {
      ValueOfDecimal(n / 10);
      assert Decimal(n)[..|Decimal(n)| - 1] == Decimal(n / 10);
    }
  }

  lemma ParsePrinted(n: nat)
    requires n < USIZE_LIMIT
    ensures ParseUsize(Decimal(n)) == Some(n)
  {
    ValueOfDecimal(n);
  }

  /** A plus sign and leading zeros are accepted; a sign alone, nothing and other characters are not. */
  lemma ParseExactly(s: string, n: nat)
    requires n < USIZE_LIMIT
    ensures ParseUsize("+" + Decimal(n)) == Some(n) && ParseUsize("0" + Decimal(n)) == Some(n)
    ensures ParseUsize("") == None && ParseUsize("+") == None
    ensures (exists c :: c in s && !IsDigit(c) && c != '+') ==> ParseUsize(s) == None
  {
    var d := Decimal(n);
    assert ("+" + d)[1..] == d;
    ValueOfDecimal(n);
    LeadingZero(d);
    assert d[0] != '+';
    if c :| c in s && !IsDigit(c) && c != '+' {
      var t := if s[0] == '+' then s[1..] else s;
      assert c in t;
    }
  }

  lemma {:induction false} LeadingZero(s: string)
    requires AllDigits(s)
    ensures AllDigits("0" + s) && Value("0" + s) == Value(s)
  {
    if s != "" {
      var n := |s| - 1;
      LeadingZero(s[..n]);
      assert ("0" + s)[..|s|] == "0" + s[..n] && ("0" + s)[|s|] == s[n];
    } else {
      assert "0" + s == "0" && "0"[..0] == "";
    }
  }

  // ---------------------------------------------------------------- writing

  const CONTENT_LENGTH := "Content-Length:"

  /** `encode_message` for a serialised body. */
  function Encode(body: seq<Byte>): seq<Byte> {
    Ascii(CONTENT_LENGTH + " " + Decimal(|body|) + "\r\n\r\n") + body
  }

  function EncodeAll(bodies: seq<seq<Byte>>): seq<Byte> {
    if bodies == [] then [] else Encode(bodies[0]) + EncodeAll(bodies[1..])
  }

  // ---------------------------------------------------------------- reading

  /** The length of the next line, with its line feed if it has one. */
  function LineLength(input: seq<Byte>): (n: nat)
    ensures n <= |input|
    ensures n == 0 <==> input == []
    ensures forall i :: 0 <= i < n - 1 ==> input[i] != 10
    ensures 0 < n < |input| ==> input[n - 1] == 10
  {
    if input == [] then 0
    else if input[0] == 10 then 1
    else
      var n := LineLength(input[1..]);
      assert forall i :: 1 <= i < |input| ==> input[i] == input[1..][i - 1];
      n + 1
  }

  /** What one non-blank header line does to the length seen so far. */
  function Header(line: string, len: Option<nat>): Option<nat> {
    if CONTENT_LENGTH <= line then ParseUsize(Trim(line[|CONTENT_LENGTH|..])) else len
  }

  function ReadHeaders(decode: Decoder, input: seq<Byte>, len: Option<nat>): Result<(Option<nat>, seq<Byte>), ReadError>
    decreases |input|
  {
    var n := LineLength(input);
    if n == 0 then Err(UnexpectedEof) else
      match decode(input[..n])
      case None => Err(InvalidHeader)
      case Some(header) =>
        var line := Trim(header);
        if line == "" then Ok((len, input[n..]))
        else ReadHeaders(decode, input[n..], Header(line, len))
  }

  function ReadBody(len: Option<nat>, input: seq<Byte>): Result<(seq<Byte>, seq<Byte>), ReadError> {
    if len.None? then Err(MissingLength)
    else if len.value > MAX_MESSAGE then Err(TooLarge)
    else if len.value > |input| then Err(UnexpectedEof)
    else Ok((input[..len.value], input[len.value..]))
  }

  function Read(decode: Decoder, input: seq<Byte>): Result<(seq<Byte>, seq<Byte>), ReadError> {
    match ReadHeaders(decode, input, None)
    case Ok((len, rest)) => ReadBody(len, rest)
    case Err(e) => Err(e)
  }

  /** The reading end of the pipe; `input` is what has not been consumed yet. */
  class JsonRpcReader {
    const decode: Decoder
    var input: seq<Byte>

    constructor (decode: Decoder, input: seq<Byte>)
      ensures this.decode == decode && this.input == input
    {
      this.decode := decode;
      this.input := input;
    }

    /** `read_message`. A failed read leaves the stream at an unspecified point. */
    method ReadMessage() returns (r: Result<seq<Byte>, ReadError>)
      modifies this`input
      ensures match Read(decode, old(input))
              case Ok((body, rest)) => r == Ok(body) && input == rest
              case Err(e) => r == Err(e)
    {
      var len: Option<nat> := None;
      while true
        invariant ReadHeaders(decode, old(input), None) == ReadHeaders(decode, input, len)
        decreases |input|
      {
        var n := LineLength(input);
        if n == 0 { return Err(UnexpectedEof); }
        var header := decode(input[..n]);
        if header.None? { return Err(InvalidHeader); }
        input := input[n..];
        var line := Trim(header.value);
        if line == "" { break; }
        if CONTENT_LENGTH <= line {
          len := ParseUsize(Trim(line[|CONTENT_LENGTH|..]));
        }
      }
      if len.None? { return Err(MissingLength); }
      if len.value > MAX_MESSAGE { return Err(TooLarge); }
      if len.value > |input| { return Err(UnexpectedEof); }
      r := Ok(input[..len.value]);
      input := input[len.value..];
    }
  }

  // ---------------------------------------------------------------- round trip

  /** One line ends at its own line feed, whatever follows. */
  lemma LineEnds(line: string, rest: seq<Byte>)
    requires IsAscii(line) && '\n' !in line
    ensures IsAscii(line + "\r\n") && LineLength(Ascii(line + "\r\n") + rest) == |line| + 2
    ensures (Ascii(line + "\r\n") + rest)[..|line| + 2] == Ascii(line + "\r\n")
    ensures (Ascii(line + "\r\n") + rest)[|line| + 2..] == rest
  {
    var a := line + "\r\n";
    var input := Ascii(a) + rest;
    assert a[|a| - 1] == '\n' && input[|a| - 1] == 10;
    forall i | 0 <= i < |a| - 1 ensures input[i] != 10 {
      assert input[i] == a[i] as int;
      assert i < |line| ==> a[i] == line[i] && line[i] in line;
    }
    var n := LineLength(input);
    if n < |a| {
      assert false;
    }
  }

  lemma TrimLineEnd(line: string)
    requires Trimmed(line)
    ensures Trim(line + "\r\n") == line
  {
    var s := line + "\r\n";
    if line == "" {
      assert s[1..] == "\n" && "\n"[1..] == "";
      assert TrimStart("\n") == "" && TrimStart(s) == "";
    } else {
      assert s[0] == line[0] && TrimStart(s) == s;
      assert s[..|s| - 1] == line + "\r" && (line + "\r")[..|line|] == line;
      assert TrimEnd(line + "\r") == TrimEnd(line) && TrimEnd(s) == TrimEnd(line + "\r");
    }
  }

  /** A header line that says nothing of the length is skipped; the blank line ends the headers. */
  lemma HeaderRead(decode: Decoder, line: string, rest: seq<Byte>, len: Option<nat>)
    requires DecodesAscii(decode) && IsAscii(line) && '\n' !in line && Trimmed(line)
    ensures IsAscii(line + "\r\n")
    ensures ReadHeaders(decode, Ascii(line + "\r\n") + rest, len)
            == if line == "" then Ok((len, rest)) else ReadHeaders(decode, rest, Header(line, len))
  {
    LineEnds(line, rest);
    TrimLineEnd(line);
  }

  function LengthLine(n: nat): (s: string)
    ensures IsAscii(s) && '\n' !in s && Trimmed(s) && CONTENT_LENGTH <= s
  {
    var s := CONTENT_LENGTH + " " + Decimal(n);
    assert s[|s| - 1] == Decimal(n)[|Decimal(n)| - 1];
    s
  }

  lemma LengthLineRead(n: nat, len: Option<nat>)
    requires n < USIZE_LIMIT
    ensures Header(LengthLine(n), len) == Some(n)
  {
    var d := Decimal(n);
    var s := " " + d;
    assert LengthLine(n)[|CONTENT_LENGTH|..] == s;
    assert s[0] == ' ' && s[1..] == d;
    assert TrimStart(d) == d && TrimStart(s) == d && TrimEnd(d) == d;
    ParsePrinted(n);
  }

  lemma HeadSplit(body: seq<Byte>, rest: seq<Byte>)
    ensures IsAscii(LengthLine(|body|) + "\r\n")
    ensures Encode(body) + rest
            == Ascii(LengthLine(|body|) + "\r\n") + (Ascii("" + "\r\n") + (body + rest))
  {
  }

  /** One message: read back exactly, unless it is over the size limit. */
  lemma ReadEncoded(decode: Decoder, body: seq<Byte>, rest: seq<Byte>)
    requires DecodesAscii(decode) && |body| < USIZE_LIMIT
    ensures Read(decode, Encode(body) + rest)
            == if |body| <= MAX_MESSAGE then Ok((body, rest)) else Err(TooLarge)
  {
    var line, tail := LengthLine(|body|), body + rest;
    HeadSplit(body, rest);
    HeaderRead(decode, line, Ascii("" + "\r\n") + tail, None);
    LengthLineRead(|body|, None);
    HeaderRead(decode, "", tail, Some(|body|));
    assert tail[..|body|] == body && tail[|body|..] == rest;
  }

  /** Header lines that another peer adds in front do not matter. */
  lemma OtherHeadersIgnored(decode: Decoder, line: string, message: seq<Byte>)
    requires DecodesAscii(decode) && IsAscii(line) && '\n' !in line && Trimmed(line)
    requires line != "" && !(CONTENT_LENGTH <= line)
    ensures IsAscii(line + "\r\n") && Read(decode, Ascii(line + "\r\n") + message) == Read(decode, message)
  {
    HeaderRead(decode, line, message, None);
  }

  function ReadMany(decode: Decoder, input: seq<Byte>, n: nat): Result<(seq<seq<Byte>>, seq<Byte>), ReadError>
    decreases n
  {
    if n == 0 then Ok(([], input)) else
      match Read(decode, input)
      case Err(e) => Err(e)
      case Ok((body, rest)) =>
        match ReadMany(decode, rest, n - 1)
        case Err(e) => Err(e)
        case Ok((bodies, end)) => Ok(([body] + bodies, end))
  }

  /** A stream of messages is read back message by message, byte for byte. */
  lemma {:induction false} ReadAllEncoded(decode: Decoder, bodies: seq<seq<Byte>>, rest: seq<Byte>)
    requires DecodesAscii(decode)
    requires forall i :: 0 <= i < |bodies| ==> |bodies[i]| <= MAX_MESSAGE
    ensures ReadMany(decode, EncodeAll(bodies) + rest, |bodies|) == Ok((bodies, rest))
  {
    if bodies == [] {
      assert EncodeAll(bodies) + rest == rest;
    } else {
      var tail := EncodeAll(bodies[1..]) + rest;
      assert EncodeAll(bodies) + rest == Encode(bodies[0]) + tail;
      ReadEncoded(decode, bodies[0], tail);
      ReadAllEncoded(decode, bodies[1..], rest);
      assert [bodies[0]] + bodies[1..] == bodies;
    }
  }

  // ---------------------------------------------------------------- any headers

  predicate PlainHeader(line: string) {
    IsAscii(line) && '\n' !in line && Trimmed(line) && line != ""
  }

  /** The headers as they are sent, without the blank line behind them. */
  function Headers(lines: seq<string>): (r: seq<Byte>)
    requires forall i :: 0 <= i < |lines| ==> PlainHeader(lines[i])
  {
    if lines == [] then [] else
      assert PlainHeader(lines[0]);
      Ascii(lines[0] + "\r\n") + Headers(lines[1..])
  }

  /** The length that the headers leave. */
  function LengthOf(lines: seq<string>, len: Option<nat>): Option<nat> {
    if lines == [] then len else LengthOf(lines[1..], Header(lines[0], len))
  }

  lemma {:induction false} HeadersRead(decode: Decoder, lines: seq<string>, rest: seq<Byte>, len: Option<nat>)
    requires DecodesAscii(decode) && forall i :: 0 <= i < |lines| ==> PlainHeader(lines[i])
    ensures ReadHeaders(decode, Headers(lines) + rest, len) == ReadHeaders(decode, rest, LengthOf(lines, len))
    decreases |lines|
  {
    if lines == [] {
      assert Headers(lines) + rest == rest;
    } else {
      var line, tail := lines[0], Headers(lines[1..]) + rest;
      assert PlainHeader(line);
      Assoc(Ascii(line + "\r\n"), Headers(lines[1..]), rest);
      HeaderRead(decode, line, tail, len);
      HeadersRead(decode, lines[1..], rest, Header(line, len));
    }
  }

  lemma {:induction false} LengthKept(lines: seq<string>, len: Option<nat>)
    requires forall i :: 0 <= i < |lines| ==> !(CONTENT_LENGTH <= lines[i])
    ensures LengthOf(lines, len) == len
    decreases |lines|
  {
    if lines != [] {
      LengthKept(lines[1..], len);
    }
  }

  /** The last length header counts, even if it cannot be parsed. */
  lemma {:induction false} LastLengthCounts(lines: seq<string>, k: nat, len: Option<nat>)
    requires k < |lines| && CONTENT_LENGTH <= lines[k]
    requires forall i :: k < i < |lines| ==> !(CONTENT_LENGTH <= lines[i])
    ensures LengthOf(lines, len) == ParseUsize(Trim(lines[k][|CONTENT_LENGTH|..]))
    decreases k
  {
    if k == 0 {
      LengthKept(lines[1..], Header(lines[0], len));
    } else {
      LastLengthCounts(lines[1..], k - 1, Header(lines[0], len));
    }
  }

  lemma BlankEnds(decode: Decoder, lines: seq<string>, rest: seq<Byte>)
    requires DecodesAscii(decode) && forall i :: 0 <= i < |lines| ==> PlainHeader(lines[i])
    ensures IsAscii("\r\n")
    ensures Read(decode, Headers(lines) + (Ascii("\r\n") + rest)) == ReadBody(LengthOf(lines, None), rest)
  {
    assert "" + "\r\n" == "\r\n";
    var len := LengthOf(lines, None);
    HeaderRead(decode, "", rest, len);
    HeadersRead(decode, lines, Ascii("\r\n") + rest, None);
  }

  /** Reading a message with any headers: what the last length header says decides. */
  lemma ReadExactly(decode: Decoder, lines: seq<string>, k: nat, rest: seq<Byte>)
    requires DecodesAscii(decode) && forall i :: 0 <= i < |lines| ==> PlainHeader(lines[i])
    requires k < |lines| && CONTENT_LENGTH <= lines[k] && forall i :: k < i < |lines| ==> !(CONTENT_LENGTH <= lines[i])
    ensures IsAscii("\r\n")
    ensures Read(decode, Headers(lines) + (Ascii("\r\n") + rest))
            == match ParseUsize(Trim(lines[k][|CONTENT_LENGTH|..]))
               case None => Err(MissingLength)
               case Some(n) =>
                 if n > MAX_MESSAGE then Err(TooLarge)
                 else if n > |rest| then Err(UnexpectedEof)
                 else Ok((rest[..n], rest[n..]))
  {
    BlankEnds(decode, lines, rest);
    LastLengthCounts(lines, k, None);
  }

  /** Without a length header, or when the input ends within the headers, reading fails. */
  lemma ReadFails(decode: Decoder, lines: seq<string>, rest: seq<Byte>)
    requires DecodesAscii(decode) && forall i :: 0 <= i < |lines| ==> PlainHeader(lines[i])
    ensures IsAscii("\r\n")
    ensures (forall i :: 0 <= i < |lines| ==> !(CONTENT_LENGTH <= lines[i])) ==>
              Read(decode, Headers(lines) + (Ascii("\r\n") + rest)) == Err(MissingLength)
    ensures Read(decode, Headers(lines)) == Err(UnexpectedEof)
  {
    BlankEnds(decode, lines, rest);
    HeadersRead(decode, lines, [], None);
    assert Headers(lines) + [] == Headers(lines);
    if forall i :: 0 <= i < |lines| ==> !(CONTENT_LENGTH <= lines[i]) {
      LengthKept(lines, None);
    }
  }
}
