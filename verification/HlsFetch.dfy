/** zpinger's minimal HTTP fetcher: read the whole response, check its header, give back its body. */
module HlsFetch {
  import opened Bytes
  import opened Streams
  import opened Headers

  const CHUNK := 4096

  // ---- UTF-8 -------------------------------------------------------------------------------------

  // A Unicode scalar value.
  type Scalar = n: int | 0 <= n < 0xD800 || 0xE000 <= n < 0x11_0000

  predicate IsTail(b: byte)
  {
    0x80 <= b <= 0xBF
  }

  /** The length of the well-formed character that `s` begins with (Unicode Standard, table 3-7), or 0. */
  function CharLength(s: seq<byte>): (n: nat)
    requires s != []
    ensures n <= |s|
  {
    if s[0] < 0x80 then 1
    else if |s| < 2 || !IsTail(s[1]) then 0
    else if 0xC2 <= s[0] <= 0xDF then 2
    else if |s| < 3 || !IsTail(s[2]) then 0
    else if s[0] == 0xE0 then if s[1] >= 0xA0 then 3 else 0
    else if s[0] == 0xED then if s[1] <= 0x9F then 3 else 0
    else if 0xE1 <= s[0] <= 0xEF then 3
    else if |s| < 4 || !IsTail(s[3]) then 0
    else if s[0] == 0xF0 then if s[1] >= 0x90 then 4 else 0
    else if s[0] == 0xF4 then if s[1] <= 0x8F then 4 else 0
    else if 0xF1 <= s[0] <= 0xF3 then 4
    else 0
  }

  /** What `str::from_utf8` accepts. */
  predicate ValidUtf8(s: seq<byte>)
    decreases |s|
  {
    s == [] || (CharLength(s) > 0 && ValidUtf8(s[CharLength(s)..]))
  }

  function EncodeChar(c: Scalar): (s: seq<byte>)
    ensures s != []
  {
    if c < 0x80 then [c]
    else if c < 0x800 then [0xC0 + c / 64, 0x80 + c % 64]
    else if c < 0x1_0000 then [0xE0 + c / 64 / 64, 0x80 + c / 64 % 64, 0x80 + c % 64]
    else [0xF0 + c / 64 / 64 / 64, 0x80 + c / 64 / 64 % 64, 0x80 + c / 64 % 64, 0x80 + c % 64]
  }

  function EncodeText(text: seq<Scalar>): (s: seq<byte>)
  {
    if text == [] then [] else EncodeChar(text[0]) + EncodeText(text[1..])
  }

  lemma CharRead(c: Scalar, rest: seq<byte>)
    ensures CharLength(EncodeChar(c) + rest) == |EncodeChar(c)|
  {
  }

  lemma {:induction false} EncodedIsValid(text: seq<Scalar>)
    ensures ValidUtf8(EncodeText(text))
    decreases |text|
  {
    if text != [] {
      CharRead(text[0], EncodeText(text[1..]));
      DropAppend(EncodeChar(text[0]), EncodeText(text[1..]));
      EncodedIsValid(text[1..]);
    }
  }

  function Tail(b: byte): (n: nat)
    requires IsTail(b)
    ensures n < 64 && b == 0x80 + n
  {
    b - 0x80
  }

  lemma CharIsEncoded(s: seq<byte>) returns (c: Scalar)
    requires s != [] && CharLength(s) > 0
    ensures s[..CharLength(s)] == EncodeChar(c)
  {
    var n := CharLength(s);
    if n == 1 {
      c := s[0];
    } else if n == 2 {
      c := (s[0] as int - 0xC0) * 64 + Tail(s[1]);
    } else if n == 3 {
      var q := (s[0] as int - 0xE0) * 64 + Tail(s[1]);
      c := q * 64 + Tail(s[2]);
    } else {
      c := CharOfFour(s);
    }
  }

  lemma CharOfFour(s: seq<byte>) returns (c: Scalar)
    requires s != [] && CharLength(s) == 4
    ensures s[..4] == EncodeChar(c)
  {
    var p := (s[0] as int - 0xF0) * 64 + Tail(s[1]);
    var q := p * 64 + Tail(s[2]);
    c := q * 64 + Tail(s[3]);
    assert 16 <= p < 272;
    assert c / 64 == q && c % 64 == Tail(s[3]) && q / 64 == p && q % 64 == Tail(s[2]);
  }

  lemma {:induction false} ValidIsEncoded(s: seq<byte>) returns (text: seq<Scalar>)
    requires ValidUtf8(s)
    ensures s == EncodeText(text)
    decreases |s|
  {
    if s == [] {
      text := [];
    } else {
      var c := CharIsEncoded(s);
      var rest := ValidIsEncoded(s[CharLength(s)..]);
      text := [c] + rest;
      assert s == s[..CharLength(s)] + s[CharLength(s)..];
    }
  }

  // ---- The response ------------------------------------------------------------------------------

  const HTTP: seq<byte> := [0x48, 0x54, 0x54, 0x50, 0x2F] // "HTTP/"
  const OK_200: seq<byte> := [0x20, 0x32, 0x30, 0x30, 0x20] // " 200 "
  const PARTIAL_206: seq<byte> := [0x20, 0x32, 0x30, 0x36, 0x20] // " 206 "

  lemma Texts()
    ensures HTTP == Ascii("HTTP/") && OK_200 == Ascii(" 200 ") && PARTIAL_206 == Ascii(" 206 ")
  {
  }

  /** `lines().next().unwrap_or("")`. */
  function FirstLine(s: seq<byte>): (line: seq<byte>)
    ensures line <= s && LF !in line
    ensures line < s && s[|line|] == LF ==> line == [] || line[|line| - 1] != CR
    ensures line < s ==> s[|line|] == LF || (|line| + 1 < |s| && s[|line|] == CR && s[|line| + 1] == LF)
  {
    var n := BeforeLf(s);
    if n < |s| && n > 0 && s[n - 1] == CR then s[..n - 1] else s[..n]
  }

  function BeforeLf(s: seq<byte>): (n: nat)
    ensures n <= |s| && LF !in s[..n] && (n < |s| ==> s[n] == LF)
  {
    if s == [] || s[0] == LF then 0
    else
      var m := BeforeLf(s[1..]);
      assert s[..1 + m] == [s[0]] + s[1..][..m];
      1 + m
  }

  predicate Contains(s: seq<byte>, t: seq<byte>)
  {
    exists i | 0 <= i <= |s| :: t <= s[i..]
  }

  lemma ContainsIff(s: seq<byte>, t: seq<byte>)
    ensures Contains(s, t) <==> exists a, b :: s == a + t + b
  {
    if Contains(s, t) {
      var i :| 0 <= i <= |s| && t <= s[i..];
      assert s == s[..i] + t + s[i + |t|..];
    }
    if a, b :| s == a + t + b {
      Associative(a, t, b);
      assert s[|a|..] == t + b;
    }
  }

  datatype FetchError = Io(e: IoError) | NoSeparator | NotUtf8 | NotHttp | BadStatus

  /** The response is a header that its first empty line ends, and a body. */
  ghost predicate Parted(response: seq<byte>, header: seq<byte>, body: seq<byte>)
  {
    response == header + TERMINATOR + body && FindTerminator(header + TERMINATOR) == Some(|header|)
  }

  /** An accepted status line holds " 200 " or " 206 " somewhere. */
  lemma StatusInText(line: seq<byte>)
    ensures StatusAccepted(line)
       <==> (exists a, b :: line == a + Ascii(" 200 ") + b) || (exists a, b :: line == a + Ascii(" 206 ") + b)
  {
    Texts();
    ContainsIff(line, OK_200);
    ContainsIff(line, PARTIAL_206);
  }

  predicate StatusAccepted(line: seq<byte>)
  {
    Contains(line, OK_200) || Contains(line, PARTIAL_206)
  }

  /** The verdict on a whole response. */
  ghost predicate Judged(response: seq<byte>, r: Result<seq<byte>, FetchError>)
  {
    match r
    case Ok(body) =>
      exists header :: Parted(response, header, body)
                       && ValidUtf8(header) && HTTP <= FirstLine(header) && StatusAccepted(FirstLine(header))
    case Err(Io(_)) => false
    case Err(NoSeparator) => forall header, body :: !Parted(response, header, body)
    case Err(NotUtf8) => exists header, body :: Parted(response, header, body) && !ValidUtf8(header)
    case Err(NotHttp) =>
      exists header, body :: Parted(response, header, body) && ValidUtf8(header) && !(HTTP <= FirstLine(header))
    case Err(BadStatus) =>
      exists header, body :: Parted(response, header, body)
                             && ValidUtf8(header) && HTTP <= FirstLine(header) && !StatusAccepted(FirstLine(header))
  }

  /** `fetch_response_body`: the verdict on the whole response, however it is cut into pieces. */
  method FetchResponseBody(stream: Stream, request: seq<byte>) returns (r: Result<seq<byte>, FetchError>)
    requires stream.Valid()
    modifies stream`input, stream`output, stream`room, stream`trace
    ensures stream.Valid()
    ensures |request| > old(stream.room) ==> r == Err(Io(WriteFailed))
    ensures |request| <= old(stream.room) && stream.reset ==> r == Err(Io(ConnectionReset))
    ensures |request| <= old(stream.room) && !stream.reset ==> Judged(old(stream.input), r)
    ensures |request| <= old(stream.room) ==> stream.trace == old(stream.trace) + Outs(request) + Ins(old(stream.input))
    ensures |request| > old(stream.room) ==> stream.trace == old(stream.trace) + Outs(request[..old(stream.room)])
  {
    ghost var s := stream.input;
    var sent := stream.WriteAll(request);
    if sent.Err? {
      return Err(Io(sent.error));
    }
    var buf := ReadToEnd(stream);
    if buf.Err? {
      return Err(Io(buf.error));
    }
    r := Body(buf.value);
  }

  /** The reading loop: everything until the end of the stream. */
  method ReadToEnd(stream: Stream) returns (r: Result<seq<byte>, IoError>)
    requires stream.Valid()
    modifies stream`input, stream`trace
    ensures stream.Valid() && stream.input == []
    ensures stream.trace == old(stream.trace) + Ins(old(stream.input))
    ensures if stream.reset then r == Err(ConnectionReset) else r.Ok?
    ensures r.Ok? ==> r.value == old(stream.input)
  {
    ghost var s, t := stream.input, stream.trace;
    var buf: seq<byte> := [];
    while true
      invariant stream.Valid() && buf + stream.input == s
      invariant stream.trace == t + Ins(buf)
      decreases |stream.input|
    {
      var piece := stream.Read(CHUNK);
      if piece.Err? {
        assert buf == s;
        return Err(piece.error);
      }
      if piece.value == [] {
        assert buf == s;
        return Ok(buf);
      }
      Associative(buf, piece.value, stream.input);
      InsAppend(buf, piece.value);
      Associative(t, Ins(buf), Ins(piece.value));
      buf := buf + piece.value;
    }
  }

  /** The checks on the whole response. */
  method Body(response: seq<byte>) returns (r: Result<seq<byte>, FetchError>)
    ensures Judged(response, r)
  {
    var split := FindTerminator(response);
    Splits(response);
    if split.None? {
      forall header, body
        ensures !Parted(response, header, body)
      {
        if Parted(response, header, body) {
          PartedOnce(response, header, body);
        }
      }
      return Err(NoSeparator);
    }
    var header := response[..split.value];
    var body := response[split.value + 4..];
    assert Parted(response, header, body);
    if !ValidUtf8(header) {
      return Err(NotUtf8);
    }
    var line := FirstLine(header);
    if !(HTTP <= line) {
      return Err(NotHttp);
    }
    if !Contains(line, OK_200) && !Contains(line, PARTIAL_206) {
      return Err(BadStatus);
    }
    return Ok(body);
  }

  /** The first separator parts a response. */
  lemma Splits(response: seq<byte>)
    ensures var split := FindTerminator(response);
            split.Some? ==> Parted(response, response[..split.value], response[split.value + 4..])
  {
    var split := FindTerminator(response);
    if split.Some? {
      var n := split.value;
      var front := response[..n + 4];
      assert response[..n] + TERMINATOR == front;
      assert TerminatorAt(front, n);
      forall i: nat | i < n
        ensures !TerminatorAt(front, i)
      {
        assert !TerminatorAt(response, i);
      }
    }
  }

  /** There is only one way to part a response. */
  lemma PartedOnce(response: seq<byte>, header: seq<byte>, body: seq<byte>)
    requires Parted(response, header, body)
    ensures FindTerminator(response) == Some(|header|)
    ensures header == response[..|header|] && body == response[|header| + 4..]
  {
    DropAppend(header + TERMINATOR, body);
    FoundInPrefix(response, |header| + 4);
  }

  /** There is only one verdict on a response. */
  lemma JudgedOnce(response: seq<byte>, r: Result<seq<byte>, FetchError>, r': Result<seq<byte>, FetchError>)
    ensures Judged(response, r) && Judged(response, r') ==> r == r'
  {
    forall header, body | Parted(response, header, body)
      ensures FindTerminator(response) == Some(|header|)
      ensures header == response[..|header|] && body == response[|header| + 4..]
    {
      PartedOnce(response, header, body);
    }
    Splits(response);
  }

  /** A header whose first empty line is its end, that is UTF-8 and has an accepted status line, in front
      of any body: exactly that body is given back. */
  lemma BodyComesBack(header: seq<byte>, body: seq<byte>, r: Result<seq<byte>, FetchError>)
    requires FindTerminator(header + TERMINATOR) == Some(|header|)
    requires ValidUtf8(header) && HTTP <= FirstLine(header) && StatusAccepted(FirstLine(header))
    ensures Judged(header + TERMINATOR + body, r) <==> r == Ok(body)
  {
    BodyAccepted(header, body);
    if Judged(header + TERMINATOR + body, r) {
      JudgedOnce(header + TERMINATOR + body, r, Ok(body));
    }
  }

  lemma BodyAccepted(header: seq<byte>, body: seq<byte>)
    requires FindTerminator(header + TERMINATOR) == Some(|header|)
    requires ValidUtf8(header) && HTTP <= FirstLine(header) && StatusAccepted(FirstLine(header))
    ensures Judged(header + TERMINATOR + body, Ok(body))
  {
    assert Parted(header + TERMINATOR + body, header, body);
  }
}
