/** RTSP: zpinger's OPTIONS request and its reading of the answer, and testserver's responder. */
module Rtsp {
  import opened Bytes
  import opened Streams
  import opened Headers

  const MAX_RESPONSE_BYTES := 4096
  const CHUNK := 256
  const SERVER_BUF := 1024

  const STATUS_LINE_PREFIX: seq<byte> := // "RTSP/1.0 200"
    [0x52, 0x54, 0x53, 0x50, 0x2F, 0x31, 0x2E, 0x30, 0x20, 0x32, 0x30, 0x30]
  const OPTIONS: seq<byte> := // "OPTIONS "
    [0x4F, 0x50, 0x54, 0x49, 0x4F, 0x4E, 0x53, 0x20]

  // ---- The client ------------------------------------------------------------------------------

  /** Decimal digits, as `format!` writes them. */
  function Show(n: nat): (s: seq<byte>)
  {
    if n < 10 then [0x30 + n] else Show(n / 10) + [0x30 + n % 10]
  }

  /** The digits of a number spell it, and do not begin with a zero. */
  lemma {:induction false} ShowSpells(n: nat)
    ensures var s := Show(n);
            && s != [] && (forall i | 0 <= i < |s| :: 0x30 <= s[i] <= 0x39)
            && (n > 0 ==> s[0] != 0x30) && (n == 0 ==> s == [0x30])
            && PlaceValue(DigitValues(s)) == n
    decreases n
  {
    if n < 10 {
      assert DigitValues([0x30 + n]) == [n] && PlaceValue([n][1..]) == 0 && Pow10(0) == 1;
    } else {
      ShowSpells(n / 10);
      assert DigitValues(Show(n)) == DigitValues(Show(n / 10)) + [n % 10];
      PlaceValueAppend(DigitValues(Show(n / 10)), n % 10);
    }
  }

  function DigitValues(s: seq<byte>): (digits: seq<nat>)
  {
    seq(|s|, i requires 0 <= i < |s| => if s[i] >= 0x30 then (s[i] - 0x30) as nat else 0)
  }

  /** `build_options_request`. */
  function OptionsRequest(domain: seq<byte>, port: u16): (s: seq<byte>)
  {
    OPTIONS
    + (Ascii("rtsp://") + domain + Ascii(":") + Show(port)
       + Ascii("/ RTSP/1.0\r\nCSeq: 1\r\nUser-Agent: zpinger/0.7.0"))
    + TERMINATOR
  }

  /** The request as text (RFC 2326 sections 6.1 and 10.1). */
  lemma RequestAsText(domain: seq<byte>, port: u16)
    ensures OptionsRequest(domain, port)
         == Ascii("OPTIONS rtsp://") + domain + Ascii(":") + Show(port)
            + Ascii("/ RTSP/1.0\r\nCSeq: 1\r\nUser-Agent: zpinger/0.7.0\r\n\r\n")
  {
    var a, b := "/ RTSP/1.0\r\nCSeq: 1\r\nUser-Agent: zpinger/0.7.0", "\r\n\r\n";
    Texts();
    AsciiAppend("OPTIONS ", "rtsp://");
    assert "OPTIONS " + "rtsp://" == "OPTIONS rtsp://";
    AsciiAppend(a, b);
    assert a + b == "/ RTSP/1.0\r\nCSeq: 1\r\nUser-Agent: zpinger/0.7.0\r\n\r\n";
    Regrouped(OPTIONS, Ascii("rtsp://"), domain, Ascii(":"), Show(port), Ascii(a), TERMINATOR);
  }

  lemma Texts()
    ensures OPTIONS == Ascii("OPTIONS ") && STATUS_LINE_PREFIX == Ascii("RTSP/1.0 200")
    ensures TERMINATOR == Ascii("\r\n\r\n")
  {
  }

  lemma Regrouped(a: seq<byte>, b: seq<byte>, c: seq<byte>, d: seq<byte>, e: seq<byte>, f: seq<byte>, g: seq<byte>)
    ensures a + (b + c + d + e + f) + g == (a + b) + c + d + e + (f + g)
  {
  }

  datatype ResponseError = Io(e: IoError) | WrongStatus

  /** The verdict on a whole response: it begins with the status prefix. A connection that breaks is
      forgiven if the reader had seen enough before. */
  predicate Accepts(s: seq<byte>, reset: bool)
  {
    STATUS_LINE_PREFIX <= s && !BrokenEarly(s, reset)
  }

  /** The connection breaks before the reader has seen enough. */
  predicate BrokenEarly(s: seq<byte>, reset: bool)
  {
    reset && FindTerminator(s).None? && |s| < 4096
  }

  /** `validate_response`: the verdict is that on the whole stream, however it is cut into pieces and
      wherever reading stops; less than 4096 + 256 bytes are ever buffered. */
  method ValidateResponse(stream: Stream) returns (r: Result<(), ResponseError>)
    requires stream.Valid()
    modifies stream`input, stream`trace
    ensures stream.Valid()
    ensures r.Ok? <==> Accepts(old(stream.input), stream.reset)
    ensures var broken := BrokenEarly(old(stream.input), stream.reset);
            r.Err? ==> r.error == if broken then Io(ConnectionReset) else WrongStatus
    ensures |old(stream.input)| - |stream.input| < 4096 + 256
  {
    ghost var s := stream.input;
    var buf: seq<byte> := [];
    while true
      invariant stream.Valid() && buf + stream.input == s
      invariant FindTerminator(buf).None? && |buf| < MAX_RESPONSE_BYTES
      decreases |stream.input|
    {
      var piece := stream.Read(CHUNK);
      if piece.Err? {
        assert buf == s;
        return Err(Io(piece.error));
      }
      if piece.value == [] {
        assert buf == s;
        break;
      }
      ghost var before := buf;
      buf := buf + piece.value;
      assert buf + stream.input == s by {
        Associative(before, piece.value, stream.input);
      }
      if FindTerminator(buf).Some? || |buf| >= MAX_RESPONSE_BYTES {
        break;
      }
    }
    Verdict(s, buf, stream.input);
    if !(STATUS_LINE_PREFIX <= buf) {
      return Err(WrongStatus);
    }
    return Ok(());
  }

  /** What was read decides about the whole. */
  lemma Verdict(s: seq<byte>, buf: seq<byte>, rest: seq<byte>)
    requires s == buf + rest
    requires FindTerminator(buf).Some? || |buf| >= MAX_RESPONSE_BYTES || rest == []
    ensures STATUS_LINE_PREFIX <= s <==> STATUS_LINE_PREFIX <= buf
    ensures FindTerminator(buf).Some? ==> FindTerminator(s).Some?
  {
    DropAppend(buf, rest);
    if rest == [] {
      PlusNothing(buf);
    } else {
      FoundInPrefix(s, |buf|);
      PrefixDecided(STATUS_LINE_PREFIX, s, |buf|);
    }
  }

  // ---- The responder ---------------------------------------------------------------------------

  /** The answer of `start_rtsp_ok`. */
  function Response(): (s: seq<byte>)
  {
    STATUS_LINE_PREFIX
    + (Ascii(" OK\r\nCSeq: 1\r\n") + Ascii("Public: OPTIONS, DESCRIBE, SETUP, PLAY, TEARDOWN"))
    + TERMINATOR
  }

  /** The answer as text, line by line. */
  lemma ResponseAsText()
    ensures Response()
         == Ascii("RTSP/1.0 200") + Ascii(" OK\r\n") + Ascii("CSeq: 1\r\n")
            + Ascii("Public: OPTIONS, DESCRIBE, SETUP, PLAY, TEARDOWN") + Ascii("\r\n\r\n")
  {
    var a, b, c := " OK\r\n", "CSeq: 1\r\n", "Public: OPTIONS, DESCRIBE, SETUP, PLAY, TEARDOWN";
    Texts();
    assert a + b == " OK\r\nCSeq: 1\r\n";
    AsciiAppend(a, b);
    Associative(STATUS_LINE_PREFIX, Ascii(a) + Ascii(b), Ascii(c));
    Associative(STATUS_LINE_PREFIX, Ascii(a), Ascii(b));
  }

  /** Requests that are answered: an OPTIONS request whose header ends within the buffer. */
  predicate Answered(s: seq<byte>)
  {
    OPTIONS <= s && FindTerminator(Take(s, 1024)).Some?
  }

  /** The reading loop of `start_rtsp_ok`: pieces accumulate in a fixed zeroed buffer until a terminator
      is there, the buffer is full or the stream ends. */
  method Accumulate(stream: Stream, buf: array<byte>) returns (found: bool, total: nat)
    requires stream.Valid() && buf.Length == SERVER_BUF && forall i | 0 <= i < SERVER_BUF :: buf[i] == 0
    modifies stream`input, stream`trace, buf
    ensures stream.Valid()
    ensures total <= |old(stream.input)| && total <= SERVER_BUF && buf[..total] == old(stream.input)[..total]
    ensures forall i | total <= i < SERVER_BUF :: buf[i] == 0
    ensures found <==> FindTerminator(buf[..total]).Some?
    ensures found <==> FindTerminator(Take(old(stream.input), SERVER_BUF)).Some?
  {
    ghost var s := stream.input;
    total := 0;
    while true
      invariant stream.Valid()
      invariant 0 <= total < SERVER_BUF && total <= |s| && buf[..total] == s[..total] && stream.input == s[total..]
      invariant forall i | total <= i < SERVER_BUF :: buf[i] == 0
      invariant FindTerminator(s[..total]).None?
      decreases |stream.input|
    {
      var piece := stream.Read(SERVER_BUF - total);
      if piece.Err? || piece.value == [] {
        AllRead(s, total);
        return false, total;
      }
      CopyInto(buf, total, piece.value);
      Grown(s, total, piece.value, stream.input);
      total := total + |piece.value|;
      if FindTerminator(buf[..total]).Some? {
        FoundEarly(s, total);
        return true, total;
      }
      if total >= SERVER_BUF {
        AllRead(s, total);
        return false, total;
      }
    }
  }

  lemma AllRead(s: seq<byte>, total: nat)
    requires total <= |s| && (total == SERVER_BUF || (total < SERVER_BUF && s[total..] == []))
    ensures Take(s, SERVER_BUF) == s[..total]
  {
  }

  lemma FoundEarly(s: seq<byte>, total: nat)
    requires total <= |s| && total <= SERVER_BUF && FindTerminator(s[..total]).Some?
    ensures FindTerminator(Take(s, SERVER_BUF)).Some?
  {
    assert Take(s, SERVER_BUF)[..total] == s[..total];
    FoundInPrefix(Take(s, SERVER_BUF), total);
  }

  lemma Grown(s: seq<byte>, total: nat, piece: seq<byte>, rest: seq<byte>)
    requires total <= |s| && s[total..] == piece + rest
    ensures total + |piece| <= |s| && s[..total + |piece|] == s[..total] + piece && s[total + |piece|..] == rest
  {
    assert s[total..][..|piece|] == piece && s[total..][|piece|..] == rest;
  }

  /** The connection body of `start_rtsp_ok`: what it writes depends on the request alone, not on the
      pieces in which it arrives. */
  method Serve(stream: Stream)
    requires stream.Valid()
    modifies stream`input, stream`output, stream`room, stream`trace
    ensures stream.Valid()
    ensures var sent := if Answered(old(stream.input)) then Take(Response(), old(stream.room)) else [];
            stream.output == old(stream.output) + sent
  {
    var buf := new byte[SERVER_BUF](_ => 0);
    var found, total := Accumulate(stream, buf);
    if !found {
      return;
    }
    Decided(old(stream.input), buf[..], total);
    if !(OPTIONS <= buf[..]) {
      return;
    }
    var _ := stream.WriteAll(Response());
  }

  lemma Decided(s: seq<byte>, buf: seq<byte>, total: nat)
    requires total <= |s| && total <= |buf| == SERVER_BUF && buf[..total] == s[..total]
    requires forall i | total <= i < SERVER_BUF :: buf[i] == 0
    requires FindTerminator(buf[..total]).Some?
    ensures OPTIONS <= buf <==> Answered(s)
  {
    PrefixDecided(OPTIONS, s, total);
    PrefixDecided(OPTIONS, buf, total);
    assert Take(s, SERVER_BUF)[..total] == s[..total];
    FoundInPrefix(Take(s, SERVER_BUF), total);
  }

  /** Any request of at most 1024 bytes is answered, and the answer is accepted. */
  lemma RequestIsAnswered(domain: seq<byte>, port: u16)
    requires |OptionsRequest(domain, port)| <= SERVER_BUF
    ensures Answered(OptionsRequest(domain, port)) && Accepts(Response(), false)
  {
    var s := OptionsRequest(domain, port);
    assert Take(s, SERVER_BUF) == s;
    TerminatedEnd(s[..|s| - 4]);
    assert s == s[..|s| - 4] + TERMINATOR;
  }
}
