/** STUN messages (RFC 5389): the header zpinger builds and checks, and testserver's STUN responder. */
module Stun {
  import opened Bytes

  const HEADER_LEN := 20
  const TXID_LEN := 12
  const SERVER_BUF := 1024
  const CLIENT_BUF := 0xFF
  const MAGIC_COOKIE: seq<byte> := [0x21, 0x12, 0xA4, 0x42]
  const BINDING_REQUEST: u16 := 0x0001
  const BINDING_SUCCESS: u16 := 0x0101

  /** The header: type, length, magic cookie, transaction id. */
  function Header(messageType: u16, length: u16, txid: seq<byte>): (s: seq<byte>)
    ensures |s| == 8 + |txid|
  {
    Be16(messageType) + Be16(length) + MAGIC_COOKIE + txid
  }

  /** The header in numbers (RFC 5389 section 6), and the one of a Binding request (section 18.1). */
  lemma HeaderInNumbers(messageType: u16, length: u16, txid: seq<byte>)
    ensures Header(messageType, length, txid)
         == [messageType / 256, messageType % 256, length / 256, length % 256, 0x21, 0x12, 0xA4, 0x42] + txid
    ensures Header(BINDING_REQUEST, 0, txid) == [0x00, 0x01, 0x00, 0x00, 0x21, 0x12, 0xA4, 0x42] + txid
    ensures Header(BINDING_SUCCESS, 0, txid) == [0x01, 0x01, 0x00, 0x00, 0x21, 0x12, 0xA4, 0x42] + txid
  {
    WordBytes(0x0001, 0x00, 0x01);
    WordBytes(0x0101, 0x01, 0x01);
    WordBytes(0, 0, 0);
  }

  /** `build_header`. */
  method BuildHeader(messageType: u16, length: u16, txid: seq<byte>) returns (header: array<byte>)
    requires |txid| == TXID_LEN
    ensures fresh(header) && header[..] == Header(messageType, length, txid)
  {
    header := new byte[HEADER_LEN](_ => 0);
    CopyInto(header, 0, Be16(messageType));
    CopyInto(header, 2, Be16(length));
    CopyInto(header, 4, MAGIC_COOKIE);
    CopyInto(header, 8, txid);
    assert header[..20] == header[..];
  }

  /** `build_message`; attributes of 2^16 bytes or more make it panic. */
  method BuildMessage(messageType: u16, attributes: seq<byte>, txid: seq<byte>) returns (packet: seq<byte>)
    requires |txid| == TXID_LEN && |attributes| < 0x1_0000
    ensures packet == Header(messageType, |attributes|, txid) + attributes
  {
    var header := BuildHeader(messageType, |attributes|, txid);
    packet := header[..];
    packet := packet + attributes;
  }

  datatype HeaderError = TooShort | WrongType | WrongCookie | WrongTransaction

  /** `validate_response_header`; the length field is not looked at. */
  function ValidateHeader(buf: seq<byte>, expectedType: u16, expectedTxid: seq<byte>): (r: Result<(), HeaderError>)
  {
    if |buf| < HEADER_LEN then Err(TooShort)
    else if U16(buf[0], buf[1]) != expectedType then Err(WrongType)
    else if buf[4..8] != MAGIC_COOKIE then Err(WrongCookie)
    else if buf[8..20] != expectedTxid then Err(WrongTransaction)
    else Ok(())
  }

  /** Accepted are exactly the buffers that start with the header for some length. */
  lemma AcceptedIff(buf: seq<byte>, messageType: u16, txid: seq<byte>)
    requires |txid| == TXID_LEN
    ensures ValidateHeader(buf, messageType, txid).Ok?
       <==> exists length: u16 :: Header(messageType, length, txid) <= buf
  {
    if ValidateHeader(buf, messageType, txid).Ok? {
      var length := U16(buf[2], buf[3]);
      assert buf[..20] == Header(messageType, length, txid);
    } else if length: u16 :| Header(messageType, length, txid) <= buf {
      HeaderFields(buf, messageType, length, txid);
      assert false;
    }
  }

  /** Each refusal in numbers: the first thing that is wrong. */
  lemma RefusalsInNumbers(buf: seq<byte>, messageType: u16, txid: seq<byte>)
    ensures var r := ValidateHeader(buf, messageType, txid);
            && (r == Err(TooShort) <==> |buf| < 20)
            && (|buf| >= 20 ==>
                  var typeOk := buf[0] as int * 256 + buf[1] as int == messageType;
                  var cookieOk := buf[4] == 0x21 && buf[5] == 0x12 && buf[6] == 0xA4 && buf[7] == 0x42;
                  && (r == Err(WrongType) <==> !typeOk)
                  && (r == Err(WrongCookie) <==> typeOk && !cookieOk)
                  && (r == Err(WrongTransaction) <==> typeOk && cookieOk && buf[8..20] != txid))
  {
    if |buf| >= 20 {
      var w := buf[4..8];
      assert w[0] == buf[4] && w[1] == buf[5] && w[2] == buf[6] && w[3] == buf[7];
    }
  }

  lemma HeaderFields(buf: seq<byte>, messageType: u16, length: u16, txid: seq<byte>)
    requires |txid| == TXID_LEN && Header(messageType, length, txid) <= buf
    ensures U16(buf[0], buf[1]) == messageType && buf[4..8] == MAGIC_COOKIE && buf[8..20] == txid
  {
    var h := Header(messageType, length, txid);
    assert buf[..20] == h;
    assert h[0] == Be16(messageType)[0] && h[1] == Be16(messageType)[1];
    assert h[4..8] == MAGIC_COOKIE && h[8..20] == txid;
    assert buf[4..8] == h[4..8] && buf[8..20] == h[8..20];
  }

  lemma HeaderTail(messageType: u16, length: u16, txid: seq<byte>)
    requires |txid| == TXID_LEN
    ensures Header(messageType, length, txid)[4..20] == MAGIC_COOKIE + txid
  {
  }

  /** The loop body of `start_stun_ok` for a datagram of `n` bytes in `buf`: the reply, if any. */
  method Respond(buf: array<byte>, n: nat) returns (reply: Option<seq<byte>>)
    requires n <= buf.Length == SERVER_BUF
    modifies buf
    ensures reply.Some? <==> n >= HEADER_LEN
    ensures reply.Some? ==> reply.value == Reply(old(buf[..n]))
    ensures forall i | 0 <= i < buf.Length && (i >= 4 || n < HEADER_LEN) :: buf[i] == old(buf[i])
  {
    ghost var before := buf[..];
    if n >= HEADER_LEN {
      buf[0] := 0x01;
      buf[1] := 0x01;
      buf[2] := 0x00;
      buf[3] := 0x00;
      reply := Some(buf[..20]);
      Overwritten(before, reply.value, n);
      return;
    }
    return None;
  }

  /** The first four bytes of a received datagram replaced by type and length. */
  lemma Overwritten(before: seq<byte>, sent: seq<byte>, n: nat)
    requires HEADER_LEN <= n <= |before| && |sent| == HEADER_LEN
    requires sent[0] == 0x01 && sent[1] == 0x01 && sent[2] == 0x00 && sent[3] == 0x00
    requires forall i | 4 <= i < HEADER_LEN :: sent[i] == before[i]
    ensures sent == Reply(before[..n])
  {
    SuccessHead(sent);
    SameTwenty(before, sent);
    InPrefix(before, 4, 20, n);
  }

  lemma SuccessHead(s: seq<byte>)
    requires |s| >= 4 && s[0] == 0x01 && s[1] == 0x01 && s[2] == 0x00 && s[3] == 0x00
    ensures s[..4] == Be16(BINDING_SUCCESS) + Be16(0)
  {
    WordBytes(BINDING_SUCCESS, 0x01, 0x01);
    WordBytes(0, 0x00, 0x00);
    FourBytes(s);
  }

  lemma WordBytes(n: u16, hi: byte, lo: byte)
    requires n == hi * 256 + lo
    ensures Be16(n) == [hi, lo]
  {
  }

  lemma FourBytes(s: seq<byte>)
    requires |s| >= 4
    ensures s[..4] == [s[0], s[1]] + [s[2], s[3]]
  {
  }

  lemma SameTwenty(before: seq<byte>, sent: seq<byte>)
    requires |sent| == HEADER_LEN <= |before| && forall i | 4 <= i < HEADER_LEN :: sent[i] == before[i]
    ensures sent == sent[..4] + before[4..20]
  {
  }

  function Reply(request: seq<byte>): (reply: seq<byte>)
    requires |request| >= HEADER_LEN
  {
    Be16(BINDING_SUCCESS) + Be16(0) + request[4..20]
  }

  lemma ReplyIsHeader(txid: seq<byte>)
    requires |txid| == TXID_LEN
    ensures Reply(Header(BINDING_REQUEST, 0, txid)) == Header(BINDING_SUCCESS, 0, txid)
  {
    HeaderTail(BINDING_REQUEST, 0, txid);
    Associative(Be16(BINDING_SUCCESS) + Be16(0), MAGIC_COOKIE, txid);
  }

  /** The reply to a request fits the client's buffer; it is accepted by the client that sent the
      request and by no other: a client waiting for another transaction refuses it. */
  lemma ReplyAcceptedIff(txid: seq<byte>, expected: seq<byte>)
    requires |txid| == |expected| == TXID_LEN
    ensures |Reply(Header(BINDING_REQUEST, 0, txid))| <= CLIENT_BUF
    ensures ValidateHeader(Reply(Header(BINDING_REQUEST, 0, txid)), BINDING_SUCCESS, expected).Ok? <==> txid == expected
  {
    ReplyIsHeader(txid);
    HeaderFields(Header(BINDING_SUCCESS, 0, txid), BINDING_SUCCESS, 0, txid);
  }
}
