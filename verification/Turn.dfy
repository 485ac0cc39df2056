/** TURN (RFC 5766): zpinger's walk over the attributes of an Allocate error response, and testserver's
    TURN responder. */
module Turn {
  import opened Bytes
  import opened Stun

  const ALLOCATE_REQUEST: u16 := 0x0003
  const ALLOCATE_ERROR: u16 := 0x0113
  const ATTR_ERROR_CODE: u16 := 0x0009
  const ATTR_REQUESTED_TRANSPORT: u16 := 0x0019
  const REQUESTED_TRANSPORT_UDP: byte := 17
  const REPLY_LEN := 28

  // ---- The attribute grammar (RFC 5389 section 15) -----------------------------------------------

  // A value whose length fits the 16-bit length field.
  type Value = v: seq<byte> | |v| < 0x1_0000

  // An attribute with the bytes that pad it to a multiple of four.
  datatype Attribute = Attribute(typ: u16, value: Value, pad: seq<byte>)

  function PadLen(n: nat): (p: nat)
    ensures p < 4 && (n + p) % 4 == 0
  {
    (4 - n % 4) % 4
  }

  predicate WellPadded(a: Attribute)
  {
    |a.pad| == PadLen(|a.value|)
  }

  function Encode(a: Attribute): (s: seq<byte>)
    ensures |s| == 4 + |a.value| + |a.pad|
  {
    Be16(a.typ) + Be16(|a.value|) + (a.value + a.pad)
  }

  function EncodeAll(list: seq<Attribute>): (s: seq<byte>)
  {
    if list == [] then [] else Encode(list[0]) + EncodeAll(list[1..])
  }

  datatype WalkError = Overrun | ErrorCodeTooShort

  type Found = Result<Option<nat>, WalkError>

  /** The code carried by an ERROR-CODE value (RFC 5389 section 15.6). */
  function ErrorCode(value: seq<byte>): (r: Found)
  {
    if |value| < 4 then Err(ErrorCodeTooShort)
    else
      var code: nat := (value[2] as int) % 8 * 100 + value[3] as int;
      Ok(Some(code))
  }

  /** What a list of attributes says: the code of its first ERROR-CODE. */
  function FirstErrorCode(list: seq<Attribute>): (r: Found)
  {
    if list == [] then Ok(None)
    else if list[0].typ == ATTR_ERROR_CODE then ErrorCode(list[0].value)
    else FirstErrorCode(list[1..])
  }

  // ---- The walk ----------------------------------------------------------------------------------

  /** The walk over arbitrary bytes. */
  function Walk(body: seq<byte>): (r: Found)
    decreases |body|
  {
    if |body| < 4 then Ok(None)
    else
      var n := U16(body[2], body[3]);
      if |body| < 4 + n then Err(Overrun)
      else if U16(body[0], body[1]) == ATTR_ERROR_CODE then ErrorCode(body[4..4 + n])
      else if |body| < 4 + n + PadLen(n) then Ok(None)
      else Walk(body[4 + n + PadLen(n)..])
  }

  function DivCeil(a: nat, b: nat): (q: nat)
    requires b > 0
  {
    (a + b - 1) / b
  }

  lemma PaddedLength(n: nat)
    ensures DivCeil(4 + n, 4) * 4 == 4 + n + PadLen(n)
  {
  }

  /** `find_error_code`. The body shrinks by a positive multiple of four each round. */
  method FindErrorCode(bytes: seq<byte>) returns (r: Found)
    ensures r == Walk(bytes)
  {
    var body := bytes;
    ghost var words: nat := 0;
    while |body| >= 4
      invariant Walk(body) == Walk(bytes)
      invariant |body| + 4 * words == |bytes|
      decreases |body|
    {
      var attrType := U16(body[0], body[1]);
      var attrLen := U16(body[2], body[3]);
      var total: nat := 4 + attrLen as int;
      var padded := DivCeil(total, 4) * 4;
      PaddedLength(attrLen);
      if |body| < total {
        return Err(Overrun);
      }
      if attrType == ATTR_ERROR_CODE {
        if attrLen < 4 {
          return Err(ErrorCodeTooShort);
        }
        var class_: nat := body[4 + 2] % 8;
        var number: nat := body[4 + 3];
        return Ok(Some(class_ * 100 + number));
      }
      if |body| < padded {
        break;
      }
      words := words + DivCeil(total, 4);
      body := body[padded..];
    }
    return Ok(None);
  }

  lemma EncodeFields(a: Attribute, rest: seq<byte>)
    ensures var s := Encode(a) + rest;
            && U16(s[0], s[1]) == a.typ && U16(s[2], s[3]) == |a.value|
            && s[4..4 + |a.value|] == a.value
            && s[4 + |a.value| + |a.pad|..] == rest
  {
    var s := Encode(a) + rest;
    assert s[0] == Be16(a.typ)[0] && s[1] == Be16(a.typ)[1];
    assert s[2] == Be16(|a.value|)[0] && s[3] == Be16(|a.value|)[1];
  }

  lemma WalkOne(a: Attribute, rest: seq<byte>)
    requires WellPadded(a)
    ensures Walk(Encode(a) + rest) == if a.typ == ATTR_ERROR_CODE then ErrorCode(a.value) else Walk(rest)
  {
    EncodeFields(a, rest);
  }

  /** On the encoding of any list of attributes, with any padding bytes and whatever follows, the walk
      finds what the list says, and only if that is nothing goes on to what follows. */
  lemma {:induction false} WalkList(list: seq<Attribute>, rest: seq<byte>)
    requires forall a | a in list :: WellPadded(a)
    ensures Walk(EncodeAll(list) + rest)
         == if FirstErrorCode(list) == Ok(None) then Walk(rest) else FirstErrorCode(list)
    decreases |list|
  {
    if list == [] {
      assert EncodeAll(list) + rest == rest;
    } else {
      Associative(Encode(list[0]), EncodeAll(list[1..]), rest);
      WalkOne(list[0], EncodeAll(list[1..]) + rest);
      WalkList(list[1..], rest);
    }
  }

  /** The same when the padding of the last attribute is left out, wholly or in part. */
  lemma WalkUnpaddedEnd(list: seq<Attribute>, last: Attribute)
    requires forall a | a in list :: WellPadded(a)
    requires |last.pad| <= PadLen(|last.value|)
    ensures Walk(EncodeAll(list) + Encode(last)) == FirstErrorCode(list + [last])
  {
    WalkList(list, Encode(last));
    EncodeFields(last, []);
    assert Encode(last) + [] == Encode(last);
    FirstOfAppended(list, last);
  }

  lemma {:induction false} FirstOfAppended(list: seq<Attribute>, last: Attribute)
    ensures FirstErrorCode(list + [last])
         == if FirstErrorCode(list) != Ok(None) then FirstErrorCode(list)
            else if last.typ == ATTR_ERROR_CODE then ErrorCode(last.value) else Ok(None)
    decreases |list|
  {
    if list == [] {
      assert [last][1..] == [];
    } else {
      assert (list + [last])[1..] == list[1..] + [last];
      FirstOfAppended(list[1..], last);
    }
  }

  /** The padded attributes before the first ERROR-CODE, and what is left. */
  function Skipped(body: seq<byte>): (r: (seq<Attribute>, seq<byte>))
    decreases |body|
  {
    if |body| < 4 then ([], body)
    else
      var n := U16(body[2], body[3]);
      var next := 4 + n + PadLen(n);
      if U16(body[0], body[1]) == ATTR_ERROR_CODE || |body| < next then ([], body)
      else
        var (list, tail) := Skipped(body[next..]);
        ([Attribute(U16(body[0], body[1]), body[4..4 + n], body[4 + n..next])] + list, tail)
  }

  lemma SkipOne(body: seq<byte>)
    requires |body| >= 4 && |body| >= 4 + U16(body[2], body[3]) + PadLen(U16(body[2], body[3]))
    ensures var n := U16(body[2], body[3]);
            var next := 4 + n + PadLen(n);
            var a := Attribute(U16(body[0], body[1]), body[4..4 + n], body[4 + n..next]);
            WellPadded(a) && body == Encode(a) + body[next..]
  {
    var n := U16(body[2], body[3]);
    var next := 4 + n + PadLen(n);
    EncodedAt(body, body[4..4 + n], body[4 + n..next], body[next..]);
  }

  lemma EncodedAt(body: seq<byte>, value: Value, pad: seq<byte>, rest: seq<byte>)
    requires |body| >= 4 && U16(body[2], body[3]) == |value|
    requires body[4..] == value + pad + rest
    ensures body == Encode(Attribute(U16(body[0], body[1]), value, pad)) + rest
  {
    var head := Be16(U16(body[0], body[1])) + Be16(|value|);
    assert body[..4] == head;
    Associative(head, value + pad, rest);
    assert body == body[..4] + body[4..];
  }

  /** Any bytes are such a list, without an ERROR-CODE, followed by the rest the walk decides on. */
  lemma {:induction false} SkippedIsPrefix(body: seq<byte>)
    ensures var (list, tail) := Skipped(body);
            && (forall a | a in list :: WellPadded(a) && a.typ != ATTR_ERROR_CODE)
            && EncodeAll(list) + tail == body
            && Walk(body) == Walk(tail)
            && Skipped(tail) == ([], tail)
    decreases |body|
  {
    var (list, tail) := Skipped(body);
    if list != [] {
      var n := U16(body[2], body[3]);
      var next := 4 + n + PadLen(n);
      SkippedIsPrefix(body[next..]);
      SkipOne(body);
      assert list[1..] == Skipped(body[next..]).0;
      Associative(Encode(list[0]), EncodeAll(list[1..]), tail);
    } else {
      assert EncodeAll([]) + body == body;
    }
  }

  /** A code is found exactly in the bytes that have the shape the grammar gives: padded attributes of
      other types, then an ERROR-CODE attribute of at least four bytes carrying that code. */
  ghost predicate Carries(body: seq<byte>, code: nat)
  {
    exists list: seq<Attribute>, a: Attribute, rest: seq<byte> :: CarriesAt(body, code, list, a, rest)
  }

  ghost predicate CarriesAt(body: seq<byte>, code: nat, list: seq<Attribute>, a: Attribute, rest: seq<byte>)
  {
    && (forall x | x in list :: WellPadded(x) && x.typ != ATTR_ERROR_CODE)
    && a.typ == ATTR_ERROR_CODE && a.pad == [] && ErrorCode(a.value) == Ok(Some(code))
    && body == EncodeAll(list) + (Encode(a) + rest)
  }

  lemma FoundIff(body: seq<byte>, code: nat)
    ensures Walk(body) == Ok(Some(code)) <==> Carries(body, code)
  {
    if Walk(body) == Ok(Some(code)) {
      FoundIsCarried(body, code);
    }
    if Carries(body, code) {
      var list: seq<Attribute>, a: Attribute, rest: seq<byte> :| CarriesAt(body, code, list, a, rest);
      WalkList(list, Encode(a) + rest);
      NoneInList(list);
      EncodeFields(a, rest);
    }
  }

  lemma AttributeAt(s: seq<byte>, n: nat)
    requires |s| >= 4 + n && U16(s[2], s[3]) == n
    ensures s == Encode(Attribute(U16(s[0], s[1]), s[4..4 + n], [])) + s[4 + n..]
  {
    assert s[4..] == s[4..4 + n] + [] + s[4 + n..];
    EncodedAt(s, s[4..4 + n], [], s[4 + n..]);
  }

  lemma FoundIsCarried(body: seq<byte>, code: nat)
    requires Walk(body) == Ok(Some(code))
    ensures Carries(body, code)
  {
    SkippedIsPrefix(body);
    var (list, tail) := Skipped(body);
    var n := U16(tail[2], tail[3]);
    var a, rest := Attribute(ATTR_ERROR_CODE, tail[4..4 + n], []), tail[4 + n..];
    AttributeAt(tail, n);
    assert CarriesAt(body, code, list, a, rest);
  }

  lemma {:induction false} NoneInList(list: seq<Attribute>)
    requires forall a | a in list :: a.typ != ATTR_ERROR_CODE
    ensures FirstErrorCode(list) == Ok(None)
  {
    if list != [] {
      NoneInList(list[1..]);
    }
  }

  /** The walk runs over the end exactly at an attribute that announces more bytes than are left. */
  lemma OverrunIff(body: seq<byte>)
    ensures Walk(body) == Err(Overrun)
       <==> exists list: seq<Attribute>, tail: seq<byte> :: Overruns(body, list, tail)
  {
    if Walk(body) == Err(Overrun) {
      SkippedIsPrefix(body);
      var (list, tail) := Skipped(body);
      assert Overruns(body, list, tail);
    }
    if list: seq<Attribute>, tail: seq<byte> :| Overruns(body, list, tail) {
      WalkList(list, tail);
      NoneInList(list);
    }
  }

  ghost predicate Overruns(body: seq<byte>, list: seq<Attribute>, tail: seq<byte>)
  {
    && (forall x | x in list :: WellPadded(x) && x.typ != 0x0009)
    && body == EncodeAll(list) + tail && |tail| >= 4 && |tail| < 4 + tail[2] as int * 256 + tail[3] as int
  }

  /** And it finds an ERROR-CODE that is too short exactly where there is one. */
  lemma TooShortIff(body: seq<byte>)
    ensures Walk(body) == Err(ErrorCodeTooShort)
       <==> exists list: seq<Attribute>, a: Attribute, rest: seq<byte> :: ShortAt(body, list, a, rest)
  {
    if Walk(body) == Err(ErrorCodeTooShort) {
      ShortIsThere(body);
    }
    if list: seq<Attribute>, a: Attribute, rest: seq<byte> :| ShortAt(body, list, a, rest) {
      WalkList(list, Encode(a) + rest);
      NoneInList(list);
      EncodeFields(a, rest);
    }
  }

  ghost predicate ShortAt(body: seq<byte>, list: seq<Attribute>, a: Attribute, rest: seq<byte>)
  {
    && (forall x | x in list :: WellPadded(x) && x.typ != 0x0009)
    && a.typ == 0x0009 && a.pad == [] && |a.value| < 4 && body == EncodeAll(list) + (Encode(a) + rest)
  }

  lemma ShortIsThere(body: seq<byte>)
    requires Walk(body) == Err(ErrorCodeTooShort)
    ensures exists list: seq<Attribute>, a: Attribute, rest: seq<byte> :: ShortAt(body, list, a, rest)
  {
    SkippedIsPrefix(body);
    var (list, tail) := Skipped(body);
    var n := U16(tail[2], tail[3]);
    var a, rest := Attribute(ATTR_ERROR_CODE, tail[4..4 + n], []), tail[4 + n..];
    AttributeAt(tail, n);
    assert ShortAt(body, list, a, rest);
  }

  /** A code gives back its class and number exactly when the number is below 100, as RFC 5389 demands;
      without that, 401 can be spelled in three ways. */
  lemma CodeRoundTrip(value: seq<byte>)
    requires |value| >= 4
    ensures var r := ErrorCode(value);
            && r.Ok? && r.value.Some?
            && (r.value.value / 100 == value[2] % 8 && r.value.value % 100 == value[3] <==> value[3] < 100)
    ensures ErrorCode(value) == Ok(Some(401))
       <==> (value[2] % 8, value[3]) in {(4, 1), (3, 101), (2, 201)}
  {
  }

  // ---- The exchange ------------------------------------------------------------------------------

  function RequestedTransport(): (s: seq<byte>)
  {
    Encode(Attribute(ATTR_REQUESTED_TRANSPORT, [REQUESTED_TRANSPORT_UDP, 0, 0, 0], []))
  }

  lemma TransportBytes(s: seq<byte>)
    requires |s| == 8 && s[..5] == Be16(ATTR_REQUESTED_TRANSPORT) + Be16(4) + [REQUESTED_TRANSPORT_UDP]
    requires s[5] == 0 && s[6] == 0 && s[7] == 0
    ensures s == RequestedTransport()
  {
    var a := Attribute(ATTR_REQUESTED_TRANSPORT, [REQUESTED_TRANSPORT_UDP, 0, 0, 0], []);
    var head := Be16(ATTR_REQUESTED_TRANSPORT) + Be16(4);
    assert a.value + a.pad == a.value && Encode(a) == head + a.value;
    assert s[4] == s[..5][4];
    assert s[4..] == a.value;
    InPrefix(s, 0, 4, 5);
    assert s[..4] == s[..5][..4] == head;
    assert s == s[..4] + s[4..];
  }

  /** The Allocate request in numbers (RFC 5766 sections 13 and 14.7): type 3, one attribute of type 25
      asking for UDP, which is protocol 17. */
  lemma RequestInNumbers(txid: seq<byte>)
    ensures RequestedTransport() == [0x00, 0x19, 0x00, 0x04, 17, 0, 0, 0]
    ensures Header(ALLOCATE_REQUEST, |RequestedTransport()|, txid)
         == [0x00, 0x03, 0x00, 0x08, 0x21, 0x12, 0xA4, 0x42] + txid
  {
    var a := Attribute(ATTR_REQUESTED_TRANSPORT, [REQUESTED_TRANSPORT_UDP, 0, 0, 0], []);
    WordBytes(ATTR_REQUESTED_TRANSPORT, 0x00, 0x19);
    WordBytes(4, 0, 4);
    WordBytes(0x0003, 0x00, 0x03);
    WordBytes(8, 0, 8);
    PlusNothing(a.value);
    HeaderInNumbers(ALLOCATE_REQUEST, 8, txid);
  }

  /** `build_requested_transport_attribute`. */
  method BuildRequestedTransport() returns (attr: array<byte>)
    ensures fresh(attr) && attr[..] == RequestedTransport()
  {
    attr := new byte[8](_ => 0);
    CopyInto(attr, 0, Be16(ATTR_REQUESTED_TRANSPORT));
    CopyInto(attr, 2, Be16(4));
    CopyInto(attr, 4, [REQUESTED_TRANSPORT_UDP]);
    assert attr[..5] == Be16(ATTR_REQUESTED_TRANSPORT) + Be16(4) + [REQUESTED_TRANSPORT_UDP];
    TransportBytes(attr[..]);
  }

  datatype ResponseError = BadHeader(e: HeaderError) | BadBody(w: WalkError) | OtherCode(code: nat) | NoErrorCode

  /** `validate_allocate_error_response`. */
  function ValidateResponse(buf: seq<byte>, expectedTxid: seq<byte>): (r: Result<(), ResponseError>)
  {
    match ValidateHeader(buf, ALLOCATE_ERROR, expectedTxid)
    case Err(e) => Err(BadHeader(e))
    case Ok(_) =>
      match Walk(buf[HEADER_LEN..])
      case Err(w) => Err(BadBody(w))
      case Ok(None) => Err(NoErrorCode)
      case Ok(Some(code)) => if code == 401 then Ok(()) else Err(OtherCode(code))
  }

  /** Each refusal: of the header first, then of the walk, then of what was found. */
  lemma RefusalsIff(buf: seq<byte>, txid: seq<byte>, code: nat)
    ensures var r, header := ValidateResponse(buf, txid), ValidateHeader(buf, 0x0113, txid);
            && (header.Err? ==> r == Err(BadHeader(header.error)))
            && (header.Ok? ==>
                  var found := Walk(buf[20..]);
                  && (found.Err? ==> r == Err(BadBody(found.error)))
                  && (r == Err(NoErrorCode) <==> found == Ok(None))
                  && (r == Err(OtherCode(code)) <==> found == Ok(Some(code)) && code != 401))
  {
  }

  /** Accepted are exactly the messages with the right header whose first ERROR-CODE says 401. */
  lemma AcceptedIff(buf: seq<byte>, txid: seq<byte>)
    requires |txid| == TXID_LEN
    ensures ValidateResponse(buf, txid).Ok?
       <==> (exists length: u16 :: Header(ALLOCATE_ERROR, length, txid) <= buf) && Carries(buf[HEADER_LEN..], 401)
  {
    Stun.AcceptedIff(buf, ALLOCATE_ERROR, txid);
    if |buf| >= HEADER_LEN {
      FoundIff(buf[HEADER_LEN..], 401);
    }
  }

  /** The loop body of `start_turn_ok` for a datagram of `n` bytes in `buf`: the reply, if any. */
  method Respond(buf: array<byte>, n: nat) returns (reply: Option<seq<byte>>)
    requires n <= buf.Length == SERVER_BUF
    ensures reply.Some? <==> n >= HEADER_LEN
    ensures reply.Some? ==> reply.value == Reply(buf[..n])
  {
    if n < HEADER_LEN {
      return None;
    }
    var resp := new byte[REPLY_LEN](_ => 0);
    CopyInto(resp, 0, [0x01, 0x13, 0x00, 0x08]);
    ghost var written := [] + [0x01, 0x13, 0x00, 0x08];
    CopyInto(resp, 4, buf[4..20]);
    written := written + buf[4..20];
    CopyInto(resp, 20, [0x00, 0x09, 0x00, 0x04]);
    written := written + [0x00, 0x09, 0x00, 0x04];
    CopyInto(resp, 24, [0x00, 0x00, 0x04, 0x01]);
    written := written + [0x00, 0x00, 0x04, 0x01];
    assert resp[..28] == written && resp[..28] == resp[..];
    InPrefix(buf[..], 4, 20, n);
    ReplyBytes(buf[..n]);
    assert resp[..] == Reply(buf[..n]);
    return Some(resp[..]);
  }

  function ErrorAttribute(): (s: seq<byte>)
  {
    Encode(Attribute(ATTR_ERROR_CODE, [0, 0, 4, 1], []))
  }

  function Reply(request: seq<byte>): (reply: seq<byte>)
    requires |request| >= HEADER_LEN
  {
    Be16(ALLOCATE_ERROR) + Be16(8) + request[4..20] + ErrorAttribute()
  }

  lemma ReplyBytes(request: seq<byte>)
    requires |request| >= HEADER_LEN
    ensures Reply(request)
         == [0x01, 0x13, 0x00, 0x08] + request[4..20] + [0x00, 0x09, 0x00, 0x04] + [0x00, 0x00, 0x04, 0x01]
  {
    var a := Attribute(ATTR_ERROR_CODE, [0, 0, 4, 1], []);
    assert a.value + a.pad == a.value;
    Associative([0x01, 0x13, 0x00, 0x08] + request[4..20], [0x00, 0x09, 0x00, 0x04], [0x00, 0x00, 0x04, 0x01]);
  }

  lemma ReplyIsHeader(txid: seq<byte>)
    requires |txid| == TXID_LEN
    ensures Reply(Header(ALLOCATE_REQUEST, |RequestedTransport()|, txid) + RequestedTransport())
         == Header(ALLOCATE_ERROR, 8, txid) + ErrorAttribute()
  {
    var header := Header(ALLOCATE_REQUEST, |RequestedTransport()|, txid);
    HeaderTail(ALLOCATE_REQUEST, |RequestedTransport()|, txid);
    assert (header + RequestedTransport())[4..20] == header[4..20];
    Associative(Be16(ALLOCATE_ERROR) + Be16(8), MAGIC_COOKIE, txid);
  }

  /** The reply to the client's request fits its buffer and is accepted by the client that sent it, and
      by no other. */
  lemma ReplyAcceptedIff(txid: seq<byte>, expected: seq<byte>)
    requires |txid| == |expected| == TXID_LEN
    ensures var reply := Reply(Header(ALLOCATE_REQUEST, |RequestedTransport()|, txid) + RequestedTransport());
            |reply| == REPLY_LEN <= CLIENT_BUF && (ValidateResponse(reply, expected).Ok? <==> txid == expected)
  {
    ReplyIsHeader(txid);
    ErrorReplyAcceptedIff(txid, expected);
  }

  lemma ErrorAttributeSays401()
    ensures Walk(ErrorAttribute()) == Ok(Some(401))
  {
    var a := Attribute(ATTR_ERROR_CODE, [0, 0, 4, 1], []);
    WalkOne(a, []);
    assert Encode(a) + [] == Encode(a);
  }

  lemma ErrorReplyAcceptedIff(txid: seq<byte>, expected: seq<byte>)
    requires |txid| == |expected| == TXID_LEN
    ensures ValidateResponse(Header(ALLOCATE_ERROR, 8, txid) + ErrorAttribute(), expected).Ok? <==> txid == expected
  {
    var header := Header(ALLOCATE_ERROR, 8, txid);
    HeaderFields(header + ErrorAttribute(), ALLOCATE_ERROR, 8, txid);
    DropAppend(header, ErrorAttribute());
    ErrorAttributeSays401();
  }
}
