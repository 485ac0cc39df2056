/** zpinger's MQTT client: the CONNECT packet, the packet reader and the ping session. */
module MqttClient {
  import opened Bytes
  import opened Streams
  import opened Varint
  import opened MqttFrame
  import opened Duplex

  datatype Version = V3_1_1 | V5 {
    function ProtocolLevel(): (level: byte)
    {
      match this
      case V3_1_1 => 4
      case V5 => 5
    }
  }

  const PROTOCOL_NAME: seq<byte> := [0x4D, 0x51, 0x54, 0x54] // "MQTT"
  const FLAGS_CLEAN_SESSION: byte := 0x02

  // ---- CONNECT ---------------------------------------------------------------------------------

  /** The body of a CONNECT packet; the client id length is cut to 16 bits (`as u16`). */
  function ConnectBody(clientId: seq<byte>, keepalive: u16, version: Version): (body: seq<byte>)
    ensures |body| == |clientId| + (if version.V5? then 13 else 12)
  {
    Be16(4) + PROTOCOL_NAME + AfterName(clientId, keepalive, version)
  }

  function AfterName(clientId: seq<byte>, keepalive: u16, version: Version): (rest: seq<byte>)
  {
    [version.ProtocolLevel(), FLAGS_CLEAN_SESSION] + Be16(keepalive)
    + (if version.V5? then [0x00] else []) + (Be16(|clientId| % 0x1_0000) + clientId)
  }

  function ConnectPacket(clientId: seq<byte>, keepalive: u16, version: Version): (p: Packet)
  {
    Packet(TYPE_CONNECT, ConnectBody(clientId, keepalive, version))
  }

  /** `build_connect`. */
  method BuildConnect(clientId: seq<byte>, keepalive: u16, version: Version) returns (packet: seq<byte>)
    ensures packet == Encode(ConnectPacket(clientId, keepalive, version))
  {
    var variableHeader := Be16(|PROTOCOL_NAME|);
    variableHeader := variableHeader + PROTOCOL_NAME;
    variableHeader := variableHeader + [version.ProtocolLevel()];
    variableHeader := variableHeader + [FLAGS_CLEAN_SESSION];
    variableHeader := variableHeader + Be16(keepalive);
    if version == V5 {
      variableHeader := variableHeader + [0x00];
    }

    var payload := Be16(|clientId| % 0x1_0000);
    payload := payload + clientId;

    var bodyLen := |variableHeader| + |payload|;
    var remaining := EncodeVarint(bodyLen);

    ConnectParts(clientId, keepalive, version);
    packet := [TYPE_CONNECT];
    packet := packet + remaining;
    Associative(packet, variableHeader, payload);
    packet := packet + variableHeader;
    packet := packet + payload;
  }

  lemma ConnectParts(clientId: seq<byte>, keepalive: u16, version: Version)
    ensures var fixed := Be16(4) + PROTOCOL_NAME + [version.ProtocolLevel()] + [FLAGS_CLEAN_SESSION] + Be16(keepalive);
            (if version.V5? then fixed + [0x00] else fixed) + (Be16(|clientId| % 0x1_0000) + clientId)
            == ConnectBody(clientId, keepalive, version)
  {
  }

  /** The CONNECT body in numbers: the name MQTT, the protocol level, the flag for a clean session and no
      other, the keepalive, in MQTT 5.0 an empty property list, and the client id behind its length. */
  lemma ConnectInNumbers(clientId: seq<byte>, keepalive: u16, version: Version)
    requires |clientId| < 0x1_0000
    ensures ConnectPacket(clientId, keepalive, version).typ == 0x10
    ensures ConnectBody(clientId, keepalive, version)
         == [0x00, 0x04, 0x4D, 0x51, 0x54, 0x54, if version == V5 then 5 else 4, 0x02, keepalive / 256, keepalive % 256]
            + (if version == V5 then [0x00] else []) + [|clientId| / 256, |clientId| % 256] + clientId
  {
    var n: u16 := |clientId|;
    assert n % 0x1_0000 == n;
    Fixed(keepalive, version);
    Associative([version.ProtocolLevel(), FLAGS_CLEAN_SESSION] + Be16(keepalive), if version == V5 then [0x00] else [],
                Be16(n) + clientId);
    BodyInParts(clientId, keepalive, version);
  }

  function FixedPart(keepalive: u16, version: Version): (s: seq<byte>)
  {
    Be16(4) + PROTOCOL_NAME + ([version.ProtocolLevel(), FLAGS_CLEAN_SESSION] + Be16(keepalive))
  }

  lemma Fixed(keepalive: u16, version: Version)
    ensures FixedPart(keepalive, version)
         == [0x00, 0x04, 0x4D, 0x51, 0x54, 0x54, if version == V5 then 5 else 4, 0x02, keepalive / 256, keepalive % 256]
  {
  }

  lemma BodyInParts(clientId: seq<byte>, keepalive: u16, version: Version)
    ensures ConnectBody(clientId, keepalive, version)
         == FixedPart(keepalive, version) + (if version == V5 then [0x00] else [])
            + Be16(|clientId| % 0x1_0000) + clientId
  {
  }

  // The fields of a CONNECT packet as MQTT 3.1.1 section 3.1 and MQTT 5.0 section 3.1 lay them out,
  // for a packet with neither will, user name, password nor (in MQTT 5.0) properties.
  datatype Connect = Connect(level: byte, flags: byte, keepalive: u16, clientId: seq<byte>)

  /** A length-prefixed string at the start of `s`, and what follows it. */
  function ParseString(s: seq<byte>): (r: Option<(seq<byte>, seq<byte>)>)
  {
    if |s| < 2 || |s| < 2 + U16(s[0], s[1]) then None
    else Some((s[2..2 + U16(s[0], s[1])], s[2 + U16(s[0], s[1])..]))
  }

  /** The specification's grammar of a CONNECT body; it must be consumed to the last byte. */
  function ParseConnect(body: seq<byte>): (r: Option<Connect>)
  {
    match ParseString(body)
    case None => None
    case Some((name, rest)) => if name == PROTOCOL_NAME then ParseFields(rest) else None
  }

  function ParseFields(rest: seq<byte>): (r: Option<Connect>)
  {
    if |rest| < 4 || (rest[0] != 4 && rest[0] != 5) then None
    else if rest[0] == 5 && (|rest| < 5 || rest[4] != 0) then None
    else
      match ParseString(rest[if rest[0] == 5 then 5 else 4..])
      case None => None
      case Some((id, tail)) =>
        if tail == [] then Some(Connect(rest[0], rest[1], U16(rest[2], rest[3]), id)) else None
  }

  lemma ParsePrefix(n: u16, text: seq<byte>)
    requires n <= |text|
    ensures ParseString(Be16(n) + text) == Some((text[..n], text[n..]))
  {
    var s := Be16(n) + text;
    assert s[0] == Be16(n)[0] && s[1] == Be16(n)[1];
    assert s[2..2 + n] == text[..n] && s[2 + n..] == text[n..];
  }

  /** A server following the specification reads back what the client put in, for exactly the client
      ids whose length fits the 16-bit prefix; it rejects every longer one. */
  lemma ConnectRoundTrip(clientId: seq<byte>, keepalive: u16, version: Version)
    ensures ParseConnect(ConnectBody(clientId, keepalive, version))
         == if |clientId| < 0x1_0000
            then Some(Connect(version.ProtocolLevel(), FLAGS_CLEAN_SESSION, keepalive, clientId))
            else None
  {
    var rest := AfterName(clientId, keepalive, version);
    ParsePrefix(4, PROTOCOL_NAME + rest);
    DropAppend(PROTOCOL_NAME, rest);
    Associative(Be16(4), PROTOCOL_NAME, rest);
    FieldsRoundTrip(clientId, keepalive, version);
  }

  lemma FieldsRoundTrip(clientId: seq<byte>, keepalive: u16, version: Version)
    ensures ParseFields(AfterName(clientId, keepalive, version))
         == if |clientId| < 0x1_0000
            then Some(Connect(version.ProtocolLevel(), FLAGS_CLEAN_SESSION, keepalive, clientId))
            else None
  {
    var id := Be16(|clientId| % 0x1_0000) + clientId;
    var rest := AfterName(clientId, keepalive, version);
    FieldsAt(clientId, keepalive, version);
    IdRoundTrip(clientId);
    assert rest[if rest[0] == 5 then 5 else 4..] == id;
  }

  lemma FieldsAt(clientId: seq<byte>, keepalive: u16, version: Version)
    ensures var rest := AfterName(clientId, keepalive, version);
            && |rest| >= (if version.V5? then 5 else 4)
            && rest[0] == version.ProtocolLevel() && rest[1] == FLAGS_CLEAN_SESSION
            && U16(rest[2], rest[3]) == keepalive && (version.V5? ==> rest[4] == 0)
            && rest[if version.V5? then 5 else 4..] == Be16(|clientId| % 0x1_0000) + clientId
  {
    var rest := AfterName(clientId, keepalive, version);
    assert rest[2] == Be16(keepalive)[0] && rest[3] == Be16(keepalive)[1];
  }

  lemma IdRoundTrip(clientId: seq<byte>)
    ensures var r := ParseString(Be16(|clientId| % 0x1_0000) + clientId);
            if |clientId| < 0x1_0000 then r == Some((clientId, [])) else r.Some? && r.value.1 != []
  {
    var n: u16 := |clientId| % 0x1_0000;
    ParsePrefix(n, clientId);
    if |clientId| < 0x1_0000 {
      assert n == |clientId|;
      assert clientId[..n] == clientId;
    } else {
      assert |clientId[n..]| > 0;
    }
  }

  /** Framed, and with anything behind it, the CONNECT packet for a client id of at most 65535 bytes is
      read as one packet, and a server following the specification finds in it what was put in. */
  lemma ConnectReadBack(clientId: seq<byte>, keepalive: u16, version: Version, rest: seq<byte>)
    requires |clientId| < 0x1_0000
    ensures var p := ConnectPacket(clientId, keepalive, version);
            var f := ReadFrame(Encode(p) + rest);
            && f == Frame(p, |Encode(p)|)
            && ParseConnect(f.packet.body)
               == Some(Connect(version.ProtocolLevel(), FLAGS_CLEAN_SESSION, keepalive, clientId))
  {
    FrameRoundTrip(ConnectPacket(clientId, keepalive, version), rest);
    ConnectRoundTrip(clientId, keepalive, version);
  }

  // ---- Reading packets -------------------------------------------------------------------------

  // Where `saturating_mul` stops for a 64-bit `usize`.
  const USIZE_MAX := 0xFFFF_FFFF_FFFF_FFFF

  function SaturatingMul(a: nat, b: nat): (r: nat)
  {
    if a * b > USIZE_MAX then USIZE_MAX else a * b
  }

  /** A length in progress: what the loop has accumulated plus what the grammar still reads. */
  function Resume(acc: nat, multiplier: nat, digits: nat, r: Length): (r': Length)
  {
    match r
    case Value(n, used) => Value(acc + multiplier * n, digits + used)
    case other => other
  }

  lemma ResumeStep(acc: nat, multiplier: nat, digits: nat, s: seq<byte>)
    requires digits < MAX_DIGITS && s != []
    ensures var total := AddDigit(acc, s[0], multiplier);
            Resume(acc, multiplier, digits, ReadLength(s, MAX_DIGITS - digits)) ==
            if s[0] < 128 then Value(total, digits + 1)
            else Resume(total, multiplier * 128, digits + 1, ReadLength(s[1..], MAX_DIGITS - digits - 1))
  {
    var r := ReadLength(s[1..], MAX_DIGITS - digits - 1);
    Accumulate(acc, s[0], multiplier, if r.Value? then r.n else 0);
  }

  /** One round of the length loop, on the digit with index `i` of a packet. */
  lemma NextDigit(acc: nat, multiplier: nat, i: nat, s: seq<byte>)
    requires i < MAX_DIGITS && 1 + i < |s| && multiplier == Pow128(i) && acc < multiplier
    ensures var b := s[1 + i];
            var total := AddDigit(acc, b, multiplier);
            && total < Pow128(i + 1) <= 0x1000_0000 && multiplier * 128 == Pow128(i + 1)
            && Resume(acc, multiplier, i, ReadLength(s[1 + i..], MAX_DIGITS - i))
               == if b < 128 then Value(total, i + 1)
                  else Resume(total, multiplier * 128, i + 1, ReadLength(s[2 + i..], MAX_DIGITS - i - 1))
  {
    Pow128Values();
    DigitFits(acc, s[1 + i], multiplier);
    ResumeStep(acc, multiplier, i, s[1 + i..]);
    assert s[1 + i..][1..] == s[2 + i..];
  }

  lemma {:induction false} Monotone(a: nat, b: nat, m: nat)
    requires a <= b
    ensures a * m <= b * m
    decreases b - a
  {
    if a < b {
      Monotone(a, b - 1, m);
      assert b * m == (b - 1) * m + m;
    }
  }

  lemma DigitFits(remaining: nat, b: byte, multiplier: nat)
    requires remaining < multiplier
    ensures AddDigit(remaining, b, multiplier) < multiplier * 128
  {
    Monotone(b % 128, 127, multiplier);
  }

  /** The length loop of `read_packet`. */
  method ReadRemaining(stream: Stream, ghost before: seq<Event>, ghost s: seq<byte>)
    returns (r: Result<nat, PacketError>)
    requires s != [] && stream.HasRead(before, s, 1)
    modifies stream`input, stream`trace
    ensures r == LengthRead(s[1..], stream.AtEnd()) && stream.HasRead(before, s, 1 + LengthTaken(s[1..]))
    ensures r.Ok? ==> r.value <= 268_435_455
  {
    var multiplier: nat := 1;
    var remaining: nat := 0;
    for i := 0 to 4
      invariant 1 + i <= |s| && stream.HasRead(before, s, 1 + i)
      invariant multiplier == Pow128(i) && remaining < multiplier
      invariant ReadLength(s[1..], MAX_DIGITS)
             == Resume(remaining, multiplier, i, ReadLength(s[1 + i..], MAX_DIGITS - i))
    {
      var digit := stream.ReadByte(before, s, 1 + i);
      if digit.Err? {
        return Err(Broken(digit.error));
      }
      var b := digit.value;
      NextDigit(remaining, multiplier, i, s);
      remaining := AddDigit(remaining, b, multiplier);
      if b < 128 {
        return Ok(remaining);
      }
      multiplier := SaturatingMul(multiplier, 128);
    }
    return Err(VarintTooLong);
  }

  /** `read_packet`: reads exactly the packet at the start of the stream, whatever the pieces. */
  method ReadPacket(stream: Stream) returns (r: Result<Packet, PacketError>)
    requires stream.Valid()
    modifies stream`input, stream`trace
    ensures stream.Valid()
    ensures Reads(old(stream.input), stream.AtEnd(), r, stream.input)
    ensures stream.trace == old(stream.trace) + Ins(old(stream.input)[..Consumed(old(stream.input))])
    ensures r.Ok? ==> |r.value.body| <= 268_435_455
  {
    ghost var s := stream.input;
    ghost var before := stream.trace;
    NothingRead(before, s);
    var header := stream.ReadByte(before, s, 0);
    if header.Err? {
      ReadsShort(s, stream.AtEnd());
      return Err(Broken(header.error));
    }
    r := ReadRest(stream, header.value, before, s);
  }

  /** `read_packet` from the length on. */
  method ReadRest(stream: Stream, typ: byte, ghost before: seq<Event>, ghost s: seq<byte>)
    returns (r: Result<Packet, PacketError>)
    requires s != [] && typ == s[0] && stream.HasRead(before, s, 1)
    modifies stream`input, stream`trace
    ensures Reads(s, stream.AtEnd(), r, stream.input) && stream.HasRead(before, s, Consumed(s))
    ensures r.Ok? ==> |r.value.body| <= 268_435_455
  {
    var remaining := ReadRemaining(stream, before, s);
    if remaining.Err? {
      ReadsNoLength(s, stream.AtEnd());
      return Err(remaining.error);
    }
    var n := remaining.value;
    ghost var used := LengthTaken(s[1..]);
    var body := ReadBody(stream, n, before, s, 1 + used);
    if body.Err? {
      ReadsShort(s, stream.AtEnd());
      return Err(body.error);
    }
    ReadsPacket(s, stream.AtEnd(), n, used);
    assert |s[1 + used..1 + used + n]| == n;
    return Ok(Packet(typ, body.value));
  }

  // ---- The session -----------------------------------------------------------------------------

  predicate ValidConnack(p: Packet)
  {
    Kind(p) == TYPE_CONNACK && |p.body| >= 2 && p.body[1] == 0
  }

  predicate ValidPingresp(p: Packet)
  {
    Kind(p) == TYPE_PINGRESP && p.body == []
  }

  datatype SessionError = Io(e: IoError) | BadVarint | BadConnack | BadPingresp

  /** The stream starts with a packet accepted as CONNACK. */
  predicate StartsWithConnack(s: seq<byte>)
  {
    var f := ReadFrame(s);
    f.Frame? && ValidConnack(f.packet)
  }

  /** The stream starts with an accepted CONNACK followed by an accepted PINGRESP. */
  predicate AnswersPing(s: seq<byte>)
  {
    StartsWithConnack(s) &&
    var f := ReadFrame(s[ReadFrame(s).used..]);
    f.Frame? && ValidPingresp(f.packet)
  }

  /** The answers in numbers (MQTT 3.1.1 sections 3.2 and 3.13): a packet of type 2 with a return code of
      zero as its second byte, and then a packet of type 13 without a body, and no others. */
  lemma AnswersInNumbers(t: byte, a: seq<byte>, u: byte, b: seq<byte>, rest: seq<byte>)
    requires |a| < 0x1000_0000 && |b| < 0x1000_0000
    ensures AnswersPing(Encode(Packet(t, a)) + (Encode(Packet(u, b)) + rest))
       <==> 0x20 <= t < 0x30 && |a| >= 2 && a[1] == 0 && 0xD0 <= u < 0xE0 && b == []
  {
    var more := Encode(Packet(u, b)) + rest;
    FrameRoundTrip(Packet(t, a), more);
    FrameRoundTrip(Packet(u, b), rest);
    DropAppend(Encode(Packet(t, a)), more);
  }

  /** Everything the client would write if no write failed. */
  function Script(connect: seq<byte>, s: seq<byte>): (out: seq<byte>)
  {
    if !StartsWithConnack(s) then connect
    else if !AnswersPing(s) then connect + PINGREQ
    else connect + PINGREQ + DISCONNECT
  }

  // The client between two bytes.
  datatype ClientState =
    | SendConnect(rest: seq<byte>)
    | AwaitConnack(reader: Reader)
    | SendPingreq(rest: seq<byte>)
    | AwaitPingresp(reader: Reader)
    | SendDisconnect(rest: seq<byte>)
    | Done(ok: bool)
  {
    // `run_session` returns Ok: the outcome of the last write is ignored.
    predicate Succeeded()
    {
      SendDisconnect? || this == Done(true)
    }
  }

  function AfterConnack(r: Reader): (c: ClientState)
  {
    match r
    case Complete(p) => if ValidConnack(p) then SendPingreq(PINGREQ) else Done(false)
    case Overlong => Done(false)
    case _ => AwaitConnack(r)
  }

  function AfterPingresp(r: Reader): (c: ClientState)
  {
    match r
    case Complete(p) => if ValidPingresp(p) then SendDisconnect(DISCONNECT) else Done(false)
    case Overlong => Done(false)
    case _ => AwaitPingresp(r)
  }

  /** The client as a byte-at-a-time process. */
  function ClientStep(c: ClientState): (a: Act<ClientState>)
  {
    match c
    case SendConnect(rest) =>
      if rest == [] then Halt
      else Send(rest[0], if |rest| == 1 then AwaitConnack(Header) else SendConnect(rest[1..]))
    case AwaitConnack(r) => Receive(b => AfterConnack(Feed(r, b)))
    case SendPingreq(rest) =>
      if rest == [] then Halt
      else Send(rest[0], if |rest| == 1 then AwaitPingresp(Header) else SendPingreq(rest[1..]))
    case AwaitPingresp(r) => Receive(b => AfterPingresp(Feed(r, b)))
    case SendDisconnect(rest) =>
      if rest == [] then Halt
      else Send(rest[0], if |rest| == 1 then Done(true) else SendDisconnect(rest[1..]))
    case Done(_) => Halt
  }

  lemma PlayConnect(bs: seq<byte>, k: nat)
    requires k <= |bs| && bs != []
    ensures Play(ClientStep, SendConnect(bs), Outs(bs[..k]))
         == Some(if k == |bs| then AwaitConnack(Header) else SendConnect(bs[k..]))
  {
    PlaySend(ClientStep, rest => SendConnect(rest), AwaitConnack(Header), bs, k);
  }

  lemma PlayPingreq(bs: seq<byte>, k: nat)
    requires k <= |bs| && bs != []
    ensures Play(ClientStep, SendPingreq(bs), Outs(bs[..k]))
         == Some(if k == |bs| then AwaitPingresp(Header) else SendPingreq(bs[k..]))
  {
    PlaySend(ClientStep, rest => SendPingreq(rest), AwaitPingresp(Header), bs, k);
  }

  lemma PlayDisconnect(bs: seq<byte>, k: nat)
    requires k <= |bs| && bs != []
    ensures Play(ClientStep, SendDisconnect(bs), Outs(bs[..k]))
         == Some(if k == |bs| then Done(true) else SendDisconnect(bs[k..]))
  {
    PlaySend(ClientStep, rest => SendDisconnect(rest), Done(true), bs, k);
  }

  lemma PlayAwaitConnack(s: seq<byte>)
    requires Wants(Header, s)
    ensures Play(ClientStep, AwaitConnack(Header), Ins(s)) == Some(AfterConnack(FeedAll(Header, s)))
  {
    PlayReader(ClientStep, r => AwaitConnack(r), AfterConnack, Header, s);
  }

  lemma PlayAwaitPingresp(s: seq<byte>)
    requires Wants(Header, s)
    ensures Play(ClientStep, AwaitPingresp(Header), Ins(s)) == Some(AfterPingresp(FeedAll(Header, s)))
  {
    PlayReader(ClientStep, r => AwaitPingresp(r), AfterPingresp, Header, s);
  }

  predicate StartsWithPingresp(s: seq<byte>)
  {
    var f := ReadFrame(s);
    f.Frame? && ValidPingresp(f.packet)
  }

  /** Everything a session does to its stream, in order, when writes fail after `room` bytes. */
  function Events(connect: seq<byte>, s: seq<byte>, room: nat): (es: seq<Event>)
  {
    Outs(Take(connect, room))
    + if room < |connect| then [] else AfterConnectSent(s, room - |connect|)
  }

  function AfterConnectSent(s: seq<byte>, room: nat): (es: seq<Event>)
  {
    Ins(s[..Consumed(s)])
    + if !StartsWithConnack(s) then [] else AfterConnackRead(s[Consumed(s)..], room)
  }

  function AfterConnackRead(s: seq<byte>, room: nat): (es: seq<Event>)
  {
    Outs(Take(PINGREQ, room))
    + if room < |PINGREQ| then [] else AfterPingreqSent(s, room - |PINGREQ|)
  }

  function AfterPingreqSent(s: seq<byte>, room: nat): (es: seq<Event>)
  {
    Ins(s[..Consumed(s)])
    + if StartsWithPingresp(s) then Outs(Take(DISCONNECT, room)) else []
  }

  /** The output of every session, failing ones included, is cut from its script, a prefix of CONNECT,
      PINGREQ, DISCONNECT with each part present only after the answer before it. */
  lemma SessionOutput(connect: seq<byte>, s: seq<byte>, room: nat)
    ensures Written(Events(connect, s, room)) == Take(Script(connect, s), room)
  {
    if room >= |connect| {
      ConnackOutput(s, room - |connect|);
    }
    ScriptParts(connect, s);
    PhaseOutput(connect, room, if room < |connect| then [] else AfterConnectSent(s, room - |connect|),
                if StartsWithConnack(s) then PingScript(s[Consumed(s)..]) else []);
  }

  lemma ScriptParts(connect: seq<byte>, s: seq<byte>)
    ensures Script(connect, s) == connect + if StartsWithConnack(s) then PingScript(s[Consumed(s)..]) else []
    ensures Script(connect, s) <= connect + PINGREQ + DISCONNECT
  {
    Associative(connect, PINGREQ, DISCONNECT);
    assert PINGREQ + [] == PINGREQ && connect + [] == connect;
  }

  /** The script in numbers: PINGREQ is C0 00 and DISCONNECT is E0 00. */
  lemma ScriptInNumbers(connect: seq<byte>, s: seq<byte>)
    ensures Script(connect, s)
         == connect + (if StartsWithConnack(s) then [0xC0, 0x00] else [])
            + (if AnswersPing(s) then [0xE0, 0x00] else [])
  {
    PlusNothing(connect);
    PlusNothing(connect + PINGREQ);
  }

  function PingScript(s: seq<byte>): (out: seq<byte>)
  {
    PINGREQ + if StartsWithPingresp(s) then DISCONNECT else []
  }

  lemma ConnackOutput(s: seq<byte>, room: nat)
    ensures Written(AfterConnectSent(s, room))
         == Take(if StartsWithConnack(s) then PingScript(s[Consumed(s)..]) else [], room)
  {
    var t := s[Consumed(s)..];
    ReadingOutput(s[..Consumed(s)], if !StartsWithConnack(s) then [] else AfterConnackRead(t, room));
    if StartsWithConnack(s) {
      PingreqOutput(t, room);
    }
  }

  lemma PingreqOutput(s: seq<byte>, room: nat)
    ensures Written(AfterConnackRead(s, room)) == Take(PingScript(s), room)
  {
    if room >= |PINGREQ| {
      PingrespOutput(s, room - |PINGREQ|);
    }
    PhaseOutput(PINGREQ, room, if room < |PINGREQ| then [] else AfterPingreqSent(s, room - |PINGREQ|),
                if StartsWithPingresp(s) then DISCONNECT else []);
  }

  lemma PingrespOutput(s: seq<byte>, room: nat)
    ensures Written(AfterPingreqSent(s, room)) == Take(if StartsWithPingresp(s) then DISCONNECT else [], room)
  {
    var sent := Take(DISCONNECT, room);
    ReadingOutput(s[..Consumed(s)], if StartsWithPingresp(s) then Outs(sent) else []);
    WrittenOuts(sent);
  }

  // What a session returns, told from the packet grammar: the first thing that goes wrong. `eof` is the
  // error with which the stream ends.

  function Verdict(connect: seq<byte>, s: seq<byte>, eof: IoError, room: nat): (r: Result<(), SessionError>)
  {
    if room < |connect| then Err(Io(WriteFailed)) else ConnackVerdict(s, eof, room - |connect|)
  }

  function ConnackVerdict(s: seq<byte>, eof: IoError, room: nat): (r: Result<(), SessionError>)
  {
    match ReadFrame(s)
    case Unfinished => Err(Io(eof))
    case BadLength => Err(BadVarint)
    case Frame(p, used) => if ValidConnack(p) then PingVerdict(s[used..], eof, room) else Err(BadConnack)
  }

  function PingVerdict(s: seq<byte>, eof: IoError, room: nat): (r: Result<(), SessionError>)
  {
    if room < |PINGREQ| then Err(Io(WriteFailed))
    else
      match ReadFrame(s)
      case Unfinished => Err(Io(eof))
      case BadLength => Err(BadVarint)
      case Frame(p, _) => if ValidPingresp(p) then Ok(()) else Err(BadPingresp)
  }

  /** What each answer leads to, in numbers, when both packets are there and can be answered. */
  lemma VerdictInNumbers(
    connect: seq<byte>, t: byte, a: seq<byte>, u: byte, b: seq<byte>, rest: seq<byte>, eof: IoError, room: nat)
    requires |a| < 0x1000_0000 && |b| < 0x1000_0000 && room >= |connect| + 2
    ensures Verdict(connect, Encode(Packet(t, a)) + (Encode(Packet(u, b)) + rest), eof, room)
         == if !(0x20 <= t < 0x30 && |a| >= 2 && a[1] == 0) then Err(BadConnack)
            else if !(0xD0 <= u < 0xE0 && b == []) then Err(BadPingresp)
            else Ok(())
  {
    var more := Encode(Packet(u, b)) + rest;
    FrameRoundTrip(Packet(t, a), more);
    FrameRoundTrip(Packet(u, b), rest);
    DropAppend(Encode(Packet(t, a)), more);
  }

  lemma VerdictOkIff(connect: seq<byte>, s: seq<byte>, eof: IoError, room: nat)
    ensures Verdict(connect, s, eof, room).Ok? <==> AnswersPing(s) && |connect| + |PINGREQ| <= room
  {
  }

  /** `run_session` over every server stream, every way of cutting it up and every point at which
      writing may start to fail. It succeeds exactly when the stream carries the two expected answers
      and CONNECT and PINGREQ could be written; the fate of DISCONNECT does not matter. Otherwise it
      reports the first thing that went wrong. */
  method RunSession(stream: Stream, clientId: Option<seq<byte>>, defaultId: seq<byte>, keepalive: u16, version: Version)
    returns (r: Result<(), SessionError>)
    requires stream.Valid()
    modifies stream`input, stream`output, stream`room, stream`trace
    ensures stream.Valid()
    ensures var connect := Encode(ConnectPacket(clientId.GetOr(defaultId), keepalive, version));
            && (r.Ok? <==> AnswersPing(old(stream.input)) && |connect| + |PINGREQ| <= old(stream.room))
            && r == Verdict(connect, old(stream.input), stream.AtEnd(), old(stream.room))
            && stream.trace == old(stream.trace) + Events(connect, old(stream.input), old(stream.room))
  {
    var cid := match clientId case Some(c) => c case None => defaultId;
    var connect := BuildConnect(cid, keepalive, version);
    VerdictOkIff(connect, stream.input, stream.AtEnd(), stream.room);
    r := ConnectAndPing(stream, connect);
  }

  /** `run_session` with the CONNECT packet built. */
  method ConnectAndPing(stream: Stream, connect: seq<byte>) returns (r: Result<(), SessionError>)
    requires stream.Valid()
    modifies stream`input, stream`output, stream`room, stream`trace
    ensures stream.Valid()
    ensures r == Verdict(connect, old(stream.input), stream.AtEnd(), old(stream.room))
    ensures stream.trace == old(stream.trace) + Events(connect, old(stream.input), old(stream.room))
  {
    var sent := stream.WriteAll(connect);
    if sent.Err? {
      PlusNothing(Outs(Take(connect, old(stream.room))));
      return Err(Io(sent.error));
    }
    Associative(old(stream.trace), Outs(connect), AfterConnectSent(stream.input, stream.room));
    r := AwaitAnswer(stream);
  }

  /** `run_session` from the first read on. */
  method AwaitAnswer(stream: Stream) returns (r: Result<(), SessionError>)
    requires stream.Valid()
    modifies stream`input, stream`output, stream`room, stream`trace
    ensures stream.Valid()
    ensures r == ConnackVerdict(old(stream.input), stream.AtEnd(), old(stream.room))
    ensures stream.trace == old(stream.trace) + AfterConnectSent(old(stream.input), old(stream.room))
  {
    ghost var s := stream.input;
    var connack := ReadPacket(stream);
    if connack.Err? {
      return Err(if connack.error.Broken? then Io(connack.error.e) else BadVarint);
    }
    if !ValidConnack(connack.value) {
      return Err(BadConnack);
    }
    Associative(old(stream.trace), Ins(s[..Consumed(s)]), AfterConnackRead(stream.input, stream.room));
    r := PingAndDisconnect(stream);
  }

  /** `run_session` from the accepted CONNACK on. */
  method PingAndDisconnect(stream: Stream) returns (r: Result<(), SessionError>)
    requires stream.Valid()
    modifies stream`input, stream`output, stream`room, stream`trace
    ensures stream.Valid()
    ensures r == PingVerdict(old(stream.input), stream.AtEnd(), old(stream.room))
    ensures stream.trace == old(stream.trace) + AfterConnackRead(old(stream.input), old(stream.room))
  {
    ghost var s := stream.input;
    var sent := stream.WriteAll(PINGREQ);
    if sent.Err? {
      return Err(Io(sent.error));
    }
    label Pinged:
    Associative(old(stream.trace), Outs(PINGREQ), AfterPingreqSent(s, stream.room));
    var pingresp := ReadPacket(stream);
    if pingresp.Err? {
      return Err(if pingresp.error.Broken? then Io(pingresp.error.e) else BadVarint);
    }
    if !ValidPingresp(pingresp.value) {
      return Err(BadPingresp);
    }
    Associative(old@Pinged(stream.trace), Ins(s[..Consumed(s)]), Outs(Take(DISCONNECT, stream.room)));
    var _ := stream.WriteAll(DISCONNECT);
    return Ok(());
  }

  /** Every session, failing ones included, is the one maximal run of the byte-at-a-time client on the
      same stream, and ends in success exactly when the session does. */
  lemma SessionIsARun(connect: seq<byte>, s: seq<byte>, room: nat) returns (end: ClientState)
    requires connect != []
    ensures MaximalRun(ClientStep, SendConnect(connect), Events(connect, s, room), s, room, end)
    ensures end.Succeeded() <==> AnswersPing(s) && |connect| + |PINGREQ| <= room
  {
    var sent := Take(connect, room);
    PlayConnect(connect, |sent|);
    PlusNothing(connect);
    if room < |connect| {
      end := SendConnect(connect[room..]);
      WritePhase(ClientStep, SendConnect(connect), connect, end, [], s, room, end);
    } else {
      var more := AfterConnectSent(s, room - |connect|);
      end := ConnackPhase(s, room - |connect|);
      WritePhase(ClientStep, SendConnect(connect), connect, AwaitConnack(Header), more, s, room, end);
    }
  }

  lemma ConnackPhase(s: seq<byte>, room: nat) returns (end: ClientState)
    ensures MaximalRun(ClientStep, AwaitConnack(Header), AfterConnectSent(s, room), s, room, end)
    ensures end.Succeeded() <==> AnswersPing(s) && |PINGREQ| <= room
  {
    var k, rest := Consumed(s), s[Consumed(s)..];
    var l := AfterConnack(FeedAll(Header, s[..k]));
    ReaderTakes(s);
    PlayAwaitConnack(s[..k]);
    if StartsWithConnack(s) {
      end := PingreqPhase(rest, room);
      ReadPhase(ClientStep, AwaitConnack(Header), k, l, AfterConnackRead(rest, room), s, room, end);
    } else {
      end := l;
      AtRest(ClientStep, end, rest, room);
      ReadPhase(ClientStep, AwaitConnack(Header), k, l, [], s, room, end);
    }
  }

  lemma PingreqPhase(s: seq<byte>, room: nat) returns (end: ClientState)
    ensures MaximalRun(ClientStep, SendPingreq(PINGREQ), AfterConnackRead(s, room), s, room, end)
    ensures end.Succeeded() <==> StartsWithPingresp(s) && |PINGREQ| <= room
  {
    var sent := Take(PINGREQ, room);
    PlayPingreq(PINGREQ, |sent|);
    PlusNothing(PINGREQ);
    if room < |PINGREQ| {
      end := SendPingreq(PINGREQ[room..]);
      WritePhase(ClientStep, SendPingreq(PINGREQ), PINGREQ, end, [], s, room, end);
    } else {
      var more := AfterPingreqSent(s, room - |PINGREQ|);
      end := PingrespPhase(s, room - |PINGREQ|);
      WritePhase(ClientStep, SendPingreq(PINGREQ), PINGREQ, AwaitPingresp(Header), more, s, room, end);
    }
  }

  lemma PingrespPhase(s: seq<byte>, room: nat) returns (end: ClientState)
    ensures MaximalRun(ClientStep, AwaitPingresp(Header), AfterPingreqSent(s, room), s, room, end)
    ensures end.Succeeded() <==> StartsWithPingresp(s)
  {
    var k, rest := Consumed(s), s[Consumed(s)..];
    var l := AfterPingresp(FeedAll(Header, s[..k]));
    ReaderTakes(s);
    PlayAwaitPingresp(s[..k]);
    if StartsWithPingresp(s) {
      end := DisconnectPhase(rest, room);
      ReadPhase(ClientStep, AwaitPingresp(Header), k, l, Outs(Take(DISCONNECT, room)), s, room, end);
    } else {
      end := l;
      AtRest(ClientStep, end, rest, room);
      ReadPhase(ClientStep, AwaitPingresp(Header), k, l, [], s, room, end);
    }
  }

  lemma DisconnectPhase(s: seq<byte>, room: nat) returns (end: ClientState)
    ensures MaximalRun(ClientStep, SendDisconnect(DISCONNECT), Outs(Take(DISCONNECT, room)), s, room, end)
    ensures end.Succeeded()
  {
    var sent := Take(DISCONNECT, room);
    PlayDisconnect(DISCONNECT, |sent|);
    PlusNothing(DISCONNECT);
    end := if room < |DISCONNECT| then SendDisconnect(DISCONNECT[room..]) else Done(true);
    WriteLast(ClientStep, SendDisconnect(DISCONNECT), DISCONNECT, end, s, room);
  }
}
