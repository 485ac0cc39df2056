/** testserver's MQTT broker: its own packet reader and the session loop. */
module MqttBroker {
  import opened Bytes
  import opened Streams
  import opened Varint
  import opened MqttFrame
  import MqttClient

  /** The length loop of `read_mqtt_packet`. */
  method ReadRemaining(stream: Stream, ghost before: seq<Event>, ghost s: seq<byte>)
    returns (r: Result<nat, PacketError>)
    requires s != [] && stream.HasRead(before, s, 1)
    modifies stream`input, stream`trace
    ensures r == LengthRead(s[1..], stream.AtEnd()) && stream.HasRead(before, s, 1 + LengthTaken(s[1..]))
  {
    var multiplier: nat := 1;
    var remaining: nat := 0;
    for i := 0 to 4
      invariant 1 + i <= |s| && stream.HasRead(before, s, 1 + i)
      invariant multiplier == Pow128(i) && remaining < multiplier
      invariant ReadLength(s[1..], MAX_DIGITS)
             == MqttClient.Resume(remaining, multiplier, i, ReadLength(s[1 + i..], MAX_DIGITS - i))
    {
      var digit := stream.ReadByte(before, s, 1 + i);
      if digit.Err? {
        return Err(Broken(digit.error));
      }
      var b := digit.value;
      MqttClient.NextDigit(remaining, multiplier, i, s);
      remaining := AddDigit(remaining, b, multiplier);
      if b < 128 {
        return Ok(remaining);
      }
      multiplier := MqttClient.SaturatingMul(multiplier, 128);
    }
    return Err(VarintTooLong);
  }

  /** `read_mqtt_packet`: on every stream it returns and leaves what the client's reader does. */
  method ReadMqttPacket(stream: Stream) returns (r: Result<Packet, PacketError>)
    requires stream.Valid()
    modifies stream`input, stream`trace
    ensures stream.Valid()
    ensures Reads(old(stream.input), stream.AtEnd(), r, stream.input)
    ensures stream.trace == old(stream.trace) + Ins(old(stream.input)[..Consumed(old(stream.input))])
  {
    ghost var s := stream.input;
    ghost var before := stream.trace;
    NothingRead(before, s);
    var header := stream.ReadByte(before, s, 0);
    if header.Err? {
      ReadsShort(s, stream.AtEnd());
      return Err(Broken(header.error));
    }
    r := ReadRest(stream, header.value, before, s);
  }

  /** `read_mqtt_packet` from the length on. */
  method ReadRest(stream: Stream, typ: byte, ghost before: seq<Event>, ghost s: seq<byte>)
    returns (r: Result<Packet, PacketError>)
    requires s != [] && typ == s[0] && stream.HasRead(before, s, 1)
    modifies stream`input, stream`trace
    ensures Reads(s, stream.AtEnd(), r, stream.input) && stream.HasRead(before, s, Consumed(s))
  {
    var remaining := ReadRemaining(stream, before, s);
    if remaining.Err? {
      ReadsNoLength(s, stream.AtEnd());
      return Err(remaining.error);
    }
    var n := remaining.value;
    ghost var used := LengthTaken(s[1..]);
    var body := ReadBody(stream, n, before, s, 1 + used);
    if body.Err? {
      ReadsShort(s, stream.AtEnd());
      return Err(body.error);
    }
    ReadsPacket(s, stream.AtEnd(), n, used);
    return Ok(Packet(typ, body.value));
  }

  // ---- What the broker answers -----------------------------------------------------------------

  /** The kind of the packet at the start of the stream, if there is one. */
  function KindAt(s: seq<byte>): (k: Option<byte>)
  {
    match ReadFrame(s)
    case Frame(p, _) => Some(Kind(p))
    case _ => None
  }

  predicate StartsWith(s: seq<byte>, kind: byte)
  {
    KindAt(s) == Some(kind)
  }

  /** How many of the packets come before the first that is not a PINGREQ. */
  function LeadingPings(ps: seq<Packet>): (n: nat)
    ensures n <= |ps|
  {
    if ps == [] || Kind(ps[0]) != TYPE_PINGREQ then 0 else 1 + LeadingPings(ps[1..])
  }

  function Repeat(bs: seq<byte>, n: nat): (s: seq<byte>)
  {
    if n == 0 then [] else bs + Repeat(bs, n - 1)
  }

  /** The whole answer to a stream, if no write fails: nothing unless the first packet is a CONNECT,
      otherwise CONNACK and one PINGRESP for each PINGREQ that follows without a break. */
  function Answer(s: seq<byte>): (out: seq<byte>)
  {
    var ps := ReadAll(s);
    if ps == [] || Kind(ps[0]) != TYPE_CONNECT then []
    else CONNACK + Repeat(PINGRESP, LeadingPings(ps[1..]))
  }

  /** The answer in numbers: to a packet of type 1, then `n` packets of type 12, then the end or a packet of
      another type, it is 20 02 00 00 and `n` times D0 00; to any other first packet nothing. */
  lemma AnswerInNumbers(ps: seq<Packet>, n: nat)
    requires n < |ps| && forall i | 0 <= i < |ps| :: |ps[i].body| < 0x1000_0000
    requires forall i | 0 < i <= n :: 0xC0 <= ps[i].typ < 0xD0
    requires n + 1 < |ps| ==> !(0xC0 <= ps[n + 1].typ < 0xD0)
    ensures var out := Answer(EncodeAll(ps));
            if 0x10 <= ps[0].typ < 0x20 then IsWelcomeAndPongs(out, n) else out == []
  {
    AnswerToFrames(ps);
    CountPings(ps[1..], n);
    RepeatPongs(n);
    AnswerBytes(Repeat(PINGRESP, n), n);
  }

  /** 20 02 00 00, and D0 00 `n` times. */
  predicate IsWelcomeAndPongs(out: seq<byte>, n: nat)
  {
    && |out| == 4 + 2 * n && out[..4] == [0x20, 0x02, 0x00, 0x00]
    && forall i | 0 <= i < n :: out[4 + 2 * i] == 0xD0 && out[5 + 2 * i] == 0x00
  }

  lemma AnswerToFrames(ps: seq<Packet>)
    requires forall i | 0 <= i < |ps| :: |ps[i].body| < 0x1000_0000
    ensures Answer(EncodeAll(ps))
         == if ps == [] || Kind(ps[0]) != TYPE_CONNECT then []
            else CONNACK + Repeat(PINGRESP, LeadingPings(ps[1..]))
  {
    FramesRoundTrip(ps, []);
    PlusNothing(EncodeAll(ps));
    PlusNothing(ps);
  }

  lemma AnswerBytes(pongs: seq<byte>, n: nat)
    requires |pongs| == 2 * n && forall i | 0 <= i < n :: pongs[2 * i] == 0xD0 && pongs[2 * i + 1] == 0x00
    ensures IsWelcomeAndPongs(CONNACK + pongs, n)
  {
    var out := CONNACK + pongs;
    forall i | 0 <= i < n
      ensures out[4 + 2 * i] == 0xD0 && out[5 + 2 * i] == 0x00
    {
      assert out[4 + 2 * i] == pongs[2 * i] && out[4 + 2 * i + 1] == pongs[2 * i + 1];
    }
  }

  lemma {:induction false} CountPings(ps: seq<Packet>, n: nat)
    requires n <= |ps| && forall i | 0 <= i < n :: 0xC0 <= ps[i].typ < 0xD0
    requires n < |ps| ==> !(0xC0 <= ps[n].typ < 0xD0)
    ensures LeadingPings(ps) == n
    decreases n
  {
    if n > 0 {
      CountPings(ps[1..], n - 1);
    }
  }

  lemma {:induction false} RepeatPongs(n: nat)
    ensures var s := Repeat(PINGRESP, n);
            |s| == 2 * n && forall i | 0 <= i < n :: s[2 * i] == 0xD0 && s[2 * i + 1] == 0x00
  {
    if n > 0 {
      RepeatPongs(n - 1);
      var s := Repeat(PINGRESP, n);
      assert s[..2] == PINGRESP && s[2..] == Repeat(PINGRESP, n - 1);
      forall i | 0 < i < n
        ensures s[2 * i] == 0xD0 && s[2 * i + 1] == 0x00
      {
        assert s[2 * i] == s[2..][2 * (i - 1)] && s[2 * i + 1] == s[2..][2 * (i - 1) + 1];
      }
    }
  }

  /** Everything the broker does to its stream, in order, when writes fail after `room` bytes. */
  function Events(s: seq<byte>, room: nat): (es: seq<Event>)
  {
    Ins(s[..Consumed(s)])
    + if StartsWith(s, TYPE_CONNECT) then WelcomeEvents(s[Consumed(s)..], room) else []
  }

  function WelcomeEvents(s: seq<byte>, room: nat): (es: seq<Event>)
  {
    Outs(Take(CONNACK, room)) + if room < |CONNACK| then [] else LoopEvents(s, room - |CONNACK|)
  }

  function LoopEvents(s: seq<byte>, room: nat): (es: seq<Event>)
    decreases |s|, 0
  {
    Ins(s[..Consumed(s)])
    + if StartsWith(s, TYPE_PINGREQ) then PongEvents(s[Consumed(s)..], room) else []
  }

  function PongEvents(s: seq<byte>, room: nat): (es: seq<Event>)
    decreases |s|, 1
  {
    Outs(Take(PINGRESP, room)) + if room < |PINGRESP| then [] else LoopEvents(s, room - |PINGRESP|)
  }

  /** Reads a packet of which only the kind, `packet_type & 0xF0`, is looked at. */
  method ReadKind(stream: Stream) returns (kind: Option<byte>)
    requires stream.Valid()
    modifies stream`input, stream`trace
    ensures stream.Valid()
    ensures kind == KindAt(old(stream.input))
    ensures stream.trace == old(stream.trace) + Ins(old(stream.input)[..Consumed(old(stream.input))])
    ensures kind.Some? ==> stream.input == old(stream.input)[Consumed(old(stream.input))..]
    ensures kind.Some? ==> |stream.input| < |old(stream.input)|
  {
    var packet := ReadMqttPacket(stream);
    if packet.Err? {
      return None;
    }
    return Some(packet.value.typ - packet.value.typ % 16);
  }

  /** `handle_mqtt_session` on every stream: it ends, and does exactly `Events`. */
  method HandleSession(stream: Stream)
    requires stream.Valid()
    modifies stream`input, stream`output, stream`room, stream`trace
    ensures stream.Valid()
    ensures stream.trace == old(stream.trace) + Events(old(stream.input), old(stream.room))
  {
    ghost var s := stream.input;
    var first := ReadKind(stream);
    if first != Some(0x10) {
      PlusNothing(Ins(s[..Consumed(s)]));
      return;
    }
    Associative(old(stream.trace), Ins(s[..Consumed(s)]), WelcomeEvents(stream.input, stream.room));
    Greet(stream);
  }

  /** The session once a CONNECT is in. */
  method Greet(stream: Stream)
    requires stream.Valid()
    modifies stream`input, stream`output, stream`room, stream`trace
    ensures stream.Valid()
    ensures stream.trace == old(stream.trace) + WelcomeEvents(old(stream.input), old(stream.room))
  {
    var sent := stream.WriteAll(CONNACK);
    if sent.Err? {
      PlusNothing(Outs(Take(CONNACK, old(stream.room))));
      return;
    }
    Associative(old(stream.trace), Outs(CONNACK), LoopEvents(stream.input, stream.room));
    Loop(stream);
  }

  /** The loop of `handle_mqtt_session`. */
  method Loop(stream: Stream)
    requires stream.Valid()
    modifies stream`input, stream`output, stream`room, stream`trace
    ensures stream.Valid()
    ensures stream.trace == old(stream.trace) + LoopEvents(old(stream.input), old(stream.room))
  {
    ghost var end := stream.trace + LoopEvents(stream.input, stream.room);
    while true
      invariant stream.Valid() && stream.trace + LoopEvents(stream.input, stream.room) == end
      decreases |stream.input|
    {
      var again := Round(stream);
      if !again {
        return;
      }
    }
  }

  /** One round of the loop: a packet, and the answer if it is a PINGREQ. */
  method Round(stream: Stream) returns (again: bool)
    requires stream.Valid()
    modifies stream`input, stream`output, stream`room, stream`trace
    ensures stream.Valid()
    ensures !again ==> stream.trace == old(stream.trace) + LoopEvents(old(stream.input), old(stream.room))
    ensures again ==> |stream.input| < |old(stream.input)|
    ensures var now, before := stream.trace + LoopEvents(stream.input, stream.room), old(stream.trace);
            again ==> now == before + LoopEvents(old(stream.input), old(stream.room))
  {
    ghost var s := stream.input;
    var kind := ReadKind(stream);
    if kind == Some(0xC0) {
      Associative(old(stream.trace), Ins(s[..Consumed(s)]), PongEvents(stream.input, stream.room));
      again := Pong(stream);
      return;
    }
    PlusNothing(Ins(s[..Consumed(s)]));
    // 0xE0 is a DISCONNECT; that, an error and anything else end the session.
    return false;
  }

  /** The answer to a PINGREQ. */
  method Pong(stream: Stream) returns (ok: bool)
    requires stream.Valid()
    modifies stream`output, stream`room, stream`trace
    ensures stream.Valid()
    ensures !ok ==> stream.trace == old(stream.trace) + PongEvents(stream.input, old(stream.room))
    ensures var now, before := stream.trace + LoopEvents(stream.input, stream.room), old(stream.trace);
            ok ==> now == before + PongEvents(stream.input, old(stream.room))
  {
    ghost var room := stream.room;
    var sent := stream.WriteAll(PINGRESP);
    if sent.Err? {
      PlusNothing(Outs(Take(PINGRESP, room)));
      return false;
    }
    Associative(old(stream.trace), Outs(PINGRESP), LoopEvents(stream.input, stream.room));
    return true;
  }

  /** What the broker writes is its answer, cut off where writing fails. */
  lemma SessionOutput(s: seq<byte>, room: nat)
    ensures Written(Events(s, room)) == Take(Answer(s), room)
  {
    var t := s[Consumed(s)..];
    ReadingOutput(s[..Consumed(s)], if StartsWith(s, TYPE_CONNECT) then WelcomeEvents(t, room) else []);
    AnswerParts(s);
    if StartsWith(s, TYPE_CONNECT) {
      WelcomeOutput(t, room);
    }
  }

  lemma WelcomeOutput(s: seq<byte>, room: nat)
    ensures Written(WelcomeEvents(s, room)) == Take(CONNACK + Pongs(s), room)
  {
    if room >= |CONNACK| {
      LoopOutput(s, room - |CONNACK|);
    }
    PhaseOutput(CONNACK, room, if room < |CONNACK| then [] else LoopEvents(s, room - |CONNACK|), Pongs(s));
  }

  /** One PINGRESP for each leading PINGREQ. */
  function Pongs(s: seq<byte>): (out: seq<byte>)
  {
    Repeat(PINGRESP, LeadingPings(ReadAll(s)))
  }

  lemma AnswerParts(s: seq<byte>)
    ensures Answer(s) == if StartsWith(s, TYPE_CONNECT) then CONNACK + Pongs(s[Consumed(s)..]) else []
  {
    if ReadFrame(s).Frame? {
      ReadAllRest(s);
    }
  }

  lemma ReadAllRest(s: seq<byte>)
    requires ReadFrame(s).Frame?
    ensures ReadAll(s) != [] && ReadAll(s)[0] == ReadFrame(s).packet && ReadAll(s)[1..] == ReadAll(s[Consumed(s)..])
  {
  }

  lemma {:induction false} LoopOutput(s: seq<byte>, room: nat)
    ensures Written(LoopEvents(s, room)) == Take(Pongs(s), room)
    decreases |s|, 0
  {
    var t := s[Consumed(s)..];
    ReadingOutput(s[..Consumed(s)], if StartsWith(s, TYPE_PINGREQ) then PongEvents(t, room) else []);
    OnePing(s);
    if StartsWith(s, TYPE_PINGREQ) {
      PongOutput(t, room);
    }
  }

  lemma {:induction false} PongOutput(s: seq<byte>, room: nat)
    ensures Written(PongEvents(s, room)) == Take(PINGRESP + Pongs(s), room)
    decreases |s|, 1
  {
    if room >= |PINGRESP| {
      LoopOutput(s, room - |PINGRESP|);
    }
    PhaseOutput(PINGRESP, room, if room < |PINGRESP| then [] else LoopEvents(s, room - |PINGRESP|), Pongs(s));
  }

  lemma OnePing(s: seq<byte>)
    ensures Pongs(s) == if StartsWith(s, TYPE_PINGREQ) then PINGRESP + Pongs(s[Consumed(s)..]) else []
  {
    if ReadFrame(s).Frame? {
      ReadAllRest(s);
    }
  }
}
