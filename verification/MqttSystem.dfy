/** The MQTT client and the broker joined by two bounded channels. */
module MqttSystem {
  import opened Bytes
  import opened Streams
  import opened MqttFrame
  import opened Duplex
  import opened MqttClient
  import MqttBroker

  // ---- The broker as a byte-at-a-time process ----------------------------------------------------

  datatype BrokerPc =
    | AwaitConnect(reader: Reader)
    | SendConnack(rest: seq<byte>)
    | AwaitNext(reader: Reader)
    | SendPingresp(rest: seq<byte>)
    | Stopped

  // Where the broker stands, and the packets it has taken in so far.
  datatype Broker = Broker(pc: BrokerPc, packets: seq<Packet>)

  function AfterFirst(r: Reader, packets: seq<Packet>): (b: Broker)
  {
    match r
    case Complete(p) => Broker(if Kind(p) == TYPE_CONNECT then SendConnack(CONNACK) else Stopped, packets + [p])
    case Overlong => Broker(Stopped, packets)
    case _ => Broker(AwaitConnect(r), packets)
  }

  function AfterNext(r: Reader, packets: seq<Packet>): (b: Broker)
  {
    match r
    case Complete(p) => Broker(if Kind(p) == TYPE_PINGREQ then SendPingresp(PINGRESP) else Stopped, packets + [p])
    case Overlong => Broker(Stopped, packets)
    case _ => Broker(AwaitNext(r), packets)
  }

  function BrokerStep(s: Broker): (a: Act<Broker>)
  {
    match s.pc
    case AwaitConnect(r) => Receive(b => AfterFirst(Feed(r, b), s.packets))
    case SendConnack(rest) =>
      if rest == [] then Halt
      else Send(rest[0], s.(pc := if |rest| == 1 then AwaitNext(Header) else SendConnack(rest[1..])))
    case AwaitNext(r) => Receive(b => AfterNext(Feed(r, b), s.packets))
    case SendPingresp(rest) =>
      if rest == [] then Halt
      else Send(rest[0], s.(pc := if |rest| == 1 then AwaitNext(Header) else SendPingresp(rest[1..])))
    case Stopped => Halt
  }

  lemma PlayFirst(s: seq<byte>, packets: seq<Packet>)
    requires Wants(Header, s)
    ensures Play(BrokerStep, Broker(AwaitConnect(Header), packets), Ins(s))
         == Some(AfterFirst(FeedAll(Header, s), packets))
  {
    PlayReader(BrokerStep, r => Broker(AwaitConnect(r), packets), r => AfterFirst(r, packets), Header, s);
  }

  lemma PlayNext(s: seq<byte>, packets: seq<Packet>)
    requires Wants(Header, s)
    ensures Play(BrokerStep, Broker(AwaitNext(Header), packets), Ins(s)) == Some(AfterNext(FeedAll(Header, s), packets))
  {
    PlayReader(BrokerStep, r => Broker(AwaitNext(r), packets), r => AfterNext(r, packets), Header, s);
  }

  lemma PlayConnack(bs: seq<byte>, k: nat, packets: seq<Packet>)
    requires k <= |bs| && bs != []
    ensures Play(BrokerStep, Broker(SendConnack(bs), packets), Outs(bs[..k]))
         == Some(Broker(if k == |bs| then AwaitNext(Header) else SendConnack(bs[k..]), packets))
  {
    PlaySend(BrokerStep, rest => Broker(SendConnack(rest), packets), Broker(AwaitNext(Header), packets), bs, k);
  }

  lemma PlayPingresp(bs: seq<byte>, k: nat, packets: seq<Packet>)
    requires k <= |bs| && bs != []
    ensures Play(BrokerStep, Broker(SendPingresp(bs), packets), Outs(bs[..k]))
         == Some(Broker(if k == |bs| then AwaitNext(Header) else SendPingresp(bs[k..]), packets))
  {
    PlaySend(BrokerStep, rest => Broker(SendPingresp(rest), packets), Broker(AwaitNext(Header), packets), bs, k);
  }

  /** What the session loop does to its stream is the one maximal run of the process, and the packets it
      has taken in are those in the bytes it has read. */
  lemma {:induction false} LoopIsARun(s: seq<byte>, room: nat, ps: seq<Packet>) returns (end: Broker)
    ensures MaximalRun(BrokerStep, Broker(AwaitNext(Header), ps), MqttBroker.LoopEvents(s, room), s, room, end)
    ensures end.packets == ps + ReadAll(Received(MqttBroker.LoopEvents(s, room)))
    decreases |s|, 0
  {
    var k, rest := Consumed(s), s[Consumed(s)..];
    var start, l := Broker(AwaitNext(Header), ps), AfterNext(FeedAll(Header, s[..k]), ps);
    ReaderTakes(s);
    PlayNext(s[..k], ps);
    if MqttBroker.StartsWith(s, TYPE_PINGREQ) {
      var more := MqttBroker.PongEvents(rest, room);
      end := PongIsARun(rest, room, l.packets);
      ReadPhase(BrokerStep, start, k, l, more, s, room, end);
      PacketsSoFar(s, ps, more);
    } else {
      end := l;
      AtRest(BrokerStep, end, rest, room);
      ReadPhase(BrokerStep, start, k, l, [], s, room, end);
      PacketsSoFar(s, ps, []);
    }
  }

  lemma {:induction false} PongIsARun(s: seq<byte>, room: nat, ps: seq<Packet>) returns (end: Broker)
    ensures MaximalRun(BrokerStep, Broker(SendPingresp(PINGRESP), ps), MqttBroker.PongEvents(s, room), s, room, end)
    ensures end.packets == ps + ReadAll(Received(MqttBroker.PongEvents(s, room)))
    decreases |s|, 1
  {
    if room < |PINGRESP| {
      end := Broker(SendPingresp(PINGRESP[room..]), ps);
      SendPong(s, room, ps, [], end);
    } else {
      end := LoopIsARun(s, room - |PINGRESP|, ps);
      SendPong(s, room, ps, MqttBroker.LoopEvents(s, room - |PINGRESP|), end);
    }
  }

  lemma SendPong(s: seq<byte>, room: nat, ps: seq<Packet>, more: seq<Event>, end: Broker)
    requires room < |PINGRESP| ==> more == [] && end == Broker(SendPingresp(PINGRESP[room..]), ps)
    requires room >= |PINGRESP| ==>
               MaximalRun(BrokerStep, Broker(AwaitNext(Header), ps), more, s, room - |PINGRESP|, end)
    ensures var es := Outs(Take(PINGRESP, room)) + more;
            && MaximalRun(BrokerStep, Broker(SendPingresp(PINGRESP), ps), es, s, room, end)
            && Received(es) == Received(more)
  {
    var sent := Take(PINGRESP, room);
    PlayPingresp(PINGRESP, |sent|, ps);
    PlusNothing(PINGRESP);
    ReceivedThen(sent, more);
    var next := if room < |PINGRESP| then end else Broker(AwaitNext(Header), ps);
    WritePhase(BrokerStep, Broker(SendPingresp(PINGRESP), ps), PINGRESP, next, more, s, room, end);
  }

  /** The packets in what was read: the one at the start, if there is one, and those read later. */
  lemma PacketsSoFar(s: seq<byte>, ps: seq<Packet>, more: seq<Event>)
    ensures var read := Received(Ins(s[..Consumed(s)]) + more);
            && (ReadFrame(s).Frame? ==> ps + [ReadFrame(s).packet] + ReadAll(Received(more)) == ps + ReadAll(read))
            && (!ReadFrame(s).Frame? && more == [] ==> ps == ps + ReadAll(read))
            && (more == [] ==> ReadAll(Received(more)) == [])
  {
    ReceivedThen(s[..Consumed(s)], more);
    ReadAllTaken(s, Received(more));
    if ReadFrame(s).Frame? {
      Associative(ps, [ReadFrame(s).packet], ReadAll(Received(more)));
    } else {
      PlusNothing(s[..Consumed(s)]);
    }
  }

  /** Every broker session is the one maximal run of the byte-at-a-time broker on the same stream, and
      the packets it has taken in are those in the bytes it has read. */
  lemma BrokerSessionIsARun(s: seq<byte>, room: nat) returns (end: Broker)
    ensures MaximalRun(BrokerStep, Broker(AwaitConnect(Header), []), MqttBroker.Events(s, room), s, room, end)
    ensures end.packets == ReadAll(Received(MqttBroker.Events(s, room)))
  {
    var k, rest := Consumed(s), s[Consumed(s)..];
    var start, l := Broker(AwaitConnect(Header), []), AfterFirst(FeedAll(Header, s[..k]), []);
    ReaderTakes(s);
    PlayFirst(s[..k], []);
    PlusNothing(ReadAll(Received(MqttBroker.Events(s, room))));
    if MqttBroker.StartsWith(s, TYPE_CONNECT) {
      var more := MqttBroker.WelcomeEvents(rest, room);
      end := WelcomeIsARun(rest, room, l.packets);
      ReadPhase(BrokerStep, start, k, l, more, s, room, end);
      PacketsSoFar(s, [], more);
    } else {
      end := l;
      AtRest(BrokerStep, end, rest, room);
      ReadPhase(BrokerStep, start, k, l, [], s, room, end);
      PacketsSoFar(s, [], []);
    }
  }

  lemma WelcomeIsARun(s: seq<byte>, room: nat, ps: seq<Packet>) returns (end: Broker)
    ensures MaximalRun(BrokerStep, Broker(SendConnack(CONNACK), ps), MqttBroker.WelcomeEvents(s, room), s, room, end)
    ensures end.packets == ps + ReadAll(Received(MqttBroker.WelcomeEvents(s, room)))
  {
    if room < |CONNACK| {
      end := Broker(SendConnack(CONNACK[room..]), ps);
      SendWelcome(s, room, ps, [], end);
    } else {
      end := LoopIsARun(s, room - |CONNACK|, ps);
      SendWelcome(s, room, ps, MqttBroker.LoopEvents(s, room - |CONNACK|), end);
    }
  }

  lemma SendWelcome(s: seq<byte>, room: nat, ps: seq<Packet>, more: seq<Event>, end: Broker)
    requires room < |CONNACK| ==> more == [] && end == Broker(SendConnack(CONNACK[room..]), ps)
    requires room >= |CONNACK| ==>
               MaximalRun(BrokerStep, Broker(AwaitNext(Header), ps), more, s, room - |CONNACK|, end)
    ensures var es := Outs(Take(CONNACK, room)) + more;
            && MaximalRun(BrokerStep, Broker(SendConnack(CONNACK), ps), es, s, room, end)
            && Received(es) == Received(more)
  {
    var sent := Take(CONNACK, room);
    PlayConnack(CONNACK, |sent|, ps);
    PlusNothing(CONNACK);
    ReceivedThen(sent, more);
    var next := if room < |CONNACK| then end else Broker(AwaitNext(Header), ps);
    WritePhase(BrokerStep, Broker(SendConnack(CONNACK), ps), CONNACK, next, more, s, room, end);
  }

  // ---- The system --------------------------------------------------------------------------------

  type System = Sys<ClientState, Broker>

  function Network(capacity: nat): (n: Net<ClientState, Broker>)
  {
    Net(ClientStep, BrokerStep, capacity)
  }

  /** Both sides ready, nothing in flight. */
  function Start(connect: seq<byte>): (x: System)
  {
    Sys(SendConnect(connect), Broker(AwaitConnect(Header), []), [], [], [], [])
  }

  /** The client has returned Ok, the broker has taken in exactly CONNECT, PINGREQ and DISCONNECT and
      stopped, and nothing is left in flight. */
  function Finish(p: Packet): (x: System)
  {
    Sys(Done(true), Broker(Stopped, [p, Packet(TYPE_PINGREQ, []), Packet(TYPE_DISCONNECT, [])]), [], [],
        Encode(p) + PINGREQ + DISCONNECT, CONNACK + PINGRESP)
  }

  lemma WholePacket(p: Packet)
    requires |p.body| < 0x1000_0000
    ensures Wants(Header, Encode(p)) && FeedAll(Header, Encode(p)) == Complete(p)
  {
    FrameRoundTrip(p, []);
    assert Encode(p) + [] == Encode(p);
    ReaderTakes(Encode(p));
    assert Encode(p)[..|Encode(p)|] == Encode(p);
  }

  // The constant packets of a session.
  const PING := Packet(TYPE_PINGREQ, [])
  const BYE := Packet(TYPE_DISCONNECT, [])

  lemma ConstantPackets()
    ensures Encode(PING) == PINGREQ && Encode(BYE) == DISCONNECT
    ensures Encode(Packet(TYPE_CONNACK, [0, 0])) == CONNACK && Encode(Packet(TYPE_PINGRESP, [])) == PINGRESP
  {
  }

  lemma ConnectPhase(n: Net<ClientState, Broker>, p: Packet, x: System) returns (schedule: seq<Who>)
    requires n == Network(n.capacity) && n.capacity > 0
    requires p.typ == TYPE_CONNECT && |p.body| < 0x1000_0000 && x == Start(Encode(p))
    ensures |schedule| == 2 * |Encode(p)|
    ensures n.Run(schedule, x)
         == Some(x.(c := AwaitConnack(Header), s := Broker(SendConnack(CONNACK), [p]), upLog := Encode(p)))
  {
    var bs := Encode(p);
    WholePacket(p);
    PlayConnect(bs, |bs|);
    PlayFirst(bs, []);
    assert bs[..|bs|] == bs && [] + [p] == [p] && [] + bs == bs;
    schedule := n.Upload(bs, x, AwaitConnack(Header), Broker(SendConnack(CONNACK), [p]));
  }

  lemma ConnackPhase(n: Net<ClientState, Broker>, ps: seq<Packet>, x: System) returns (schedule: seq<Who>)
    requires n == Network(n.capacity) && n.capacity > 0 && x.down == []
    requires x.c == AwaitConnack(Header) && x.s == Broker(SendConnack(CONNACK), ps)
    ensures |schedule| == 8
    ensures n.Run(schedule, x)
         == Some(x.(c := SendPingreq(PINGREQ), s := Broker(AwaitNext(Header), ps), downLog := x.downLog + CONNACK))
  {
    ConstantPackets();
    WholePacket(Packet(TYPE_CONNACK, [0, 0]));
    PlayConnack(CONNACK, 4, ps);
    PlayAwaitConnack(CONNACK);
    assert CONNACK[..4] == CONNACK;
    schedule := n.Download(CONNACK, x, SendPingreq(PINGREQ), Broker(AwaitNext(Header), ps));
  }

  lemma PingreqPhase(n: Net<ClientState, Broker>, ps: seq<Packet>, x: System) returns (schedule: seq<Who>)
    requires n == Network(n.capacity) && n.capacity > 0 && x.up == []
    requires x.c == SendPingreq(PINGREQ) && x.s == Broker(AwaitNext(Header), ps)
    ensures |schedule| == 4
    ensures n.Run(schedule, x)
         == Some(x.(c := AwaitPingresp(Header), s := Broker(SendPingresp(PINGRESP), ps + [PING]),
                    upLog := x.upLog + PINGREQ))
  {
    ConstantPackets();
    WholePacket(PING);
    PlayPingreq(PINGREQ, 2);
    PlayNext(PINGREQ, ps);
    assert PINGREQ[..2] == PINGREQ;
    schedule := n.Upload(PINGREQ, x, AwaitPingresp(Header), Broker(SendPingresp(PINGRESP), ps + [PING]));
  }

  lemma PingrespPhase(n: Net<ClientState, Broker>, ps: seq<Packet>, x: System) returns (schedule: seq<Who>)
    requires n == Network(n.capacity) && n.capacity > 0 && x.down == []
    requires x.c == AwaitPingresp(Header) && x.s == Broker(SendPingresp(PINGRESP), ps)
    ensures |schedule| == 4
    ensures n.Run(schedule, x)
         == Some(x.(c := SendDisconnect(DISCONNECT), s := Broker(AwaitNext(Header), ps),
                    downLog := x.downLog + PINGRESP))
  {
    ConstantPackets();
    WholePacket(Packet(TYPE_PINGRESP, []));
    PlayPingresp(PINGRESP, 2, ps);
    PlayAwaitPingresp(PINGRESP);
    assert PINGRESP[..2] == PINGRESP;
    schedule := n.Download(PINGRESP, x, SendDisconnect(DISCONNECT), Broker(AwaitNext(Header), ps));
  }

  lemma DisconnectPhase(n: Net<ClientState, Broker>, ps: seq<Packet>, x: System) returns (schedule: seq<Who>)
    requires n == Network(n.capacity) && n.capacity > 0 && x.up == []
    requires x.c == SendDisconnect(DISCONNECT) && x.s == Broker(AwaitNext(Header), ps)
    ensures |schedule| == 4
    ensures n.Run(schedule, x)
         == Some(x.(c := Done(true), s := Broker(Stopped, ps + [BYE]), upLog := x.upLog + DISCONNECT))
  {
    ConstantPackets();
    WholePacket(BYE);
    PlayDisconnect(DISCONNECT, 2);
    PlayNext(DISCONNECT, ps);
    assert DISCONNECT[..2] == DISCONNECT;
    schedule := n.Upload(DISCONNECT, x, Done(true), Broker(Stopped, ps + [BYE]));
  }

  lemma Greeting(n: Net<ClientState, Broker>, p: Packet, x: System) returns (schedule: seq<Who>)
    requires n == Network(n.capacity) && n.capacity > 0
    requires p.typ == TYPE_CONNECT && |p.body| < 0x1000_0000 && x == Start(Encode(p))
    ensures |schedule| == 2 * |Encode(p)| + 8
    ensures n.Run(schedule, x)
         == Some(Sys(SendPingreq(PINGREQ), Broker(AwaitNext(Header), [p]), [], [], Encode(p), CONNACK))
  {
    var a := ConnectPhase(n, p, x);
    var b := ConnackPhase(n, [p], n.Run(a, x).value);
    n.RunAppend(a, b, x);
    PlusNothing(CONNACK);
    schedule := a + b;
  }

  lemma Ping(n: Net<ClientState, Broker>, ps: seq<Packet>, x: System) returns (schedule: seq<Who>)
    requires n == Network(n.capacity) && n.capacity > 0 && x.up == [] && x.down == []
    requires x.c == SendPingreq(PINGREQ) && x.s == Broker(AwaitNext(Header), ps)
    ensures |schedule| == 8
    ensures n.Run(schedule, x)
         == Some(Sys(SendDisconnect(DISCONNECT), Broker(AwaitNext(Header), ps + [PING]), [], [],
                     x.upLog + PINGREQ, x.downLog + PINGRESP))
  {
    var a := PingreqPhase(n, ps, x);
    var b := PingrespPhase(n, ps + [PING], n.Run(a, x).value);
    n.RunAppend(a, b, x);
    schedule := a + b;
  }

  /** One complete schedule: each message handed over in turn. */
  lemma OneSchedule(p: Packet, capacity: nat) returns (schedule: seq<Who>)
    requires p.typ == TYPE_CONNECT && |p.body| < 0x1000_0000 && capacity > 0
    ensures |schedule| == 2 * |Encode(p)| + 20
    ensures Network(capacity).Run(schedule, Start(Encode(p))) == Some(Finish(p))
  {
    var n := Network(capacity);
    var x := Start(Encode(p));
    var a := Greeting(n, p, x);
    var b := Ping(n, [p], n.Run(a, x).value);
    n.RunAppend(a, b, x);
    var c := DisconnectPhase(n, [p] + [PING], n.Run(a + b, x).value);
    n.RunAppend(a + b, c, x);
    schedule := a + b + c;
    assert [p] + [PING] + [BYE] == [p, PING, BYE];
  }

  /** The session and the broker, for every client id whose CONNECT body, 12 or 13 bytes longer, is
      shorter than 2^28 bytes, both protocol versions, every capacity and every schedule: nobody is ever
      stuck before the end, every run takes exactly 2 |CONNECT| + 20 byte moves, and at the end the
      client has returned Ok and the broker has taken in exactly CONNECT, PINGREQ, DISCONNECT. */
  lemma AlwaysSucceeds(clientId: seq<byte>, keepalive: u16, version: Version, capacity: nat)
    requires capacity > 0 && |clientId| + (if version.V5? then 13 else 12) < 0x1000_0000
    ensures var p := ConnectPacket(clientId, keepalive, version);
            Network(capacity).AlwaysEnds(Start(Encode(p)), Finish(p), 2 * |Encode(p)| + 20)
  {
    var p := ConnectPacket(clientId, keepalive, version);
    var schedule := OneSchedule(p, capacity);
    Network(capacity).OneRunIsEnough(schedule, Start(Encode(p)), Finish(p));
  }

  /** The end in numbers: what crossed the wire in each direction, and what the broker took in. */
  lemma FinishInNumbers(p: Packet)
    ensures var x := Finish(p);
            && x.c == Done(true) && x.s.pc == Stopped && x.up == [] && x.down == []
            && x.upLog == Encode(p) + [0xC0, 0x00] + [0xE0, 0x00]
            && x.downLog == [0x20, 0x02, 0x00, 0x00] + [0xD0, 0x00]
            && x.s.packets == [p, Packet(0xC0, []), Packet(0xE0, [])]
  {
  }

  /** The channels of the network hold as many bytes as they should, in every reachable state. */
  lemma ChannelsAreBounded(capacity: nat, connect: seq<byte>, bursts: seq<Burst>)
    requires Network(capacity).RunBursts(bursts, Start(connect)).Some?
    ensures var x := Network(capacity).RunBursts(bursts, Start(connect)).value;
            |x.up| <= capacity && |x.down| <= capacity
  {
    var n := Network(capacity);
    n.BurstsAreMoves(bursts, Start(connect));
    n.StaysBounded(n.Flat(bursts), Start(connect));
  }

  // ---- A CONNECT packet that is too long -----------------------------------------------------------

  /** While an overlong CONNECT is on its way: the broker has taken in part of it and written nothing,
      and the client is still sending or waiting for an answer. */
  ghost predicate Hopeless(connect: seq<byte>, x: System)
  {
    && x.down == []
    && x.s.packets == []
    && exists k: nat, m: nat :: HopelessAt(connect, x, k, m)
  }

  // `k` bytes have reached the broker, `m` have left the client.
  ghost predicate HopelessAt(connect: seq<byte>, x: System, k: nat, m: nat)
  {
    && k <= m <= |connect|
    && x.up == connect[k..m]
    && x.c == (if m == |connect| then AwaitConnack(Header) else SendConnect(connect[m..]))
    && (x.s.pc == Stopped || (x.s.pc.AwaitConnect? && x.s.pc.reader == FeedAll(Header, connect[..k])))
  }

  lemma NeverComplete(connect: seq<byte>, k: nat)
    requires ReadFrame(connect).BadLength? && k <= |connect|
    ensures !FeedAll(Header, connect[..k]).Complete?
  {
    ReaderTakes(connect);
    if k < 5 {
      WantsAt(Header, connect[..5], k);
      assert connect[..5][..k] == connect[..k];
    } else {
      FeedAppend(Header, connect[..5], connect[5..k]);
      FeedOverlong(connect[5..k]);
      assert connect[..5] + connect[5..k] == connect[..k];
    }
  }

  lemma StaysHopeless(connect: seq<byte>, n: Net<ClientState, Broker>, w: Who, x: System)
    requires n == Network(n.capacity) && ReadFrame(connect).BadLength?
    requires Hopeless(connect, x) && n.Enabled(w, x)
    ensures Hopeless(connect, n.Move(w, x))
  {
    var k: nat, m: nat :| HopelessAt(connect, x, k, m);
    match w
    case Client => ClientStaysHopeless(connect, n, x, k, m);
    case Server => BrokerStaysHopeless(connect, n, x, k, m);
  }

  lemma ClientStaysHopeless(connect: seq<byte>, n: Net<ClientState, Broker>, x: System, k: nat, m: nat)
    requires n == Network(n.capacity) && HopelessAt(connect, x, k, m) && x.down == []
    requires n.Enabled(Client, x)
    ensures HopelessAt(connect, n.Move(Client, x), k, m + 1)
  {
    assert connect[k..m] + [connect[m]] == connect[k..m + 1];
  }

  lemma BrokerStaysHopeless(connect: seq<byte>, n: Net<ClientState, Broker>, x: System, k: nat, m: nat)
    requires n == Network(n.capacity) && ReadFrame(connect).BadLength?
    requires HopelessAt(connect, x, k, m) && x.down == [] && x.s.packets == []
    requires n.Enabled(Server, x)
    ensures var y := n.Move(Server, x);
            HopelessAt(connect, y, k + 1, m) && y.down == [] && y.s.packets == []
  {
    assert connect[..k + 1] == connect[..k] + [connect[k]];
    FeedAppend(Header, connect[..k], [connect[k]]);
    NeverComplete(connect, k + 1);
  }

  lemma {:induction false} StaysHopelessForever(
    connect: seq<byte>, n: Net<ClientState, Broker>, schedule: seq<Who>, x: System)
    requires n == Network(n.capacity) && ReadFrame(connect).BadLength?
    requires Hopeless(connect, x) && n.Run(schedule, x).Some?
    ensures Hopeless(connect, n.Run(schedule, x).value)
    decreases |schedule|
  {
    if schedule != [] {
      StaysHopeless(connect, n, schedule[0], x);
      StaysHopelessForever(connect, n, schedule[1..], n.Move(schedule[0], x));
    }
  }

  ghost predicate CanSucceed(n: Net<ClientState, Broker>, x: System)
  {
    exists bursts: seq<Burst> :: n.RunBursts(bursts, x).Some? && n.RunBursts(bursts, x).value.c.Succeeded()
  }

  /** The bound is exact: from 2^28 body bytes on no schedule lets the client return Ok. */
  lemma SucceedsExactlyBelowTheBound(clientId: seq<byte>, keepalive: u16, version: Version, capacity: nat)
    requires capacity > 0
    ensures var p := ConnectPacket(clientId, keepalive, version);
            CanSucceed(Network(capacity), Start(Encode(p))) <==> |p.body| < 0x1000_0000
  {
    var p := ConnectPacket(clientId, keepalive, version);
    var n, connect, x := Network(capacity), Encode(p), Start(Encode(p));
    if |p.body| < 0x1000_0000 {
      var schedule := OneSchedule(p, capacity);
      var bursts := n.Singles(schedule);
      n.SinglesAreMoves(schedule, x);
      assert n.RunBursts(bursts, x).value.c.Succeeded();
    } else {
      FrameRoundTrip(p, []);
      assert connect + [] == connect && connect[0..] == connect;
      assert HopelessAt(connect, x, 0, 0);
      forall bursts: seq<Burst> | n.RunBursts(bursts, x).Some?
        ensures !n.RunBursts(bursts, x).value.c.Succeeded()
      {
        n.BurstsAreMoves(bursts, x);
        StaysHopelessForever(connect, n, n.Flat(bursts), x);
      }
    }
  }
}
