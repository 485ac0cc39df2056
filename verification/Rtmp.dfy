/** The simple RTMP handshake (Adobe RTMP section 5.2.1): zpinger's client, testserver's server, and
    the two of them joined by bounded channels. */
module Rtmp {
  import opened Bytes
  import opened Streams
  import opened Duplex
  import RtmpFill

  const VERSION: byte := 3
  const LEN := 1536

  datatype HandshakeError = Io(e: IoError) | WrongVersion

  /** A whole S0, S1, S2 with the right version. */
  predicate Answered(s: seq<byte>)
  {
    |s| >= 1 + 2 * LEN && s[0] == VERSION
  }

  /** In numbers: version 3 and two blocks of 1536 bytes. */
  lemma AnsweredInNumbers(s: seq<byte>)
    ensures Answered(s) <==> |s| >= 3073 && s[0] == 3
    ensures OtherVersion(s) <==> s != [] && s[0] != 3
  {
  }

  predicate OtherVersion(s: seq<byte>)
  {
    s != [] && s[0] != VERSION
  }

  // ---- The client ------------------------------------------------------------------------------

  /** Everything the handshake does to its stream, in order, when writes fail after `room` bytes. */
  function Events(c1: seq<byte>, s: seq<byte>, room: nat): (es: seq<Event>)
  {
    Outs(Take([VERSION] + c1, room))
    + if room < 1 + |c1| then [] else AnswerEvents(s, room - 1 - |c1|)
  }

  function AnswerEvents(s: seq<byte>, room: nat): (es: seq<Event>)
  {
    Ins(s[..AnswerTaken(s)]) + if Answered(s) then Outs(Take(s[1..1 + LEN], room)) else []
  }

  /** How much of the server's stream the client takes: the version, and if that is right S1 and S2. */
  function AnswerTaken(s: seq<byte>): (n: nat)
    ensures n <= |s|
  {
    if s == [] then 0
    else if s[0] != VERSION then 1
    else if |s| < 1 + 2 * LEN then |s|
    else 1 + 2 * LEN
  }

  /** `run_handshake` on every server stream: it succeeds exactly when the server's version is 3, at
      least 3073 bytes arrive and all 3073 bytes to send can be written; S2 is not looked at. Of the
      failures, those of the version, of writing and of the server's stream are told apart. */
  method RunHandshake(stream: Stream, nanos: bv32) returns (r: Result<(), HandshakeError>)
    requires stream.Valid()
    modifies stream`input, stream`output, stream`room, stream`trace
    ensures stream.Valid()
    ensures r.Ok? <==> Answered(old(stream.input)) && old(stream.room) >= 1 + 2 * LEN
    ensures r == Err(WrongVersion) <==> OtherVersion(old(stream.input)) && old(stream.room) >= 1 + LEN
    ensures r == Err(Io(WriteFailed))
       <==> old(stream.room) < 1 + LEN || (Answered(old(stream.input)) && old(stream.room) < 1 + 2 * LEN)
    ensures r.Err? && r.error.Io? ==> r.error.e == WriteFailed || r.error.e == stream.AtEnd()
    ensures stream.trace == old(stream.trace)
                          + Events(RtmpFill.C1(nanos, RtmpFill.WORDS), old(stream.input), old(stream.room))
  {
    var c1 := RtmpFill.BuildC1(nanos);
    var c0c1 := [VERSION];
    c0c1 := c0c1 + c1[..];
    var sent := stream.WriteAll(c0c1);
    if sent.Err? {
      return Err(Io(sent.error));
    }
    Associative(old(stream.trace), Outs(c0c1), AnswerEvents(stream.input, stream.room));
    r := FinishHandshake(stream);
  }

  /** `run_handshake` from the first read on. */
  method FinishHandshake(stream: Stream) returns (r: Result<(), HandshakeError>)
    requires stream.Valid()
    modifies stream`input, stream`output, stream`room, stream`trace
    ensures stream.Valid()
    ensures r.Ok? <==> Answered(old(stream.input)) && old(stream.room) >= LEN
    ensures r == Err(WrongVersion) <==> OtherVersion(old(stream.input))
    ensures r == Err(Io(WriteFailed)) <==> Answered(old(stream.input)) && old(stream.room) < LEN
    ensures r.Err? && r.error.Io? ==> r.error.e == WriteFailed || r.error.e == stream.AtEnd()
    ensures stream.trace == old(stream.trace) + AnswerEvents(old(stream.input), old(stream.room))
  {
    ghost var s := stream.input;
    var s1 := ReadAnswer(stream);
    if s1.Err? {
      return Err(s1.error);
    }
    Associative(old(stream.trace), Ins(s[..AnswerTaken(s)]), Outs(Take(s1.value, stream.room)));
    var sent := stream.WriteAll(s1.value);
    if sent.Err? {
      return Err(Io(sent.error));
    }
    return Ok(());
  }

  /** The reads of `run_handshake`: S0, S1 and S2, of which S1 is kept. */
  method ReadAnswer(stream: Stream) returns (r: Result<seq<byte>, HandshakeError>)
    requires stream.Valid()
    modifies stream`input, stream`trace
    ensures stream.Valid()
    ensures r.Ok? <==> Answered(old(stream.input))
    ensures r == Err(WrongVersion) <==> OtherVersion(old(stream.input))
    ensures r.Err? ==> r.error == WrongVersion || r.error == Io(stream.AtEnd())
    ensures r.Ok? ==> r.value == old(stream.input)[1..1 + LEN]
    ensures stream.trace == old(stream.trace) + Ins(old(stream.input)[..AnswerTaken(old(stream.input))])
  {
    ghost var s, before := stream.input, stream.trace;
    NothingRead(before, s);
    var s0 := stream.ReadByte(before, s, 0);
    if s0.Err? {
      return Err(Io(s0.error));
    }
    if s0.value != VERSION {
      return Err(WrongVersion);
    }
    var s1 := stream.ReadNext(LEN, before, s, 1);
    if s1.Err? {
      return Err(Io(s1.error));
    }
    var s2 := stream.ReadNext(LEN, before, s, 1 + LEN);
    if s2.Err? {
      return Err(Io(s2.error));
    }
    return Ok(s1.value);
  }

  /** The first byte the client sends is a 3. */
  lemma HelloInNumbers(c1: seq<byte>, s: seq<byte>, room: nat)
    requires |c1| == 1536
    ensures Take(Written(Events(c1, s, room)), 1537) == Take([3] + c1, room)
  {
    HandshakeOutput(c1, s, room);
  }

  /** In every run the client writes C0, C1 and then, once S0, S1, S2 are in, the S1 it was sent. */
  lemma HandshakeOutput(c1: seq<byte>, s: seq<byte>, room: nat)
    ensures Written(Events(c1, s, room)) == Take([VERSION] + c1 + (if Answered(s) then s[1..1 + LEN] else []), room)
  {
    var hello := [VERSION] + c1;
    if room >= |hello| {
      AnswerOutput(s, room - |hello|);
    }
    PhaseOutput(hello, room, if room < |hello| then [] else AnswerEvents(s, room - |hello|),
                if Answered(s) then s[1..1 + LEN] else []);
  }

  lemma AnswerOutput(s: seq<byte>, room: nat)
    ensures Written(AnswerEvents(s, room)) == if Answered(s) then Take(s[1..1 + LEN], room) else []
  {
    ReadingOutput(s[..AnswerTaken(s)], if Answered(s) then Outs(Take(s[1..1 + LEN], room)) else []);
    if Answered(s) {
      WrittenOuts(Take(s[1..1 + LEN], room));
    }
  }

  // The client between two bytes.
  datatype ClientState =
    | SendC0C1(rest: seq<byte>)
    | ReadS0
    | ReadS1(got: seq<byte>)
    | ReadS2(s1: seq<byte>, got: seq<byte>)
    | SendC2(rest: seq<byte>, s2: seq<byte>)
    | Succeeded(s2: seq<byte>)
    | Failed

  function ClientStep(c: ClientState): (a: Act<ClientState>)
  {
    match c
    case SendC0C1(rest) =>
      if rest == [] then Halt
      else Send(rest[0], if |rest| == 1 then ReadS0 else SendC0C1(rest[1..]))
    case ReadS0 => Receive(b => if b == VERSION then ReadS1([]) else Failed)
    case ReadS1(got) =>
      Receive(b => if |got| + 1 == LEN then ReadS2(got + [b], []) else ReadS1(got + [b]))
    case ReadS2(s1, got) =>
      Receive(b => if |got| + 1 == LEN then SendC2(s1, got + [b]) else ReadS2(s1, got + [b]))
    case SendC2(rest, s2) =>
      if rest == [] then Halt
      else Send(rest[0], if |rest| == 1 then Succeeded(s2) else SendC2(rest[1..], s2))
    case Succeeded(_) => Halt
    case Failed => Halt
  }

  lemma PlayC0C1(bs: seq<byte>, k: nat)
    requires bs != [] && k <= |bs|
    ensures Play(ClientStep, SendC0C1(bs), Outs(bs[..k])) == Some(if k == |bs| then ReadS0 else SendC0C1(bs[k..]))
  {
    PlaySend(ClientStep, rest => SendC0C1(rest), ReadS0, bs, k);
  }

  lemma PlayC2(bs: seq<byte>, s2: seq<byte>, k: nat)
    requires bs != [] && k <= |bs|
    ensures Play(ClientStep, SendC2(bs, s2), Outs(bs[..k]))
         == Some(if k == |bs| then Succeeded(s2) else SendC2(bs[k..], s2))
  {
    PlaySend(ClientStep, rest => SendC2(rest, s2), Succeeded(s2), bs, k);
  }

  lemma PlayS1(bs: seq<byte>)
    requires |bs| <= LEN
    ensures Play(ClientStep, ReadS1([]), Ins(bs)) == Some(if |bs| == LEN then ReadS2(bs, []) else ReadS1(bs))
  {
    PlayCollect(ClientStep, got => ReadS1(got), LEN, got => ReadS2(got, []), [], bs);
    PlusNothing(bs);
  }

  lemma PlayS2(s1: seq<byte>, bs: seq<byte>)
    requires |bs| <= LEN
    ensures Play(ClientStep, ReadS2(s1, []), Ins(bs)) == Some(if |bs| == LEN then SendC2(s1, bs) else ReadS2(s1, bs))
  {
    PlayCollect(ClientStep, got => ReadS2(s1, got), LEN, got => SendC2(s1, got), [], bs);
    PlusNothing(bs);
  }

  /** The client reading a whole or unfinished S0, S1, S2. */
  lemma PlayAnswer(s: seq<byte>)
    requires 0 < |s| <= 1 + 2 * LEN && s[0] == VERSION
    ensures Play(ClientStep, ReadS0, Ins(s))
         == Some(if |s| < 1 + LEN then ReadS1(s[1..])
                 else if |s| < 1 + 2 * LEN then ReadS2(s[1..1 + LEN], s[1 + LEN..])
                 else SendC2(s[1..1 + LEN], s[1 + LEN..]))
  {
    var t := s[1..];
    assert Ins(s)[1..] == Ins(t);
    if |t| < LEN {
      PlayS1(t);
    } else {
      PlayS1(t[..LEN]);
      PlayS2(t[..LEN], t[LEN..]);
      assert Ins(t) == Ins(t[..LEN]) + Ins(t[LEN..]);
      PlayAppend(ClientStep, ReadS1([]), Ins(t[..LEN]), Ins(t[LEN..]));
      assert t[..LEN] == s[1..1 + LEN] && t[LEN..] == s[1 + LEN..];
    }
  }

  /** Every handshake, failing ones included, is the one maximal run of the byte-at-a-time client on the
      same stream, and ends in success exactly when the handshake does. */
  lemma HandshakeIsARun(c1: seq<byte>, s: seq<byte>, room: nat) returns (end: ClientState)
    requires |c1| == LEN
    ensures MaximalRun(ClientStep, SendC0C1([VERSION] + c1), Events(c1, s, room), s, room, end)
    ensures end.Succeeded? <==> Answered(s) && room >= 1 + 2 * LEN
    ensures end.Succeeded? ==> end.s2 == s[1 + LEN..1 + 2 * LEN]
    ensures end == Failed <==> OtherVersion(s) && room >= 1 + LEN
  {
    var hello := [VERSION] + c1;
    var sent := Take(hello, room);
    PlayC0C1(hello, |sent|);
    PlusNothing(hello);
    if room < |hello| {
      end := SendC0C1(hello[room..]);
      WritePhase(ClientStep, SendC0C1(hello), hello, end, [], s, room, end);
    } else {
      end := AnswerIsARun(s, room - |hello|);
      WritePhase(ClientStep, SendC0C1(hello), hello, ReadS0, AnswerEvents(s, room - |hello|), s, room, end);
    }
  }

  lemma AnswerIsARun(s: seq<byte>, room: nat) returns (end: ClientState)
    ensures MaximalRun(ClientStep, ReadS0, AnswerEvents(s, room), s, room, end)
    ensures end.Succeeded? <==> Answered(s) && room >= LEN
    ensures end.Succeeded? ==> end.s2 == s[1 + LEN..1 + 2 * LEN]
    ensures end == Failed <==> OtherVersion(s)
  {
    var k, rest := AnswerTaken(s), s[AnswerTaken(s)..];
    var l := AfterAnswer(s);
    if Answered(s) {
      end := EchoIsARun(s[1..1 + LEN], l.s2, rest, room);
      ReadPhase(ClientStep, ReadS0, k, l, Outs(Take(s[1..1 + LEN], room)), s, room, end);
    } else {
      end := l;
      AtRest(ClientStep, end, rest, room);
      ReadPhase(ClientStep, ReadS0, k, l, [], s, room, end);
    }
  }

  /** Where the client stands after the bytes it takes of the answer. */
  lemma AfterAnswer(s: seq<byte>) returns (l: ClientState)
    ensures Play(ClientStep, ReadS0, Ins(s[..AnswerTaken(s)])) == Some(l)
    ensures if Answered(s) then l == SendC2(s[1..1 + LEN], s[1 + LEN..1 + 2 * LEN])
            else if OtherVersion(s) then l == Failed
            else ClientStep(l).Receive? && AnswerTaken(s) == |s|
  {
    var taken := s[..AnswerTaken(s)];
    if s == [] {
      l := ReadS0;
    } else if s[0] != VERSION {
      assert Ins(taken)[1..] == [];
      l := Failed;
    } else {
      PlayAnswer(taken);
      l := Play(ClientStep, ReadS0, Ins(taken)).value;
      if Answered(s) {
        InPrefix(s, 1, 1 + LEN, 1 + 2 * LEN);
        assert taken[1 + LEN..] == s[1 + LEN..1 + 2 * LEN];
      }
    }
  }

  lemma EchoIsARun(c2: seq<byte>, s2: seq<byte>, s: seq<byte>, room: nat) returns (end: ClientState)
    requires c2 != []
    ensures MaximalRun(ClientStep, SendC2(c2, s2), Outs(Take(c2, room)), s, room, end)
    ensures if room >= |c2| then end == Succeeded(s2) else end.SendC2?
  {
    var sent := Take(c2, room);
    PlayC2(c2, s2, |sent|);
    PlusNothing(c2);
    end := if room < |c2| then SendC2(c2[room..], s2) else Succeeded(s2);
    WriteLast(ClientStep, SendC2(c2, s2), c2, end, s, room);
  }

  // ---- The server ------------------------------------------------------------------------------

  /** S0, S1 and S2. */
  function Answer(s1: seq<byte>, c1: seq<byte>): (reply: seq<byte>)
    ensures |reply| == 1 + |s1| + |c1|
  {
    [VERSION] + s1 + c1
  }

  function ServerEvents(s1: seq<byte>, s: seq<byte>, room: nat): (es: seq<Event>)
  {
    if s == [] then []
    else if s[0] != VERSION then Ins(s[..1])
    else if |s| < 1 + LEN then Ins(s)
    else
      Ins(s[..1 + LEN]) + ReplyEvents(Answer(s1, s[1..1 + LEN]), s[1 + LEN..], room)
  }

  function ReplyEvents(reply: seq<byte>, s: seq<byte>, room: nat): (es: seq<Event>)
  {
    Outs(Take(reply, room)) + if room < |reply| then [] else Ins(Take(s, LEN))
  }

  /** The C2 that arrives: only behind a whole C0 and C1, and only if the answer could be written. */
  function C2Of(s: seq<byte>, room: nat): (c2: Option<seq<byte>>)
  {
    if Answered(s) && room >= 1 + 2 * LEN then Some(s[1 + LEN..1 + 2 * LEN]) else None
  }

  lemma C2Behind(s: seq<byte>)
    requires |s| >= 1 + 2 * LEN
    ensures s[1 + LEN..][..LEN] == s[1 + LEN..1 + 2 * LEN]
  {
  }

  /** The connection body of `start_rtmp_ok`, for any S1; it returns the C2 it received, if complete. */
  method Serve(stream: Stream, s1: seq<byte>) returns (c2: Option<seq<byte>>)
    requires stream.Valid() && |s1| == LEN
    modifies stream`input, stream`output, stream`room, stream`trace
    ensures stream.Valid()
    ensures stream.trace == old(stream.trace) + ServerEvents(s1, old(stream.input), old(stream.room))
    ensures c2 == C2Of(old(stream.input), old(stream.room))
  {
    ghost var s, before := stream.input, stream.trace;
    NothingRead(before, s);
    var c0 := stream.ReadByte(before, s, 0);
    if c0.Err? || c0.value != VERSION {
      return None;
    }
    var c1 := stream.ReadNext(LEN, before, s, 1);
    if c1.Err? {
      return None;
    }
    var out := [VERSION];
    out := out + s1;
    out := out + c1.value;
    Associative(before, Ins(s[..1 + LEN]), ReplyEvents(out, s[1 + LEN..], stream.room));
    c2 := SendReply(stream, out);
    if |s| >= 1 + 2 * LEN {
      C2Behind(s);
    }
  }

  /** The rest of the connection body: send the answer, read C2. */
  method SendReply(stream: Stream, out: seq<byte>) returns (c2: Option<seq<byte>>)
    requires stream.Valid()
    modifies stream`input, stream`output, stream`room, stream`trace
    ensures stream.Valid()
    ensures stream.trace == old(stream.trace) + ReplyEvents(out, old(stream.input), old(stream.room))
    ensures c2.Some? <==> |old(stream.input)| >= LEN && old(stream.room) >= |out|
    ensures c2.Some? ==> c2.value == old(stream.input)[..LEN]
  {
    ghost var s := stream.input;
    var sent := stream.WriteAll(out);
    if sent.Err? {
      return None;
    }
    Associative(old(stream.trace), Outs(out), Ins(Take(s, LEN)));
    var last := stream.ReadExact(LEN);
    return match last case Ok(bytes) => Some(bytes) case Err(_) => None;
  }

  datatype ServerPc =
    | ReadC0
    | ReadC1(got: seq<byte>)
    | Reply(rest: seq<byte>)
    | ReadC2(got: seq<byte>)
    | Closed(c2: Option<seq<byte>>)

  // The server between two bytes, and the S1 it uses.
  datatype ServerState = Peer(s1: seq<byte>, pc: ServerPc)

  function ServerStep(s: ServerState): (a: Act<ServerState>)
  {
    match s.pc
    case ReadC0 => Receive(b => s.(pc := if b == VERSION then ReadC1([]) else Closed(None)))
    case ReadC1(got) =>
      Receive(b => s.(pc := if |got| + 1 == LEN then Reply(Answer(s.s1, got + [b])) else ReadC1(got + [b])))
    case Reply(rest) =>
      if rest == [] then Halt
      else Send(rest[0], s.(pc := if |rest| == 1 then ReadC2([]) else Reply(rest[1..])))
    case ReadC2(got) =>
      Receive(b => s.(pc := if |got| + 1 == LEN then Closed(Some(got + [b])) else ReadC2(got + [b])))
    case Closed(_) => Halt
  }

  lemma PlayC1In(s1: seq<byte>, bs: seq<byte>)
    requires |bs| <= LEN
    ensures Play(ServerStep, Peer(s1, ReadC1([])), Ins(bs))
         == Some(Peer(s1, if |bs| == LEN then Reply(Answer(s1, bs)) else ReadC1(bs)))
  {
    var reading := (got: seq<byte>) => Peer(s1, ReadC1(got));
    var after := (got: seq<byte>) => Peer(s1, Reply(Answer(s1, got)));
    assert Collects(ServerStep, reading, LEN, after);
    PlayCollect(ServerStep, reading, LEN, after, [], bs);
    PlusNothing(bs);
  }

  lemma PlayReply(s1: seq<byte>, reply: seq<byte>, k: nat)
    requires reply != [] && k <= |reply|
    ensures Play(ServerStep, Peer(s1, Reply(reply)), Outs(reply[..k]))
         == Some(Peer(s1, if k == |reply| then ReadC2([]) else Reply(reply[k..])))
  {
    PlaySend(ServerStep, rest => Peer(s1, Reply(rest)), Peer(s1, ReadC2([])), reply, k);
  }

  lemma PlayC2In(s1: seq<byte>, bs: seq<byte>)
    requires |bs| <= LEN
    ensures Play(ServerStep, Peer(s1, ReadC2([])), Ins(bs))
         == Some(Peer(s1, if |bs| == LEN then Closed(Some(bs)) else ReadC2(bs)))
  {
    PlayCollect(ServerStep, got => Peer(s1, ReadC2(got)), LEN, got => Peer(s1, Closed(Some(got))), [], bs);
    PlusNothing(bs);
  }

  lemma PlayC0C1In(s1: seq<byte>, c1: seq<byte>)
    requires |c1| == LEN
    ensures Play(ServerStep, Peer(s1, ReadC0), Ins([VERSION] + c1)) == Some(Peer(s1, Reply(Answer(s1, c1))))
  {
    PlayC1In(s1, c1);
    assert Ins([VERSION] + c1)[1..] == Ins(c1);
  }

  /** Every connection is the one maximal run of the byte-at-a-time server on the same stream, which ends
      holding exactly the C2 that the connection body has received. */
  lemma ServeIsARun(s1: seq<byte>, s: seq<byte>, room: nat) returns (end: ServerState)
    requires |s1| == LEN
    ensures MaximalRun(ServerStep, Peer(s1, ReadC0), ServerEvents(s1, s, room), s, room, end)
    ensures (match end.pc case Closed(c2) => c2 case _ => None) == C2Of(s, room)
  {
    var start := Peer(s1, ReadC0);
    if s == [] {
      end := start;
      AtRest(ServerStep, end, s, room);
    } else if |s| < 1 + LEN || s[0] != VERSION {
      end := UnansweredIsARun(s1, s, room);
    } else {
      var k, c1, rest := 1 + LEN, s[1..1 + LEN], s[1 + LEN..];
      var reply := Answer(s1, c1);
      assert s[..k] == [VERSION] + c1;
      PlayC0C1In(s1, c1);
      end := ReplyIsARun(s1, reply, rest, room);
      if |s| >= 1 + 2 * LEN {
        C2Behind(s);
      }
      ReadPhase(ServerStep, start, k, Peer(s1, Reply(reply)), ReplyEvents(reply, rest, room), s, room, end);
    }
  }

  /** A connection with the wrong version, or without a whole C1. */
  lemma UnansweredIsARun(s1: seq<byte>, s: seq<byte>, room: nat) returns (end: ServerState)
    requires s != [] && (|s| < 1 + LEN || s[0] != VERSION)
    ensures MaximalRun(ServerStep, Peer(s1, ReadC0), ServerEvents(s1, s, room), s, room, end)
    ensures end.pc == Closed(None) || end.pc.ReadC1?
  {
    var k := if s[0] != VERSION then 1 else |s|;
    var taken := s[..k];
    if s[0] != VERSION {
      end := Peer(s1, Closed(None));
      assert Ins(taken)[1..] == [];
    } else {
      end := Peer(s1, ReadC1(s[1..]));
      PlayC1In(s1, s[1..]);
      assert Ins(taken)[1..] == Ins(s[1..]);
    }
    PlusNothing(s);
    PlusNothing(Ins(taken));
    AtRest(ServerStep, end, s[k..], room);
    ReadPhase(ServerStep, Peer(s1, ReadC0), k, end, [], s, room, end);
  }

  lemma ReplyIsARun(s1: seq<byte>, reply: seq<byte>, s: seq<byte>, room: nat) returns (end: ServerState)
    requires reply != []
    ensures MaximalRun(ServerStep, Peer(s1, Reply(reply)), ReplyEvents(reply, s, room), s, room, end)
    ensures (match end.pc case Closed(c2) => c2 case _ => None)
         == if room >= |reply| && |s| >= LEN then Some(s[..LEN]) else None
  {
    var sent := Take(reply, room);
    PlayReply(s1, reply, |sent|);
    PlusNothing(reply);
    if room < |reply| {
      end := Peer(s1, Reply(reply[room..]));
      WritePhase(ServerStep, Peer(s1, Reply(reply)), reply, end, [], s, room, end);
    } else {
      end := C2IsARun(s1, s, room - |reply|);
      WritePhase(ServerStep, Peer(s1, Reply(reply)), reply, Peer(s1, ReadC2([])), Ins(Take(s, LEN)), s, room, end);
    }
  }

  lemma C2IsARun(s1: seq<byte>, s: seq<byte>, room: nat) returns (end: ServerState)
    ensures MaximalRun(ServerStep, Peer(s1, ReadC2([])), Ins(Take(s, LEN)), s, room, end)
    ensures end.pc == if |s| >= LEN then Closed(Some(s[..LEN])) else ReadC2(s)
  {
    var last := Take(s, LEN);
    end := Peer(s1, if |s| >= LEN then Closed(Some(s[..LEN])) else ReadC2(s));
    PlayC2In(s1, last);
    PlusNothing(Ins(last));
    PlusNothing(s);
    AtRest(ServerStep, end, s[|last|..], room);
    ReadPhase(ServerStep, Peer(s1, ReadC2([])), |last|, end, [], s, room, end);
  }

  // ---- Both together ---------------------------------------------------------------------------

  type System = Sys<ClientState, ServerState>

  function Network(capacity: nat): (n: Net<ClientState, ServerState>)
  {
    Net(ClientStep, ServerStep, capacity)
  }

  function Start(c1: seq<byte>, s1: seq<byte>): (x: System)
  {
    Sys(SendC0C1([VERSION] + c1), Peer(s1, ReadC0), [], [], [], [])
  }

  /** The client has succeeded holding its own C1 as S2, the server has received its own S1 as C2, and
      what crossed the wire is C0 C1 C2 one way and S0 S1 S2 the other. */
  function Finish(c1: seq<byte>, s1: seq<byte>): (x: System)
  {
    Sys(Succeeded(c1), Peer(s1, Closed(Some(s1))), [], [], [VERSION] + c1 + s1, [VERSION] + s1 + c1)
  }

  lemma OneSchedule(c1: seq<byte>, s1: seq<byte>, capacity: nat) returns (schedule: seq<Who>)
    requires |c1| == |s1| == LEN && capacity > 0
    ensures |schedule| == 4 * 3073
    ensures Network(capacity).Run(schedule, Start(c1, s1)) == Some(Finish(c1, s1))
  {
    var n, x := Network(capacity), Start(c1, s1);
    var reply := Answer(s1, c1);
    var a := HelloPhase(n, c1, s1, x);
    var b := ReplyPhase(n, c1, s1, n.Run(a, x).value);
    n.RunAppend(a, b, x);
    var c := EchoPhase(n, c1, s1, n.Run(a + b, x).value);
    n.RunAppend(a + b, c, x);
    schedule := a + b + c;
    assert [] + reply == reply;
  }

  lemma HelloPhase(n: Net<ClientState, ServerState>, c1: seq<byte>, s1: seq<byte>, x: System)
    returns (schedule: seq<Who>)
    requires n == Network(n.capacity) && n.capacity > 0 && |c1| == LEN && x == Start(c1, s1)
    ensures |schedule| == 2 * 1537
    ensures n.Run(schedule, x)
         == Some(x.(c := ReadS0, s := Peer(s1, Reply(Answer(s1, c1))), upLog := [VERSION] + c1))
  {
    var hello := [VERSION] + c1;
    PlayC0C1(hello, |hello|);
    PlayC0C1In(s1, c1);
    assert hello[..|hello|] == hello && [] + hello == hello;
    schedule := n.Upload(hello, x, ReadS0, Peer(s1, Reply(Answer(s1, c1))));
  }

  lemma ReplyPhase(n: Net<ClientState, ServerState>, c1: seq<byte>, s1: seq<byte>, x: System)
    returns (schedule: seq<Who>)
    requires n == Network(n.capacity) && n.capacity > 0 && |c1| == |s1| == LEN && x.down == []
    requires x.c == ReadS0 && x.s == Peer(s1, Reply(Answer(s1, c1)))
    ensures |schedule| == 2 * 3073
    ensures n.Run(schedule, x)
         == Some(x.(c := SendC2(s1, c1), s := Peer(s1, ReadC2([])), downLog := x.downLog + Answer(s1, c1)))
  {
    var reply := Answer(s1, c1);
    PlayAnswer(reply);
    PlayReply(s1, reply, |reply|);
    assert reply[..|reply|] == reply;
    assert reply[1..1 + LEN] == s1 && reply[1 + LEN..] == c1;
    schedule := n.Download(reply, x, SendC2(s1, c1), Peer(s1, ReadC2([])));
  }

  lemma EchoPhase(n: Net<ClientState, ServerState>, c1: seq<byte>, s1: seq<byte>, x: System)
    returns (schedule: seq<Who>)
    requires n == Network(n.capacity) && n.capacity > 0 && |s1| == LEN && x.up == []
    requires x.c == SendC2(s1, c1) && x.s == Peer(s1, ReadC2([]))
    ensures |schedule| == 2 * LEN
    ensures n.Run(schedule, x)
         == Some(x.(c := Succeeded(c1), s := Peer(s1, Closed(Some(s1))), upLog := x.upLog + s1))
  {
    PlayC2(s1, c1, LEN);
    PlayC2In(s1, s1);
    assert s1[..LEN] == s1;
    schedule := n.Upload(s1, x, Succeeded(c1), Peer(s1, Closed(Some(s1))));
  }

  /** For every C1, every S1, every capacity and every schedule: nobody is ever stuck before the end,
      every run moves exactly 3073 bytes into and out of each channel, and at the end the client has
      succeeded, S2 is its C1 and the C2 that arrived is the server's S1. */
  lemma AlwaysSucceeds(c1: seq<byte>, s1: seq<byte>, capacity: nat)
    requires |c1| == |s1| == LEN && capacity > 0
    ensures Network(capacity).AlwaysEnds(Start(c1, s1), Finish(c1, s1), 4 * 3073)
    ensures |Finish(c1, s1).upLog| == |Finish(c1, s1).downLog| == 3073
  {
    var schedule := OneSchedule(c1, s1, capacity);
    Network(capacity).OneRunIsEnough(schedule, Start(c1, s1), Finish(c1, s1));
  }
}
