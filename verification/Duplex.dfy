/** Two sequential processes joined by a pair of bounded byte channels.

    Each process is deterministic: in every local state it is halted, or offers one particular byte,
    or waits for one. The scheduler is free. Because the two kinds of move commute, one complete
    schedule settles the matter for all of them: every schedule is finite, none gets stuck early,
    and all of them end in the same state. */
module Duplex {
  import opened Bytes
  import opened Streams

  // What a process does next.
  datatype Act<L> = Halt | Send(b: byte, next: L) | Receive(next': byte -> L)

  datatype Who = Client | Server

  // The two local states, the bytes in flight in each direction, and all bytes ever sent.
  datatype Sys<A, B> = Sys(c: A, s: B, up: seq<byte>, down: seq<byte>, upLog: seq<byte>, downLog: seq<byte>)

  // One scheduling decision at the level of system calls: a process moves `n` bytes at once.
  datatype Burst = Burst(who: Who, n: nat)

  datatype Net<!A, !B> = Net(client: A -> Act<A>, server: B -> Act<B>, capacity: nat) {

    ghost predicate Enabled(w: Who, x: Sys<A, B>)
    {
      match w
      case Client =>
        (match client(x.c)
         case Halt => false
         case Send(_, _) => |x.up| < capacity
         case Receive(_) => x.down != [])
      case Server =>
        (match server(x.s)
         case Halt => false
         case Send(_, _) => |x.down| < capacity
         case Receive(_) => x.up != [])
    }

    ghost function Move(w: Who, x: Sys<A, B>): (y: Sys<A, B>)
      requires Enabled(w, x)
    {
      match w
      case Client =>
        (match client(x.c)
         case Send(b, next) => x.(c := next, up := x.up + [b], upLog := x.upLog + [b])
         case Receive(next) => x.(c := next(x.down[0]), down := x.down[1..]))
      case Server =>
        (match server(x.s)
         case Send(b, next) => x.(s := next, down := x.down + [b], downLog := x.downLog + [b])
         case Receive(next) => x.(s := next(x.up[0]), up := x.up[1..]))
    }

    ghost predicate Stuck(x: Sys<A, B>)
    {
      !Enabled(Client, x) && !Enabled(Server, x)
    }

    /** The state a schedule of single-byte moves leads to, if every one of them is possible. */
    ghost function Run(schedule: seq<Who>, x: Sys<A, B>): (y: Option<Sys<A, B>>)
      decreases |schedule|
    {
      if schedule == [] then Some(x)
      else if Enabled(schedule[0], x) then Run(schedule[1..], Move(schedule[0], x))
      else None
    }

    ghost function RunBursts(bursts: seq<Burst>, x: Sys<A, B>): (y: Option<Sys<A, B>>)
      decreases |bursts|
    {
      if bursts == [] then Some(x)
      else
        match Run(seq(bursts[0].n, _ => bursts[0].who), x)
        case Some(y) => RunBursts(bursts[1..], y)
        case None => None
    }

    /** The bytes a process has taken in so far are the first of those its peer has sent, in order: what is
        in flight is what is still missing. And no channel ever holds more than it can. */
    ghost predicate InOrder(x: Sys<A, B>, taken: seq<byte>, given: seq<byte>)
    {
      && |x.up| <= capacity && |x.down| <= capacity
      && x.upLog == taken + x.up && x.downLog == given + x.down
    }

    lemma MoveKeepsOrder(w: Who, x: Sys<A, B>, taken: seq<byte>, given: seq<byte>)
      requires Enabled(w, x) && InOrder(x, taken, given)
      ensures var y := Move(w, x);
              match w
              case Client => InOrder(y, taken, if client(x.c).Receive? then given + [x.down[0]] else given)
              case Server => InOrder(y, if server(x.s).Receive? then taken + [x.up[0]] else taken, given)
    {
      if w == Client && client(x.c).Receive? {
        assert given + x.down == given + [x.down[0]] + x.down[1..];
      }
      if w == Server && server(x.s).Receive? {
        assert taken + x.up == taken + [x.up[0]] + x.up[1..];
      }
    }

    lemma {:induction false} StaysBounded(schedule: seq<Who>, x: Sys<A, B>)
      requires Run(schedule, x).Some? && |x.up| <= capacity && |x.down| <= capacity
      ensures var y := Run(schedule, x).value; |y.up| <= capacity && |y.down| <= capacity
      decreases |schedule|
    {
      if schedule != [] {
        StaysBounded(schedule[1..], Move(schedule[0], x));
      }
    }

    /** Moves of the two processes commute and do not disable each other. */
    lemma Diamond(x: Sys<A, B>)
      requires Enabled(Client, x) && Enabled(Server, x)
      ensures Enabled(Server, Move(Client, x)) && Enabled(Client, Move(Server, x))
      ensures Move(Server, Move(Client, x)) == Move(Client, Move(Server, x))
    {
      var a, b := Move(Client, x), Move(Server, x);
      if client(x.c).Send? && server(x.s).Receive? {
        assert a.up[1..] == b.up + [client(x.c).b];
      } else if client(x.c).Receive? && server(x.s).Send? {
        assert b.down[1..] == a.down + [server(x.s).b];
      }
    }

    /** Whatever can move now, a schedule leading to a stuck state can be rearranged to move it first. */
    lemma {:induction false} MoveFirst(schedule: seq<Who>, x: Sys<A, B>, w: Who) returns (rest: seq<Who>)
      requires Enabled(w, x) && Run(schedule, x).Some? && Stuck(Run(schedule, x).value)
      ensures |rest| == |schedule| - 1 && Run(rest, Move(w, x)) == Run(schedule, x)
      decreases |schedule|
    {
      if schedule[0] == w {
        rest := schedule[1..];
      } else {
        Diamond(x);
        rest := MoveFirst(schedule[1..], Move(schedule[0], x), w);
        rest := [schedule[0]] + rest;
      }
    }

    /** Confluence: a partial schedule can always be completed to the one stuck end, in exactly the
        number of moves that are missing. */
    lemma {:induction false} Completes(full: seq<Who>, part: seq<Who>, x: Sys<A, B>) returns (rest: seq<Who>)
      requires Run(full, x).Some? && Stuck(Run(full, x).value)
      requires Run(part, x).Some?
      ensures |part| + |rest| == |full|
      ensures Run(rest, Run(part, x).value) == Run(full, x)
      decreases |part|
    {
      if part == [] {
        rest := full;
      } else {
        var full' := MoveFirst(full, x, part[0]);
        rest := Completes(full', part[1..], Move(part[0], x));
      }
    }

    ghost function Flat(bursts: seq<Burst>): (schedule: seq<Who>)
    {
      if bursts == [] then [] else seq(bursts[0].n, _ => bursts[0].who) + Flat(bursts[1..])
    }

    lemma {:induction false} RunAppend(a: seq<Who>, b: seq<Who>, x: Sys<A, B>)
      ensures Run(a + b, x) == if Run(a, x).Some? then Run(b, Run(a, x).value) else None
      decreases |a|
    {
      if a == [] {
        assert a + b == b;
      } else {
        assert (a + b)[1..] == a[1..] + b;
        if Enabled(a[0], x) {
          RunAppend(a[1..], b, Move(a[0], x));
        }
      }
    }

    lemma {:induction false} BurstsAreMoves(bursts: seq<Burst>, x: Sys<A, B>)
      ensures RunBursts(bursts, x) == Run(Flat(bursts), x)
      decreases |bursts|
    {
      if bursts != [] {
        var first := seq(bursts[0].n, _ => bursts[0].who);
        RunAppend(first, Flat(bursts[1..]), x);
        if Run(first, x).Some? {
          BurstsAreMoves(bursts[1..], Run(first, x).value);
        }
      }
    }

    /** The same schedule, one byte a call. */
    ghost function Singles(schedule: seq<Who>): (bursts: seq<Burst>)
    {
      if schedule == [] then [] else [Burst(schedule[0], 1)] + Singles(schedule[1..])
    }

    lemma {:induction false} SinglesAreMoves(schedule: seq<Who>, x: Sys<A, B>)
      ensures RunBursts(Singles(schedule), x) == Run(schedule, x)
    {
      BurstsAreMoves(Singles(schedule), x);
      FlatSingles(schedule);
    }

    lemma {:induction false} FlatSingles(schedule: seq<Who>)
      ensures Flat(Singles(schedule)) == schedule
    {
      if schedule != [] {
        FlatSingles(schedule[1..]);
        var bursts := Singles(schedule);
        assert bursts[1..] == Singles(schedule[1..]);
        assert seq(bursts[0].n, _ => bursts[0].who) == [schedule[0]];
      }
    }

    /** From `x` every schedule, cut into system calls in any way, ends in `end` after `n` byte moves:
        it never takes more moves, it is never stuck anywhere else, and it can always go on to `end`. */
    ghost predicate AlwaysEnds(x: Sys<A, B>, end: Sys<A, B>, n: nat)
    {
      forall bursts: seq<Burst> | RunBursts(bursts, x).Some? ::
        var y := RunBursts(bursts, x).value;
        && |Flat(bursts)| <= n
        && (Stuck(y) <==> y == end)
        && (Stuck(y) <==> |Flat(bursts)| == n)
        && CanReach(y, end, n - |Flat(bursts)|)
    }

    ghost predicate CanReach(x: Sys<A, B>, y: Sys<A, B>, n: nat)
    {
      exists schedule: seq<Who> :: |schedule| == n && Run(schedule, x) == Some(y)
    }

    /** One complete schedule is enough. */
    lemma OneRunIsEnough(full: seq<Who>, x: Sys<A, B>, end: Sys<A, B>)
      requires Run(full, x) == Some(end) && Stuck(end)
      ensures AlwaysEnds(x, end, |full|)
    {
      forall bursts: seq<Burst> | RunBursts(bursts, x).Some?
        ensures var y := RunBursts(bursts, x).value;
                && |Flat(bursts)| <= |full|
                && (Stuck(y) <==> y == end)
                && (Stuck(y) <==> |Flat(bursts)| == |full|)
                && CanReach(y, end, |full| - |Flat(bursts)|)
      {
        BurstsAreMoves(bursts, x);
        var rest := Completes(full, Flat(bursts), x);
      }
    }

    // ---- Building the one schedule: whole messages, handed over byte by byte -----------------

    /** The client hands `bs` to the server, which takes each byte at once; this fits any capacity. */
    lemma {:induction false} Upload(bs: seq<byte>, x: Sys<A, B>, c': A, s': B) returns (schedule: seq<Who>)
      requires capacity > 0 && x.up == []
      requires Play(client, x.c, Outs(bs)) == Some(c') && Play(server, x.s, Ins(bs)) == Some(s')
      ensures |schedule| == 2 * |bs|
      ensures Run(schedule, x) == Some(x.(c := c', s := s', upLog := x.upLog + bs))
      decreases |bs|
    {
      if bs == [] {
        schedule := [];
        assert x.upLog + bs == x.upLog;
      } else {
        PlayStep(client, x.c, Outs(bs), Outs(bs[1..]));
        PlayStep(server, x.s, Ins(bs), Ins(bs[1..]));
        var y := Move(Client, x);
        var z := Move(Server, y);
        assert z.up == [];
        var rest := Upload(bs[1..], z, c', s');
        schedule := [Client, Server] + rest;
        assert schedule[1..][1..] == rest && schedule[1..][0] == Server;
        assert x.upLog + [bs[0]] + bs[1..] == x.upLog + bs;
      }
    }

    /** The same in the other direction. */
    lemma {:induction false} Download(bs: seq<byte>, x: Sys<A, B>, c': A, s': B) returns (schedule: seq<Who>)
      requires capacity > 0 && x.down == []
      requires Play(client, x.c, Ins(bs)) == Some(c') && Play(server, x.s, Outs(bs)) == Some(s')
      ensures |schedule| == 2 * |bs|
      ensures Run(schedule, x) == Some(x.(c := c', s := s', downLog := x.downLog + bs))
      decreases |bs|
    {
      if bs == [] {
        schedule := [];
        assert x.downLog + bs == x.downLog;
      } else {
        PlayStep(client, x.c, Ins(bs), Ins(bs[1..]));
        PlayStep(server, x.s, Outs(bs), Outs(bs[1..]));
        var y := Move(Server, x);
        var z := Move(Client, y);
        assert z.down == [];
        var rest := Download(bs[1..], z, c', s');
        schedule := [Server, Client] + rest;
        assert schedule[1..][1..] == rest && schedule[1..][0] == Client;
        assert x.downLog + [bs[0]] + bs[1..] == x.downLog + bs;
      }
    }
  }

  // ---- One process on its own ------------------------------------------------------------------

  /** The local state reached when the process does exactly the given events, if it can. */
  ghost function Play<L>(p: L -> Act<L>, l: L, events: seq<Event>): (l': Option<L>)
    decreases |events|
  {
    if events == [] then Some(l)
    else
      match (p(l), events[0])
      case (Send(b, next), Out(b')) => if b == b' then Play(p, next, events[1..]) else None
      case (Receive(next), In(b)) => Play(p, next(b), events[1..])
      case _ => None
  }

  lemma PlayStep<L>(p: L -> Act<L>, l: L, events: seq<Event>, rest: seq<Event>)
    requires |events| > 0 && Play(p, l, events).Some? && |rest| == |events| - 1
    requires forall i | 0 <= i < |rest| :: rest[i] == events[i + 1]
    ensures events[0].Out? ==> p(l).Send? && p(l).b == events[0].b && Play(p, p(l).next, rest) == Play(p, l, events)
    ensures events[0].In? ==> p(l).Receive? && Play(p, p(l).next'(events[0].b), rest) == Play(p, l, events)
  {
    assert events[1..] == rest;
  }

  lemma {:induction false} PlayAppend<L>(p: L -> Act<L>, l: L, a: seq<Event>, b: seq<Event>)
    ensures Play(p, l, a + b) == if Play(p, l, a).Some? then Play(p, Play(p, l, a).value, b) else None
    decreases |a|
  {
    if a == [] {
      assert a + b == b;
    } else {
      assert (a + b)[1..] == a[1..] + b;
      match (p(l), a[0])
      case (Send(x, next), Out(y)) => PlayAppend(p, next, a[1..], b);
      case (Receive(next), In(x)) => PlayAppend(p, next(x), a[1..], b);
      case _ =>
    }
  }

  /** A process that in state `sending(rest)` still has `rest` to write before it goes on to `after`. */
  ghost predicate Sends<L>(p: L -> Act<L>, sending: seq<byte> -> L, after: L)
  {
    forall rest: seq<byte> | rest != [] ::
      p(sending(rest)) == Send(rest[0], if |rest| == 1 then after else sending(rest[1..]))
  }

  lemma {:induction false} PlaySend<L>(p: L -> Act<L>, sending: seq<byte> -> L, after: L, bs: seq<byte>, k: nat)
    requires Sends(p, sending, after) && k <= |bs| && bs != []
    ensures Play(p, sending(bs), Outs(bs[..k])) == Some(if k == |bs| then after else sending(bs[k..]))
    decreases |bs|
  {
    if k > 0 {
      assert Outs(bs[..k])[1..] == Outs(bs[1..][..k - 1]);
      if |bs| > 1 {
        PlaySend(p, sending, after, bs[1..], k - 1);
      }
    }
  }

  /** A process that in state `reading(got)` collects `need` bytes before it goes on to `after(bytes)`. */
  ghost predicate Collects<L>(p: L -> Act<L>, reading: seq<byte> -> L, need: nat, after: seq<byte> -> L)
  {
    forall got: seq<byte> | |got| < need ::
      && p(reading(got)).Receive?
      && forall b: byte ::
           p(reading(got)).next'(b) == if |got| + 1 == need then after(got + [b]) else reading(got + [b])
  }

  lemma {:induction false} PlayCollect<L>(
    p: L -> Act<L>, reading: seq<byte> -> L, need: nat, after: seq<byte> -> L, got: seq<byte>, bs: seq<byte>)
    requires Collects(p, reading, need, after) && |got| < need && |got| + |bs| <= need
    ensures Play(p, reading(got), Ins(bs)) == Some(if |got| + |bs| == need then after(got + bs) else reading(got + bs))
    decreases |bs|
  {
    if bs == [] {
      assert got + bs == got;
    } else {
      assert Ins(bs)[1..] == Ins(bs[1..]);
      assert got + [bs[0]] + bs[1..] == got + bs;
      if |bs| > 1 {
        PlayCollect(p, reading, need, after, got + [bs[0]], bs[1..]);
      } else {
        assert got + [bs[0]] == got + bs;
      }
    }
  }

  // ---- One process on a given stream -----------------------------------------------------------

  /** Nothing more can happen: the process halts, waits with no input left, or sends with no room left. */
  ghost predicate Rests<L>(a: Act<L>, input: seq<byte>, room: nat)
  {
    match a
    case Halt => true
    case Send(_, _) => room == 0
    case Receive(_) => input == []
  }

  /** On the given input, with room for so many bytes of output, the process does exactly these events
      and comes to rest in `end`. */
  ghost predicate MaximalRun<L>(p: L -> Act<L>, l: L, es: seq<Event>, input: seq<byte>, room: nat, end: L)
  {
    && Play(p, l, es) == Some(end)
    && Received(es) <= input && |Written(es)| <= room
    && Rests(p(end), input[|Received(es)|..], room - |Written(es)|)
  }

  /** There is only one such run. */
  lemma {:induction false} MaximalRunIsUnique<L>(
    p: L -> Act<L>, l: L, es: seq<Event>, es': seq<Event>, input: seq<byte>, room: nat, end: L, end': L)
    requires MaximalRun(p, l, es, input, room, end) && MaximalRun(p, l, es', input, room, end')
    ensures es == es' && end == end'
    decreases |es|
  {
    if es == [] {
      NothingMore(p, l, es', input, room);
    } else if es' == [] {
      NothingMore(p, l, es, input, room);
    } else {
      FirstEvent(p, l, es, input, room, end);
      FirstEvent(p, l, es', input, room, end');
      match es[0]
      case Out(b) => MaximalRunIsUnique(p, p(l).next, es[1..], es'[1..], input, room - 1, end, end');
      case In(b) => MaximalRunIsUnique(p, p(l).next'(b), es[1..], es'[1..], input[1..], room, end, end');
    }
  }

  lemma NothingMore<L>(p: L -> Act<L>, l: L, es: seq<Event>, input: seq<byte>, room: nat)
    requires Rests(p(l), input, room)
    requires Play(p, l, es).Some? && Received(es) <= input && |Written(es)| <= room
    ensures es == []
  {
  }

  lemma FirstEvent<L>(p: L -> Act<L>, l: L, es: seq<Event>, input: seq<byte>, room: nat, end: L)
    requires MaximalRun(p, l, es, input, room, end) && es != []
    ensures es[0].Out? ==> p(l).Send? && es[0].b == p(l).b && room > 0
    ensures es[0].Out? ==> MaximalRun(p, p(l).next, es[1..], input, room - 1, end)
    ensures es[0].In? ==> p(l).Receive? && input != [] && es[0].b == input[0]
    ensures es[0].In? ==> MaximalRun(p, p(l).next'(es[0].b), es[1..], input[1..], room, end)
  {
    if es[0].In? {
      var rest := Received(es[1..]);
      assert Received(es) == [es[0].b] + rest;
      assert input[0] == Received(es)[0];
      assert Received(es)[1..] == rest && rest <= input[1..];
      assert input[1..][|rest|..] == input[|Received(es)|..];
    }
  }

  lemma AtRest<L>(p: L -> Act<L>, l: L, input: seq<byte>, room: nat)
    requires Rests(p(l), input, room)
    ensures MaximalRun(p, l, [], input, room, l)
  {
    assert input[0..] == input;
  }

  /** A process that reads `k` bytes and goes on from there. */
  lemma ReadPhase<L>(
    p: L -> Act<L>, l: L, k: nat, l': L, more: seq<Event>, input: seq<byte>, room: nat, end: L)
    requires k <= |input| && Play(p, l, Ins(input[..k])) == Some(l')
    requires MaximalRun(p, l', more, input[k..], room, end)
    ensures MaximalRun(p, l, Ins(input[..k]) + more, input, room, end)
  {
    var taken := Ins(input[..k]);
    PlayAppend(p, l, taken, more);
    ReadingOutput(input[..k], more);
    ReceivedAppend(taken, more);
    ReceivedIns(input[..k]);
    PrefixJoined(input, k, Received(more));
  }

  lemma PrefixJoined(input: seq<byte>, k: nat, rest: seq<byte>)
    requires k <= |input| && rest <= input[k..]
    ensures input[..k] + rest <= input && input[|input[..k] + rest|..] == input[k..][|rest|..]
  {
    assert input == input[..k] + input[k..];
  }

  /** A process that writes `bs`, as far as there is room, and goes on only if all of it was written. */
  lemma WritePhase<L>(
    p: L -> Act<L>, l: L, bs: seq<byte>, l': L, more: seq<Event>, input: seq<byte>, room: nat, end: L)
    requires Play(p, l, Outs(Take(bs, room))) == Some(l')
    requires room < |bs| ==> more == [] && end == l' && p(l').Send?
    requires room >= |bs| ==> MaximalRun(p, l', more, input, room - |bs|, end)
    ensures MaximalRun(p, l, Outs(Take(bs, room)) + more, input, room, end)
  {
    var sent := Take(bs, room);
    PlayAppend(p, l, Outs(sent), more);
    WrittenAppend(Outs(sent), more);
    WrittenOuts(sent);
    ReceivedAppend(Outs(sent), more);
    ReceivedOuts(sent);
    PlusNothing(Received(more));
  }

  /** The same when nothing comes after. */
  lemma WriteLast<L>(p: L -> Act<L>, l: L, bs: seq<byte>, l': L, input: seq<byte>, room: nat)
    requires Play(p, l, Outs(Take(bs, room))) == Some(l')
    requires if room < |bs| then p(l').Send? else Rests(p(l'), input, room - |bs|)
    ensures MaximalRun(p, l, Outs(Take(bs, room)), input, room, l')
  {
    if room >= |bs| {
      AtRest(p, l', input, room - |bs|);
    }
    WritePhase(p, l, bs, l', [], input, room, l');
    PlusNothing(Outs(Take(bs, room)));
  }
}
