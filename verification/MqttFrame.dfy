/** MQTT control packets on the wire: a type byte, a variable byte integer, and that many bytes. */
module MqttFrame {
  import opened Bytes
  import opened Varint
  import opened Streams
  import opened Duplex

  datatype Packet = Packet(typ: byte, body: seq<byte>)

  datatype PacketError = Broken(e: IoError) | VarintTooLong

  // MQTT control packet type codes (high nibble of the first byte).
  const TYPE_CONNECT: byte := 0x10
  const TYPE_CONNACK: byte := 0x20
  const TYPE_PINGREQ: byte := 0xC0
  const TYPE_PINGRESP: byte := 0xD0
  const TYPE_DISCONNECT: byte := 0xE0

  const PINGREQ: seq<byte> := [TYPE_PINGREQ, 0x00]
  const PINGRESP: seq<byte> := [TYPE_PINGRESP, 0x00]
  const DISCONNECT: seq<byte> := [TYPE_DISCONNECT, 0x00]
  const CONNACK: seq<byte> := [TYPE_CONNACK, 0x02, 0x00, 0x00]

  /** The packet type without its flags: `typ & 0xF0`. */
  function Kind(p: Packet): (k: byte)
  {
    p.typ - p.typ % 16
  }

  function Encode(p: Packet): (s: seq<byte>)
  {
    [p.typ] + Digits(|p.body|) + p.body
  }

  function EncodeAll(ps: seq<Packet>): (s: seq<byte>)
  {
    if ps == [] then [] else Encode(ps[0]) + EncodeAll(ps[1..])
  }

  // What a stream starts with: a packet of `used` bytes, the beginning of one, or a bad length.
  datatype Frame = Frame(packet: Packet, used: nat) | Unfinished | BadLength

  /** The grammar of one packet at the start of `s`. */
  function ReadFrame(s: seq<byte>): (f: Frame)
    ensures f.Frame? ==> 2 <= f.used <= |s|
    ensures f.BadLength? ==> 5 <= |s|
  {
    if s == [] then Unfinished
    else
      match ReadLength(s[1..], MAX_DIGITS)
      case Short => Unfinished
      case TooLong =>
        TooLongTakesAll(s[1..], MAX_DIGITS);
        BadLength
      case Value(n, used) =>
        if |s| < 1 + used + n then Unfinished
        else Frame(Packet(s[0], s[1 + used..1 + used + n]), 1 + used + n)
  }

  lemma {:induction false} TooLongTakesAll(s: seq<byte>, digits: nat)
    requires ReadLength(s, digits).TooLong?
    ensures digits <= |s| && forall i | 0 <= i < digits :: s[i] >= 128
  {
    if digits > 0 {
      TooLongTakesAll(s[1..], digits - 1);
      assert forall i | 1 <= i < digits :: s[i] == s[1..][i - 1];
    }
  }

  /** What a length reader returns for the stream `s`, which ends with the error `eof`. */
  function LengthRead(s: seq<byte>, eof: IoError): (r: Result<nat, PacketError>)
  {
    match ReadLength(s, MAX_DIGITS)
    case Value(n, _) => Ok(n)
    case Short => Err(Broken(eof))
    case TooLong => Err(VarintTooLong)
  }

  /** How much of the stream `s` a length reader takes. */
  function LengthTaken(s: seq<byte>): (n: nat)
    ensures n <= |s|
  {
    match ReadLength(s, MAX_DIGITS)
    case Value(_, used) => used
    case Short => |s|
    case TooLong =>
      TooLongTakesAll(s, MAX_DIGITS);
      4
  }

  /** What a packet reader must return for the stream `s`, which ends with the error `eof`, and what it
      must leave unread. */
  ghost predicate Reads(s: seq<byte>, eof: IoError, r: Result<Packet, PacketError>, left: seq<byte>)
  {
    match ReadFrame(s)
    case Frame(p, used) => r == Ok(p) && left == s[used..]
    case BadLength => r == Err(VarintTooLong) && left == s[5..]
    case Unfinished => r == Err(Broken(eof)) && left == []
  }

  /** The bytes a packet reader takes from a stream that starts with `s`. */
  function Consumed(s: seq<byte>): (n: nat)
    ensures n <= |s|
  {
    match ReadFrame(s)
    case Frame(_, used) => used
    case BadLength => 5
    case Unfinished => |s|
  }

  lemma ReadsPacket(s: seq<byte>, eof: IoError, n: nat, used: nat)
    requires s != [] && ReadLength(s[1..], MAX_DIGITS) == Value(n, used) && 1 + used + n <= |s|
    ensures Reads(s, eof, Ok(Packet(s[0], s[1 + used..1 + used + n])), s[1 + used + n..])
    ensures Consumed(s) == 1 + used + n
  {
  }

  lemma ReadsShort(s: seq<byte>, eof: IoError)
    requires s == [] || ReadLength(s[1..], MAX_DIGITS).Short?
          || (var v := ReadLength(s[1..], MAX_DIGITS); v.Value? && |s| < 1 + v.used + v.n)
    ensures Reads(s, eof, Err(Broken(eof)), []) && Consumed(s) == |s| && s[..|s|] == s
  {
  }

  /** The outcome when the length is not there or not accepted. */
  lemma ReadsNoLength(s: seq<byte>, eof: IoError)
    requires s != [] && LengthRead(s[1..], eof).Err?
    ensures Reads(s, eof, Err(LengthRead(s[1..], eof).error), s[1 + LengthTaken(s[1..])..])
    ensures Consumed(s) == 1 + LengthTaken(s[1..])
  {
  }

  /** The last step of both packet readers, at position `k` of the stream `s`: the body, if there is one. */
  method ReadBody(stream: Stream, n: nat, ghost before: seq<Event>, ghost s: seq<byte>, ghost k: nat)
    returns (r: Result<seq<byte>, PacketError>)
    requires stream.HasRead(before, s, k)
    modifies stream`input, stream`trace
    ensures k + n <= |s| ==> r == Ok(s[k..k + n]) && stream.HasRead(before, s, k + n)
    ensures |s| < k + n ==> r == Err(Broken(stream.AtEnd())) && stream.HasRead(before, s, |s|)
  {
    var body: seq<byte> := [];
    if n > 0 {
      var bytes := stream.ReadNext(n, before, s, k);
      if bytes.Err? {
        return Err(Broken(bytes.error));
      }
      body := bytes.value;
    }
    assert n == 0 ==> body == s[k..k];
    return Ok(body);
  }

  /** Every packet in turn, up to the first place where none can be read. */
  function ReadAll(s: seq<byte>): (ps: seq<Packet>)
    decreases |s|
  {
    match ReadFrame(s)
    case Frame(p, used) => [p] + ReadAll(s[used..])
    case _ => []
  }

  /** One packet, whatever follows it, is read back exactly when its body is shorter than 2^28. */
  lemma FrameRoundTrip(p: Packet, rest: seq<byte>)
    ensures ReadFrame(Encode(p) + rest)
         == if |p.body| < 0x1000_0000 then Frame(p, |Encode(p)|) else BadLength
  {
    var s := Encode(p) + rest;
    assert s[1..] == Digits(|p.body|) + (p.body + rest);
    RoundTripIff(|p.body|, p.body + rest);
    var d := |Digits(|p.body|)|;
    assert s[1 + d..1 + d + |p.body|] == p.body;
  }

  lemma ReadAllStep(p: Packet, rest: seq<byte>)
    requires |p.body| < 0x1000_0000
    ensures ReadAll(Encode(p) + rest) == [p] + ReadAll(rest)
  {
    FrameRoundTrip(p, rest);
    DropAppend(Encode(p), rest);
  }

  /** Any list of packets survives concatenation: reading repeatedly recovers exactly that list. */
  lemma {:induction false} FramesRoundTrip(ps: seq<Packet>, rest: seq<byte>)
    requires forall p | p in ps :: |p.body| < 0x1000_0000
    ensures ReadAll(EncodeAll(ps) + rest) == ps + ReadAll(rest)
  {
    if ps == [] {
      assert EncodeAll(ps) + rest == rest;
    } else {
      FramesRoundTrip(ps[1..], rest);
      Associative(Encode(ps[0]), EncodeAll(ps[1..]), rest);
      ReadAllStep(ps[0], EncodeAll(ps[1..]) + rest);
      Associative([ps[0]], ps[1..], ReadAll(rest));
      assert [ps[0]] + ps[1..] == ps;
    }
  }

  lemma {:induction false} SameLength(s: seq<byte>, s': seq<byte>, digits: nat)
    requires ReadLength(s, digits).Value?
    requires s[..ReadLength(s, digits).used] <= s'
    ensures ReadLength(s', digits) == ReadLength(s, digits)
    decreases digits
  {
    var used := ReadLength(s, digits).used;
    assert s'[0] == s[..used][0] == s[0];
    if s[0] >= 128 {
      assert s[..used][1..] == s[1..][..used - 1];
      assert s'[..used] == s[..used];
      assert s'[1..][..used - 1] == s[1..][..used - 1];
      SameLength(s[1..], s'[1..], digits - 1);
    }
  }

  /** A packet is read from its own bytes, whatever follows them. */
  lemma SameFrame(s: seq<byte>, s': seq<byte>)
    requires ReadFrame(s).Frame? && s[..ReadFrame(s).used] <= s'
    ensures ReadFrame(s') == ReadFrame(s)
  {
    var used := ReadFrame(s).used;
    var v := ReadLength(s[1..], MAX_DIGITS);
    assert s'[..used] == s[..used] && s'[0] == s[..used][0];
    assert s[..used][1..][..v.used] == s[1..][..v.used];
    assert s'[1..][..v.used] == s'[..used][1..][..v.used];
    SameLength(s[1..], s'[1..], MAX_DIGITS);
    assert s'[1 + v.used..used] == s'[..used][1 + v.used..used];
    assert s[1 + v.used..used] == s[..used][1 + v.used..used];
  }

  /** The packets in the bytes that a reader has taken, and what it takes after that. */
  lemma ReadAllTaken(s: seq<byte>, more: seq<byte>)
    ensures var taken := s[..Consumed(s)];
            && (ReadFrame(s).Frame? ==> ReadAll(taken + more) == [ReadFrame(s).packet] + ReadAll(more))
            && (!ReadFrame(s).Frame? ==> ReadAll(taken) == [])
  {
    var taken := s[..Consumed(s)];
    if ReadFrame(s).Frame? {
      SameFrame(s, taken + more);
      DropAppend(taken, more);
    } else if ReadFrame(s).BadLength? {
      TooLongTakesAll(s[1..], MAX_DIGITS);
      TooLongPrefix(s[1..], 4, MAX_DIGITS);
      assert taken[1..] == s[1..][..4];
    } else {
      PlusNothing(s);
    }
  }

  // ---- Reading one byte at a time ------------------------------------------------------------

  // Where a packet reader stands between two bytes.
  datatype Reader =
    | Header
    | Remaining(typ: byte, digits: nat, multiplier: nat, remaining: nat)
    | Body(typ: byte, need: nat, got: seq<byte>)
    | Complete(packet: Packet)
    | Overlong

  // A packet without a body is complete as soon as its length is known.
  function AfterLength(typ: byte, n: nat): (r: Reader)
  {
    if n == 0 then Complete(Packet(typ, [])) else Body(typ, n, [])
  }

  function Feed(r: Reader, b: byte): (r': Reader)
  {
    match r
    case Header => Remaining(b, 0, 1, 0)
    case Remaining(typ, digits, multiplier, remaining) =>
      var total := AddDigit(remaining, b, multiplier);
      if b < 128 then
        AfterLength(typ, total)
      else if digits + 1 == MAX_DIGITS then Overlong
      else Remaining(typ, digits + 1, multiplier * 128, total)
    case Body(typ, need, got) =>
      if |got| + 1 == need then Complete(Packet(typ, got + [b])) else Body(typ, need, got + [b])
    case Complete(_) => Overlong
    case Overlong => Overlong
  }

  function FeedAll(r: Reader, s: seq<byte>): (r': Reader)
    decreases |s|
  {
    if s == [] then r else FeedAll(Feed(r, s[0]), s[1..])
  }

  lemma {:induction false} FeedOverlong(s: seq<byte>)
    ensures FeedAll(Overlong, s) == Overlong
  {
    if s != [] {
      FeedOverlong(s[1..]);
    }
  }

  lemma {:induction false} FeedAppend(r: Reader, s: seq<byte>, t: seq<byte>)
    ensures FeedAll(r, s + t) == FeedAll(FeedAll(r, s), t)
    decreases |s|
  {
    if s == [] {
      assert s + t == t;
    } else {
      assert (s + t)[1..] == s[1..] + t;
      FeedAppend(Feed(r, s[0]), s[1..], t);
    }
  }

  lemma {:induction false} FeedBody(typ: byte, need: nat, got: seq<byte>, s: seq<byte>)
    requires |got| < need && |s| <= need - |got|
    ensures FeedAll(Body(typ, need, got), s)
         == if |got| + |s| == need then Complete(Packet(typ, got + s)) else Body(typ, need, got + s)
    decreases |s|
  {
    if s == [] {
      assert got + s == got;
    } else if |s| == 1 {
      assert s == [s[0]] && s[1..] == [];
    } else {
      FeedBody(typ, need, got + [s[0]], s[1..]);
      assert got + [s[0]] + s[1..] == got + s;
    }
  }

  lemma Distribute(m: nat, d: nat, k: nat)
    ensures m * (d + k) == d * m + m * k
  {
  }

  lemma Regroup(m: nat, n: nat)
    ensures m * 128 * n == m * (128 * n)
  {
  }

  lemma Accumulate(acc: nat, b: byte, m: nat, n: nat)
    ensures b < 128 ==> AddDigit(acc, b, m) == acc + m * b
    ensures b >= 128 ==> AddDigit(acc, b, m) + m * 128 * n == acc + m * (b - 128 + 128 * n)
  {
    var d: nat := b % 128;
    assert d == if b < 128 then b as int else b as int - 128;
    Distribute(m, d, 0);
    Distribute(m, d, 128 * n);
    Regroup(m, n);
  }

  /** The accumulating length loop computes what the length grammar says. */
  lemma {:induction false} FeedLength(typ: byte, digits: nat, m: nat, acc: nat, s: seq<byte>)
    requires digits < MAX_DIGITS && m > 0
    ensures var v := ReadLength(s, MAX_DIGITS - digits);
            var r := Remaining(typ, digits, m, acc);
            && (v.Value? ==> FeedAll(r, s[..v.used]) == AfterLength(typ, acc + m * v.n))
            && (v.Short? ==> FeedAll(r, s).Remaining?)
            && (v.TooLong? ==> FeedAll(r, s).Overlong?)
    decreases MAX_DIGITS - digits
  {
    if s != [] {
      var total := AddDigit(acc, s[0], m);
      if s[0] < 128 {
        Accumulate(acc, s[0], m, 0);
        assert s[..1] == [s[0]] && s[..1][1..] == [];
      } else if digits + 1 == MAX_DIGITS {
        FeedOverlong(s[1..]);
      } else {
        FeedLength(typ, digits + 1, m * 128, total, s[1..]);
        var v := ReadLength(s[1..], MAX_DIGITS - digits - 1);
        if v.Value? {
          assert s[..v.used + 1][1..] == s[1..][..v.used];
          Accumulate(acc, s[0], m, v.n);
        }
      }
    }
  }

  lemma FeedAfterLength(typ: byte, n: nat, body: seq<byte>)
    requires |body| <= n
    ensures FeedAll(AfterLength(typ, n), body)
         == if |body| == n then Complete(Packet(typ, body)) else Body(typ, n, body)
  {
    if n > 0 {
      FeedBody(typ, n, [], body);
      assert [] + body == body;
    }
  }

  /** The reader after the type byte, fed with a whole length and as much of the body as there is. */
  lemma FeedUpTo(typ: byte, t: seq<byte>, n: nat, used: nat, k: nat)
    requires ReadLength(t, MAX_DIGITS) == Value(n, used) && k <= n && used + k <= |t|
    ensures FeedAll(Remaining(typ, 0, 1, 0), t[..used + k])
         == if k == n then Complete(Packet(typ, t[used..used + k])) else Body(typ, n, t[used..used + k])
  {
    FeedValue(typ, t, n, used);
    InPrefix(t, used, used + k, used + k);
    FeedBoth(typ, t[..used], n, t[used..used + k], t[..used + k]);
  }

  lemma FeedValue(typ: byte, t: seq<byte>, n: nat, used: nat)
    requires ReadLength(t, MAX_DIGITS) == Value(n, used)
    ensures FeedAll(Remaining(typ, 0, 1, 0), t[..used]) == AfterLength(typ, n)
  {
    FeedLength(typ, 0, 1, 0, t);
  }

  lemma FeedBoth(typ: byte, length: seq<byte>, n: nat, body: seq<byte>, s: seq<byte>)
    requires FeedAll(Remaining(typ, 0, 1, 0), length) == AfterLength(typ, n) && |body| <= n && s == length + body
    ensures FeedAll(Remaining(typ, 0, 1, 0), s)
         == if |body| == n then Complete(Packet(typ, body)) else Body(typ, n, body)
  {
    FeedAppend(Remaining(typ, 0, 1, 0), length, body);
    FeedAfterLength(typ, n, body);
  }

  lemma FeedFirst(s: seq<byte>, k: nat)
    requires k < |s|
    ensures FeedAll(Header, s[..1 + k]) == FeedAll(Remaining(s[0], 0, 1, 0), s[1..][..k])
    ensures s[..|s|] == s && s[1..][..|s| - 1] == s[1..]
  {
    assert s[..1 + k][1..] == s[1..][..k];
  }

  /** Feeding a stream to the reader byte by byte: complete exactly at the end of the first packet,
      overlong exactly when the length is bad. */
  lemma FeedFrame(s: seq<byte>)
    ensures var f := ReadFrame(s);
            && (f.Frame? ==> FeedAll(Header, s[..f.used]) == Complete(f.packet))
            && (f.BadLength? ==> FeedAll(Header, s) == Overlong)
            && (f.Unfinished? ==> var r := FeedAll(Header, s); !r.Complete? && !r.Overlong?)
  {
    if s != [] {
      var v := ReadLength(s[1..], MAX_DIGITS);
      if v.Value? {
        FeedCut(s, v.n, v.used, if |s| < 1 + v.used + v.n then |s| - 1 - v.used else v.n);
      } else {
        FeedNoLength(s);
      }
      PlusNothing(s);
    }
  }

  lemma FeedCut(s: seq<byte>, n: nat, used: nat, k: nat)
    requires s != [] && ReadLength(s[1..], MAX_DIGITS) == Value(n, used) && k <= n && 1 + used + k <= |s|
    ensures var body := s[1 + used..1 + used + k];
            FeedAll(Header, s[..1 + used + k]) == if k == n then Complete(Packet(s[0], body)) else Body(s[0], n, body)
  {
    FeedFirst(s, used + k);
    FeedUpTo(s[0], s[1..], n, used, k);
    assert s[1..][used..used + k] == s[1 + used..1 + used + k];
  }

  lemma FeedNoLength(s: seq<byte>)
    requires s != [] && !ReadLength(s[1..], MAX_DIGITS).Value?
    ensures var r := FeedAll(Header, s);
            if ReadLength(s[1..], MAX_DIGITS).TooLong? then r == Overlong else r.Remaining?
  {
    FeedFirst(s, |s| - 1);
    FeedLength(s[0], 0, 1, 0, s[1..]);
  }

  predicate Finished(r: Reader)
  {
    r.Complete? || r.Overlong?
  }

  /** The reader still wants input before each byte of `s`. */
  predicate Wants(r: Reader, s: seq<byte>)
    decreases |s|
  {
    s == [] || (!Finished(r) && Wants(Feed(r, s[0]), s[1..]))
  }

  lemma {:induction false} WantsUpToTheEnd(r: Reader, s: seq<byte>)
    ensures FeedAll(r, s).Complete? || !Finished(FeedAll(r, s)) ==> Wants(r, s)
    decreases |s|
  {
    if s != [] {
      if Finished(r) {
        FeedOverlong(s[1..]);
      } else {
        WantsUpToTheEnd(Feed(r, s[0]), s[1..]);
      }
    }
  }

  lemma {:induction false} WantsOneMore(r: Reader, s: seq<byte>, b: byte)
    requires Wants(r, s) && !Finished(FeedAll(r, s))
    ensures Wants(r, s + [b])
    decreases |s|
  {
    if s != [] {
      assert (s + [b])[1..] == s[1..] + [b];
      WantsOneMore(Feed(r, s[0]), s[1..], b);
    }
  }

  lemma {:induction false} WantsAt(r: Reader, s: seq<byte>, k: nat)
    requires Wants(r, s) && k < |s|
    ensures !Finished(FeedAll(r, s[..k]))
    decreases |s|
  {
    if k > 0 {
      assert s[..k][1..] == s[1..][..k - 1];
      WantsAt(Feed(r, s[0]), s[1..], k - 1);
    }
  }

  lemma {:induction false} LengthPrefix(s: seq<byte>, k: nat, digits: nat)
    requires ReadLength(s, digits).TooLong? && k < digits
    ensures k <= |s| && ReadLength(s[..k], digits).Short?
    decreases digits
  {
    TooLongTakesAll(s, digits);
    if k > 0 {
      LengthPrefix(s[1..], k - 1, digits - 1);
      assert s[..k][1..] == s[1..][..k - 1];
    }
  }

  /** A reader takes exactly `Consumed` bytes, wanting each of them, and then knows the outcome. */
  lemma ReaderTakes(s: seq<byte>)
    ensures var taken := s[..Consumed(s)];
            && Wants(Header, taken)
            && (ReadFrame(s).Frame? ==> FeedAll(Header, taken) == Complete(ReadFrame(s).packet))
            && (ReadFrame(s).BadLength? ==> FeedAll(Header, taken) == Overlong)
            && (ReadFrame(s).Unfinished? ==> !Finished(FeedAll(Header, taken)))
  {
    FeedFrame(s);
    WantsUpToTheEnd(Header, s[..Consumed(s)]);
    assert s[..|s|] == s;
    if ReadFrame(s).BadLength? {
      var t := s[..4];
      TooLongTakesAll(s[1..], MAX_DIGITS);
      LengthPrefix(s[1..], 3, MAX_DIGITS);
      assert t[1..] == s[1..][..3];
      FeedFrame(t);
      WantsUpToTheEnd(Header, t);
      WantsOneMore(Header, t, s[4]);
      assert s[..5] == t + [s[4]];
      TooLongPrefix(s[1..], 4, MAX_DIGITS);
      assert s[..5][1..] == s[1..][..4];
      FeedFrame(s[..5]);
    }
  }

  lemma {:induction false} TooLongPrefix(s: seq<byte>, k: nat, digits: nat)
    requires ReadLength(s, digits).TooLong? && digits <= k <= |s|
    ensures ReadLength(s[..k], digits).TooLong?
  {
    if digits > 0 {
      TooLongPrefix(s[1..], k - 1, digits - 1);
      assert s[..k][1..] == s[1..][..k - 1];
    }
  }

  /** A process that in state `reading(r)` feeds a packet reader and goes on to `after` of the result. */
  ghost predicate ReadsPackets<L>(p: L -> Act<L>, reading: Reader -> L, after: Reader -> L)
  {
    && (forall r: Reader | !Finished(r) :: after(r) == reading(r))
    && (forall r: Reader :: p(reading(r)).Receive? && forall b: byte :: p(reading(r)).next'(b) == after(Feed(r, b)))
  }

  lemma {:induction false} PlayReader<L>(
    p: L -> Act<L>, reading: Reader -> L, after: Reader -> L, r: Reader, s: seq<byte>)
    requires ReadsPackets(p, reading, after) && Wants(r, s) && !Finished(r)
    ensures Play(p, reading(r), Ins(s)) == Some(after(FeedAll(r, s)))
    decreases |s|
  {
    if s != [] {
      assert Ins(s)[1..] == Ins(s[1..]);
      if |s| > 1 {
        PlayReader(p, reading, after, Feed(r, s[0]), s[1..]);
      }
    }
  }
}
