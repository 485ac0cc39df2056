/** Byte streams with a demonic scheduler: each read delivers any non-empty piece of what is
    still to come, each write accepts any non-empty piece of what is offered. */
module Streams {
  import opened Bytes

  datatype IoError = UnexpectedEof | ConnectionReset | WriteFailed

  // What a process did to its stream, byte by byte and in order.
  datatype Event = In(b: byte) | Out(b: byte)

  function Ins(bs: seq<byte>): (es: seq<Event>)
  {
    seq(|bs|, i requires 0 <= i < |bs| => In(bs[i]))
  }

  function Outs(bs: seq<byte>): (es: seq<Event>)
  {
    seq(|bs|, i requires 0 <= i < |bs| => Out(bs[i]))
  }

  /** The bytes written in the course of the given events. */
  function Written(es: seq<Event>): (bs: seq<byte>)
  {
    if es == [] then []
    else BytesOut(es[0]) + Written(es[1..])
  }

  function BytesOut(e: Event): (bs: seq<byte>)
  {
    match e
    case Out(b) => [b]
    case In(_) => []
  }

  function BytesIn(e: Event): (bs: seq<byte>)
  {
    match e
    case Out(_) => []
    case In(b) => [b]
  }

  lemma {:induction false} WrittenAppend(a: seq<Event>, b: seq<Event>)
    ensures Written(a + b) == Written(a) + Written(b)
    decreases |a|
  {
    if a == [] {
      assert a + b == b;
    } else {
      assert (a + b)[1..] == a[1..] + b;
      WrittenAppend(a[1..], b);
      Associative(BytesOut(a[0]), Written(a[1..]), Written(b));
    }
  }

  lemma {:induction false} WrittenIns(bs: seq<byte>)
    ensures Written(Ins(bs)) == []
    decreases |bs|
  {
    if bs != [] {
      assert Ins(bs)[1..] == Ins(bs[1..]);
      WrittenIns(bs[1..]);
    }
  }

  lemma {:induction false} WrittenOuts(bs: seq<byte>)
    ensures Written(Outs(bs)) == bs
    decreases |bs|
  {
    if bs != [] {
      assert Outs(bs)[1..] == Outs(bs[1..]);
      WrittenOuts(bs[1..]);
    }
  }

  /** The bytes read in the course of the given events. */
  function Received(es: seq<Event>): (bs: seq<byte>)
  {
    if es == [] then []
    else BytesIn(es[0]) + Received(es[1..])
  }

  lemma {:induction false} ReceivedAppend(a: seq<Event>, b: seq<Event>)
    ensures Received(a + b) == Received(a) + Received(b)
    decreases |a|
  {
    if a == [] {
      assert a + b == b;
    } else {
      assert (a + b)[1..] == a[1..] + b;
      ReceivedAppend(a[1..], b);
      Associative(BytesIn(a[0]), Received(a[1..]), Received(b));
    }
  }

  lemma {:induction false} ReceivedIns(bs: seq<byte>)
    ensures Received(Ins(bs)) == bs
    decreases |bs|
  {
    if bs != [] {
      assert Ins(bs)[1..] == Ins(bs[1..]);
      ReceivedIns(bs[1..]);
    }
  }

  lemma {:induction false} ReceivedOuts(bs: seq<byte>)
    ensures Received(Outs(bs)) == []
    decreases |bs|
  {
    if bs != [] {
      assert Outs(bs)[1..] == Outs(bs[1..]);
      ReceivedOuts(bs[1..]);
    }
  }

  lemma ReceivedThen(bs: seq<byte>, more: seq<Event>)
    ensures Received(Ins(bs) + more) == bs + Received(more)
    ensures Received(Outs(bs) + more) == Received(more)
  {
    ReceivedAppend(Ins(bs), more);
    ReceivedIns(bs);
    ReceivedAppend(Outs(bs), more);
    ReceivedOuts(bs);
  }

  /** Reading contributes nothing to the output. */
  lemma ReadingOutput(bs: seq<byte>, more: seq<Event>)
    ensures Written(Ins(bs) + more) == Written(more)
  {
    WrittenAppend(Ins(bs), more);
    WrittenIns(bs);
  }

  /** A message is written as far as there is room, and what comes after it only if all of it was. */
  lemma PhaseOutput(bs: seq<byte>, room: nat, more: seq<Event>, out: seq<byte>)
    requires room < |bs| ==> more == []
    requires room >= |bs| ==> Written(more) == Take(out, room - |bs|)
    ensures Written(Outs(Take(bs, room)) + more) == Take(bs + out, room)
  {
    WrittenAppend(Outs(Take(bs, room)), more);
    WrittenOuts(Take(bs, room));
    TakeAppend(bs, out, room);
  }

  /** Reading `n` bytes at position `i` of `s`: what is behind, what was read, what is ahead. */
  lemma ReadAt(before: seq<Event>, s: seq<byte>, i: nat, n: nat)
    requires i + n <= |s|
    ensures before + Ins(s[..i]) + Ins(s[i..][..n]) == before + Ins(s[..i + n])
    ensures s[i..][n..] == s[i + n..] && s[i..][..n] == s[i..i + n]
  {
    assert s[..i + n] == s[..i] + s[i..][..n];
    InsAppend(s[..i], s[i..][..n]);
    Associative(before, Ins(s[..i]), Ins(s[i..][..n]));
  }

  lemma NothingRead(before: seq<Event>, s: seq<byte>)
    ensures before + Ins(s[..0]) == before && s[0..] == s && s[..|s|] == s
  {
  }

  lemma InsAppend(a: seq<byte>, b: seq<byte>)
    ensures Ins(a + b) == Ins(a) + Ins(b)
  {
  }

  lemma OutsAppend(a: seq<byte>, b: seq<byte>)
    ensures Outs(a + b) == Outs(a) + Outs(b)
  {
  }

  /** Writing the next `n` bytes of `bs` after the first `i`. */
  lemma WriteAt(out: seq<byte>, before: seq<Event>, bs: seq<byte>, i: nat, n: nat)
    requires i + n <= |bs|
    ensures out + bs[..i] + bs[i..][..n] == out + bs[..i + n]
    ensures before + Outs(bs[..i]) + Outs(bs[i..][..n]) == before + Outs(bs[..i + n])
  {
    assert bs[..i + n] == bs[..i] + bs[i..][..n];
    Associative(out, bs[..i], bs[i..][..n]);
    OutsAppend(bs[..i], bs[i..][..n]);
    Associative(before, Outs(bs[..i]), Outs(bs[i..][..n]));
  }

  class Stream {
    var input: seq<byte>   // what the peer will still deliver
    const reset: bool      // what follows those bytes: an error, or a plain end of stream
    var room: nat          // how many more bytes are accepted before a write fails
    var output: seq<byte>  // what has been written so far
    ghost var trace: seq<Event>

    ghost predicate Valid()
      reads this
    {
      output == Written(trace)
    }

    constructor (input: seq<byte>, reset: bool, room: nat)
      ensures this.input == input && this.reset == reset && this.room == room
      ensures Valid() && output == [] && trace == []
    {
      this.input, this.reset, this.room := input, reset, room;
      output, trace := [], [];
    }

    /** The error of a read that needs more bytes than there are. */
    function AtEnd(): (e: IoError)
    {
      if reset then ConnectionReset else UnexpectedEof
    }

    /** One `read` into a buffer of `max` bytes; `Ok([])` is the end of the stream. */
    method Read(max: nat) returns (r: Result<seq<byte>, IoError>)
      requires Valid() && 0 < max
      modifies this`input, this`trace
      ensures Valid()
      ensures old(input) == [] ==> input == [] && trace == old(trace)
      ensures old(input) == [] ==> r == if reset then Err(ConnectionReset) else Ok([])
      ensures old(input) != [] ==> r.Ok? && 0 < |r.value| <= max && old(input) == r.value + input
      ensures old(input) != [] ==> trace == old(trace) + Ins(r.value)
    {
      if input == [] {
        r := if reset then Err(ConnectionReset) else Ok([]);
      } else {
        var n: nat :| 0 < n <= max && n <= |input|;
        r := Ok(input[..n]);
        WrittenAppend(trace, Ins(input[..n]));
        WrittenIns(input[..n]);
        trace := trace + Ins(input[..n]);
        input := input[n..];
      }
    }

    /** Reads exactly `n` bytes, however the stream is cut into pieces. */
    method ReadExact(n: nat) returns (r: Result<seq<byte>, IoError>)
      requires Valid()
      modifies this`input, this`trace
      ensures Valid()
      ensures n <= |old(input)| ==> r == Ok(old(input)[..n]) && input == old(input)[n..]
      ensures n <= |old(input)| ==> trace == old(trace) + Ins(old(input)[..n])
      ensures |old(input)| < n ==> r == Err(AtEnd()) && input == [] && trace == old(trace) + Ins(old(input))
    {
      var got: seq<byte> := [];
      while |got| < n
        invariant Valid() && |got| <= n && got + input == old(input)
        invariant trace == old(trace) + Ins(got)
        decreases |input|, n - |got|
      {
        var piece := Read(n - |got|);
        if piece.Err? {
          assert got == old(input);
          return Err(piece.error);
        }
        if piece.value == [] {
          assert got == old(input);
          return Err(UnexpectedEof);
        }
        InsAppend(got, piece.value);
        Associative(old(trace), Ins(got), Ins(piece.value));
        Associative(got, piece.value, input);
        got := got + piece.value;
      }
      assert got == old(input)[..n];
      return Ok(got);
    }

    /** The stream `s` has been read up to position `k`, since the trace was `before`. */
    ghost predicate HasRead(before: seq<Event>, s: seq<byte>, k: nat)
      reads this
    {
      Valid() && k <= |s| && input == s[k..] && trace == before + Ins(s[..k])
    }

    /** `ReadExact`, told from the position reached in a longer stretch of reading. */
    method ReadNext(n: nat, ghost before: seq<Event>, ghost s: seq<byte>, ghost k: nat)
      returns (r: Result<seq<byte>, IoError>)
      requires HasRead(before, s, k)
      modifies this`input, this`trace
      ensures k + n <= |s| ==> r == Ok(s[k..k + n]) && HasRead(before, s, k + n)
      ensures |s| < k + n ==> r == Err(AtEnd()) && HasRead(before, s, |s|)
    {
      ReadAt(before, s, k, if k + n <= |s| then n else |s| - k);
      r := ReadExact(n);
    }

    /** The same for a buffer of one byte. */
    method ReadByte(ghost before: seq<Event>, ghost s: seq<byte>, ghost k: nat) returns (r: Result<byte, IoError>)
      requires HasRead(before, s, k)
      modifies this`input, this`trace
      ensures k < |s| ==> r == Ok(s[k]) && HasRead(before, s, k + 1)
      ensures |s| <= k ==> r == Err(AtEnd()) && HasRead(before, s, |s|)
    {
      var bytes := ReadNext(1, before, s, k);
      if bytes.Err? {
        return Err(bytes.error);
      }
      return Ok(bytes.value[0]);
    }

    /** One `write`: accepts a non-empty piece, or fails when no room is left. */
    method Write(bs: seq<byte>) returns (r: Result<nat, IoError>)
      requires Valid() && bs != []
      modifies this`output, this`room, this`trace
      ensures Valid()
      ensures old(room) == 0 ==> r == Err(WriteFailed) && room == 0 && output == old(output) && trace == old(trace)
      ensures old(room) > 0 ==> r.Ok? && 0 < r.value <= |bs| && room == old(room) - r.value
      ensures old(room) > 0 ==> output == old(output) + bs[..r.value]
      ensures old(room) > 0 ==> trace == old(trace) + Outs(bs[..r.value])
    {
      if room == 0 {
        r := Err(WriteFailed);
      } else {
        var n: nat :| 0 < n <= |bs| && n <= room;
        WrittenAppend(trace, Outs(bs[..n]));
        WrittenOuts(bs[..n]);
        output, room := output + bs[..n], room - n;
        trace := trace + Outs(bs[..n]);
        r := Ok(n);
      }
    }

    /** Writes all of `bs`, or as much of it as there is room for. */
    method WriteAll(bs: seq<byte>) returns (r: Result<(), IoError>)
      requires Valid()
      modifies this`output, this`room, this`trace
      ensures Valid()
      ensures r == if |bs| <= old(room) then Ok(()) else Err(WriteFailed)
      ensures output == old(output) + Take(bs, old(room))
      ensures trace == old(trace) + Outs(Take(bs, old(room)))
      ensures room == old(room) - |Take(bs, old(room))|
    {
      var sent := 0;
      while sent < |bs|
        invariant Valid() && 0 <= sent <= |bs| && room == old(room) - sent
        invariant output == old(output) + bs[..sent]
        invariant trace == old(trace) + Outs(bs[..sent])
      {
        var n := Write(bs[sent..]);
        if n.Err? {
          return Err(n.error);
        }
        WriteAt(old(output), old(trace), bs, sent, n.value);
        sent := sent + n.value;
      }
      assert bs[..sent] == bs;
      return Ok(());
    }
  }
}
