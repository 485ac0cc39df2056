/** zpinger's DNS query and its check of the answer, and testserver's DNS responder.
    Names are byte strings (the UTF-8 bytes of a Rust `str`); a dot is the byte 0x2E. */
module Dns {
  import opened Bytes

  const DOT: byte := 0x2E
  const HEADER_LEN := 12
  const CLIENT_BUF := 512
  const SERVER_BUF := 1024

  datatype RecordType = A | Aaaa | Cname | Mx | Ns | Txt {
    function Code(): (code: u16)
    {
      match this
      case A => 1
      case Ns => 2
      case Cname => 5
      case Mx => 15
      case Txt => 16
      case Aaaa => 28
    }
  }

  datatype NameError = EmptyLabel | LabelTooLong | NameTooLong

  // ---- Names -----------------------------------------------------------------------------------

  /** `trim_end_matches('.')`. */
  function Trim(name: seq<byte>): (t: seq<byte>)
    ensures t <= name && forall i | |t| <= i < |name| :: name[i] == 0x2E
    ensures t == [] || t[|t| - 1] != 0x2E
  {
    if name != [] && name[|name| - 1] == DOT then Trim(name[..|name| - 1]) else name
  }

  /** `split('.')`: the pieces between the dots, always at least one. */
  function Labels(s: seq<byte>): (labels: seq<seq<byte>>)
    ensures labels != []
    ensures forall l | l in labels :: 0x2E !in l
  {
    if s == [] then [[]]
    else
      var rest := Labels(s[1..]);
      if s[0] == DOT then [[]] + rest else [[s[0]] + rest[0]] + rest[1..]
  }

  /** The text whose pieces are the given labels. */
  function Join(labels: seq<seq<byte>>): (s: seq<byte>)
  {
    if labels == [] then []
    else if |labels| == 1 then labels[0]
    else labels[0] + [0x2E] + Join(labels[1..])
  }

  lemma {:induction false} JoinLabels(s: seq<byte>)
    ensures Join(Labels(s)) == s
    decreases |s|
  {
    if s != [] {
      JoinLabels(s[1..]);
      var rest := Labels(s[1..]);
      assert Labels(s)[1..] == if s[0] == DOT then rest else rest[1..];
      FirstAndRest(s, []);
      PlusNothing(s);
      if |rest| > 1 {
        Associative([s[0]], rest[0], [0x2E]);
        Associative([s[0]], rest[0] + [0x2E], Join(rest[1..]));
      }
    }
  }

  /** And every list of labels is that of its text. */
  lemma {:induction false} LabelsOfJoin(labels: seq<seq<byte>>)
    requires labels != [] && forall i | 0 <= i < |labels| :: 0x2E !in labels[i]
    ensures Labels(Join(labels)) == labels
    decreases |labels|
  {
    if |labels| == 1 {
      LabelsOfOne(labels[0]);
    } else {
      LabelsOfJoin(labels[1..]);
      LabelsBehind(labels[0], Join(labels[1..]));
      FirstAndRest(labels, []);
    }
  }

  lemma {:induction false} LabelsOfOne(l: seq<byte>)
    requires 0x2E !in l
    ensures Labels(l) == [l]
    decreases |l|
  {
    if l != [] {
      LabelsOfOne(l[1..]);
      FirstAndRest(l, []);
    }
  }

  lemma {:induction false} LabelsBehind(l: seq<byte>, s: seq<byte>)
    requires 0x2E !in l
    ensures Labels(l + [0x2E] + s) == [l] + Labels(s)
    decreases |l|
  {
    var text := l + [0x2E] + s;
    if l == [] {
      assert text[1..] == s;
    } else {
      assert text[1..] == l[1..] + [0x2E] + s;
      LabelsBehind(l[1..], s);
      FirstAndRest(l, []);
      DropAppend([l[1..]], Labels(s));
    }
  }

  /** The length-prefixed labels, without the closing zero; a length is cut to a byte (`as u8`). */
  function Wire(labels: seq<seq<byte>>): (s: seq<byte>)
  {
    if labels == [] then [] else [|labels[0]| % 256] + labels[0] + Wire(labels[1..])
  }

  predicate GoodLabel(l: seq<byte>)
  {
    1 <= |l| <= 63
  }

  /** Names that have a wire form: after trimming, only labels of 1 to 63 bytes, 253 bytes in all
      (RFC 1035 section 2.3.4). */
  predicate GoodName(name: seq<byte>)
  {
    |Trim(name)| <= 253 && forall l | l in Labels(Trim(name)) :: GoodLabel(l)
  }

  /** What is wrong with the first bad label, if there is one. */
  function FirstError(labels: seq<seq<byte>>): (e: Option<NameError>)
    ensures e.None? <==> forall l | l in labels :: GoodLabel(l)
  {
    if labels == [] then None
    else if !GoodLabel(labels[0]) then
      assert labels[0] in labels;
      Some(if labels[0] == [] then EmptyLabel else LabelTooLong)
    else FirstError(labels[1..])
  }

  /** The name on the wire. */
  function NameWire(name: seq<byte>): (s: seq<byte>)
    requires GoodName(name)
  {
    Wire(Labels(Trim(name))) + [0]
  }

  /** Any number of trailing dots changes nothing. */
  lemma {:induction false} TrailingDots(name: seq<byte>, k: nat)
    ensures var dots: seq<byte> := seq(k, _ => 0x2E);
            && Trim(name + dots) == Trim(name)
            && (GoodName(name + dots) <==> GoodName(name))
            && (GoodName(name) ==> NameWire(name + dots) == NameWire(name))
    decreases k
  {
    var dots: seq<byte> := seq(k, _ => 0x2E);
    if k == 0 {
      assert name + dots == name;
    } else {
      var fewer: seq<byte> := seq(k - 1, _ => 0x2E);
      TrailingDots(name, k - 1);
      assert dots[..k - 1] == fewer;
      LastOfAppended(name, dots);
    }
  }

  lemma {:induction false} WireAppend(a: seq<seq<byte>>, b: seq<seq<byte>>)
    ensures Wire(a + b) == Wire(a) + Wire(b)
    decreases |a|
  {
    if a == [] {
      assert a + b == b;
    } else {
      assert (a + b)[1..] == a[1..] + b;
      WireAppend(a[1..], b);
    }
  }

  lemma {:induction false} WireLength(labels: seq<seq<byte>>)
    requires labels != []
    ensures |Wire(labels)| == |Join(labels)| + 1
    decreases |labels|
  {
    if |labels| == 1 {
      assert Wire(labels[1..]) == [];
    } else {
      WireLength(labels[1..]);
    }
  }

  lemma LabelStep(labels: seq<seq<byte>>, i: nat)
    requires i < |labels|
    ensures var l := labels[i];
            && FirstError(labels[i..]) == (if GoodLabel(l) then FirstError(labels[i + 1..])
                                           else Some(if l == [] then EmptyLabel else LabelTooLong))
            && Wire(labels[..i + 1]) == Wire(labels[..i]) + [|l| % 256] + l
  {
    assert labels[i..][1..] == labels[i + 1..];
    assert labels[..i + 1] == labels[..i] + [labels[i]];
    WireAppend(labels[..i], [labels[i]]);
    WireOne(labels[i]);
    Associative(Wire(labels[..i]), [|labels[i]| % 256], labels[i]);
  }

  lemma WireOne(l: seq<byte>)
    ensures Wire([l]) == [|l| % 256] + l
  {
    assert [l][1..] == [];
  }

  lemma NameWireLength(name: seq<byte>)
    ensures |Wire(Labels(Trim(name)))| == |Trim(name)| + 1
  {
    WireLength(Labels(Trim(name)));
    JoinLabels(Trim(name));
  }

  /** `encode_name`: succeeds exactly on the good names; otherwise it reports the first bad label, or
      the length of the whole. */
  method EncodeName(name: seq<byte>) returns (r: Result<seq<byte>, NameError>)
    ensures r.Ok? <==> GoodName(name)
    ensures r.Ok? ==> r.value == NameWire(name) && |r.value| == |Trim(name)| + 2
    ensures r.Err? ==> r.error == FirstError(Labels(Trim(name))).GetOr(NameTooLong)
  {
    var trimmed := Trim(name);
    var labels := Labels(trimmed);
    var out := [];
    for i := 0 to |labels|
      invariant FirstError(labels) == FirstError(labels[i..])
      invariant out == Wire(labels[..i])
    {
      LabelStep(labels, i);
      var piece := labels[i];
      if piece == [] {
        return Err(EmptyLabel);
      }
      if |piece| > 63 {
        return Err(LabelTooLong);
      }
      out := out + [|piece| % 256];
      out := out + piece;
    }
    PlusNothing(labels);
    NameWireLength(name);
    out := out + [0];
    if |out| > 255 {
      return Err(NameTooLong);
    }
    return Ok(out);
  }

  /** The labels of a name at the start of `s` and the bytes it takes (RFC 1035 section 3.1); pointers
      and reserved length bytes are refused. */
  function DecodeName(s: seq<byte>): (r: Option<(seq<seq<byte>>, nat)>)
  {
    if s == [] || s[0] > 63 || |s| < 1 + s[0] then None
    else if s[0] == 0 then Some(([], 1))
    else
      match DecodeName(s[1 + s[0]..])
      case None => None
      case Some((labels, used)) => Some(([s[1..1 + s[0]]] + labels, 1 + s[0] + used))
  }

  lemma DecodeOne(s: seq<byte>, l: seq<byte>, t: seq<byte>)
    requires GoodLabel(l) && |s| >= 1 + |l| && s[0] == |l| && s[1..1 + |l|] == l && s[1 + |l|..] == t
    ensures var r := DecodeName(t);
            r.Some? ==> DecodeName(s) == Some(([l] + r.value.0, 1 + |l| + r.value.1))
  {
  }

  lemma Regroup(a: seq<byte>, l: seq<byte>, b: seq<byte>, c: seq<byte>)
    ensures var s := a + l + b + c; var t := b + c;
            s[|a|..|a| + |l|] == l && s[|a| + |l|..] == t
  {
  }

  lemma DecodeStep(l: seq<byte>, wire: seq<byte>, end: seq<byte>, more: seq<seq<byte>>, used: nat)
    requires GoodLabel(l) && DecodeName(wire + end) == Some((more, used))
    ensures DecodeName([|l|] + l + wire + end) == Some(([l] + more, 1 + |l| + used))
  {
    Regroup([|l|], l, wire, end);
    DecodeOne([|l|] + l + wire + end, l, wire + end);
  }

  lemma DecodeHead(labels: seq<seq<byte>>, end: seq<byte>, used: nat)
    requires labels != [] && GoodLabel(labels[0])
    requires DecodeName(Wire(labels[1..]) + end) == Some((labels[1..], used))
    ensures DecodeName(Wire(labels) + end) == Some((labels, 1 + |labels[0]| + used))
  {
    var l := labels[0];
    FirstAndRest(labels, []);
    assert Wire(labels) == [|l|] + l + Wire(labels[1..]);
    DecodeStep(l, Wire(labels[1..]), end, labels[1..], used);
  }

  lemma {:induction false} DecodeWire(labels: seq<seq<byte>>, end: seq<byte>)
    requires end != [] && end[0] == 0 && FirstError(labels).None?
    ensures DecodeName(Wire(labels) + end) == Some((labels, |Wire(labels)| + 1))
    decreases |labels|
  {
    if labels == [] {
      assert Wire(labels) + end == end;
    } else {
      DecodeWire(labels[1..], end);
      DecodeHead(labels, end, |Wire(labels[1..])| + 1);
    }
  }

  lemma DecodeClosed(labels: seq<seq<byte>>, rest: seq<byte>)
    requires FirstError(labels).None?
    ensures DecodeName(Wire(labels) + [0] + rest) == Some((labels, |Wire(labels) + [0]|))
  {
    Associative(Wire(labels), [0], rest);
    DecodeWire(labels, [0] + rest);
  }

  /** The decoder inverts the encoder whatever follows, and the labels it yields spell the name. */
  lemma NameRoundTrip(name: seq<byte>, rest: seq<byte>)
    requires GoodName(name)
    ensures DecodeName(NameWire(name) + rest) == Some((Labels(Trim(name)), |NameWire(name)|))
    ensures Join(Labels(Trim(name))) == Trim(name)
  {
    DecodeClosed(Labels(Trim(name)), rest);
    JoinLabels(Trim(name));
  }

  // ---- Queries ---------------------------------------------------------------------------------

  function Question(name: seq<byte>, qtype: u16): (s: seq<byte>)
    requires GoodName(name)
  {
    NameWire(name) + Be16(qtype) + Be16(1)
  }

  function Query(id: u16, name: seq<byte>, qtype: u16): (s: seq<byte>)
    requires GoodName(name)
  {
    Be16(id) + Be16(0x0100) + Be16(1) + Be16(0) + Be16(0) + Be16(0) + Question(name, qtype)
  }

  /** The query in numbers (RFC 1035 sections 4.1.1 and 3.2.2): the id; recursion desired and nothing else;
      one question and no records; the name, the type and the Internet class. */
  lemma QueryInNumbers(id: u16, name: seq<byte>, t: RecordType)
    requires GoodName(name)
    ensures var number: byte :=
              (match t case A => 1 case Ns => 2 case Cname => 5 case Mx => 15 case Txt => 16 case Aaaa => 28);
            Query(id, name, t.Code())
            == [id / 256, id % 256, 1, 0, 0, 1, 0, 0, 0, 0, 0, 0] + (NameWire(name) + [0, number, 0, 1])
  {
    var head := Be16(id) + Be16(0x0100) + Be16(1) + Be16(0) + Be16(0) + Be16(0);
    assert head == [id / 256, id % 256, 1, 0, 0, 1, 0, 0, 0, 0, 0, 0];
    Associative(NameWire(name), Be16(t.Code()), Be16(1));
  }

  /** `build_query`. */
  method BuildQuery(id: u16, name: seq<byte>, qtype: u16) returns (r: Result<seq<byte>, NameError>)
    ensures r.Ok? <==> GoodName(name)
    ensures r.Ok? ==> r.value == Query(id, name, qtype) && |r.value| == |Trim(name)| + 18
  {
    var qname :- EncodeName(name);
    var packet := Be16(id);
    packet := packet + Be16(0x0100);
    packet := packet + Be16(1);
    packet := packet + Be16(0);
    packet := packet + Be16(0);
    packet := packet + Be16(0);
    ghost var header := packet;
    packet := packet + qname;
    packet := packet + Be16(qtype);
    packet := packet + Be16(1);
    assert packet == header + Question(name, qtype);
    return Ok(packet);
  }

  /** No question is the beginning of another: a buffer that starts with both has one question. */
  lemma PrefixFree(n1: seq<byte>, t1: u16, n2: seq<byte>, t2: u16, buf: seq<byte>)
    requires GoodName(n1) && GoodName(n2)
    requires Question(n1, t1) <= buf && Question(n2, t2) <= buf
    ensures t1 == t2 && Trim(n1) == Trim(n2) && Question(n1, t1) == Question(n2, t2)
  {
    var w1, w2 := NameWire(n1), NameWire(n2);
    NameRoundTrip(n1, buf[|w1|..]);
    NameRoundTrip(n2, buf[|w2|..]);
    StartsWithName(n1, t1, buf);
    StartsWithName(n2, t2, buf);
  }

  lemma StartsWithName(n: seq<byte>, t: u16, buf: seq<byte>)
    requires GoodName(n) && Question(n, t) <= buf
    ensures var k := |NameWire(n)|;
            buf == NameWire(n) + buf[k..] && |buf| >= k + 4 && U16(buf[k], buf[k + 1]) == t
  {
    var k := |NameWire(n)|;
    var q := Question(n, t);
    assert q[..k] == NameWire(n) && q[k] == Be16(t)[0] && q[k + 1] == Be16(t)[1];
    assert buf[..k] == q[..k];
  }

  // ---- Answers ---------------------------------------------------------------------------------

  datatype AnswerError =
    | ShortHeader | WrongId | NotAResponse | ErrorCode(rcode: nat) | WrongCount | ShortQuestion | WrongQuestion

  /** `validate_response`. */
  function ValidateResponse(buf: seq<byte>, request: seq<byte>, expectedId: u16): (r: Result<(), AnswerError>)
    requires |request| >= HEADER_LEN
  {
    if |buf| < HEADER_LEN then Err(ShortHeader)
    else if U16(buf[0], buf[1]) != expectedId then Err(WrongId)
    else
      var flags := U16(buf[2], buf[3]);
      var qr := flags / 0x8000;
      if qr != 1 then Err(NotAResponse)
      else
        var rcode := flags % 16;
        if rcode != 0 then Err(ErrorCode(rcode))
        else if U16(buf[4], buf[5]) != 1 then Err(WrongCount)
        else
          var question := request[HEADER_LEN..];
          if |buf| < HEADER_LEN + |question| then Err(ShortQuestion)
          else if buf[HEADER_LEN..HEADER_LEN + |question|] != question then Err(WrongQuestion)
          else Ok(())
  }

  /** What is accepted, byte by byte: the id, the response bit, a zero return code, one question, and
      the question itself. */
  lemma AcceptedIff(buf: seq<byte>, request: seq<byte>, id: u16)
    requires |request| >= HEADER_LEN
    ensures ValidateResponse(buf, request, id).Ok?
       <==> |buf| >= |request| && [buf[0], buf[1]] == Be16(id) && buf[2] >= 128 && buf[3] % 16 == 0
            && buf[4] == 0 && buf[5] == 1 && request[HEADER_LEN..] <= buf[HEADER_LEN..]
  {
    if |buf| >= HEADER_LEN {
      assert U16(buf[2], buf[3]) % 16 == buf[3] % 16;
      assert U16(buf[2], buf[3]) / 0x8000 == buf[2] / 128;
      assert [buf[0], buf[1]] == Be16(id) <==> U16(buf[0], buf[1]) == id;
      if |buf| >= |request| {
        assert buf[HEADER_LEN..][..|request| - HEADER_LEN] == buf[HEADER_LEN..|request|];
      }
    }
  }

  /** Each refusal in numbers: the first thing that is wrong. */
  lemma RefusalsInNumbers(buf: seq<byte>, request: seq<byte>, id: u16)
    requires |request| >= 12
    ensures var r := ValidateResponse(buf, request, id);
            && (r == Err(ShortHeader) <==> |buf| < 12)
            && (|buf| >= 12 ==>
                  var idOk, isAnswer := buf[0] as int * 256 + buf[1] as int == id, buf[2] >= 128;
                  var noError, one := buf[3] % 16 == 0, buf[4] == 0 && buf[5] == 1;
                  var fits := |buf| >= |request|;
                  && (r == Err(WrongId) <==> !idOk)
                  && (r == Err(NotAResponse) <==> idOk && !isAnswer)
                  && (r == Err(ErrorCode(buf[3] % 16)) <==> idOk && isAnswer && !noError)
                  && (r == Err(WrongCount) <==> idOk && isAnswer && noError && !one)
                  && (r == Err(ShortQuestion) <==> idOk && isAnswer && noError && one && !fits)
                  && (r == Err(WrongQuestion)
                      <==> idOk && isAnswer && noError && one && fits && buf[12..|request|] != request[12..]))
  {
    if |buf| >= 12 {
      assert U16(buf[2], buf[3]) % 16 == buf[3] % 16;
      assert U16(buf[2], buf[3]) / 0x8000 == buf[2] / 128;
    }
  }

  /** One buffer accepted for two queries: same id, same record type, and the same name up to trailing
      dots. */
  lemma AnswersOneQuery(
    buf: seq<byte>, id1: u16, n1: seq<byte>, t1: RecordType, id2: u16, n2: seq<byte>, t2: RecordType)
    requires GoodName(n1) && GoodName(n2)
    requires ValidateResponse(buf, Query(id1, n1, t1.Code()), id1).Ok?
    requires ValidateResponse(buf, Query(id2, n2, t2.Code()), id2).Ok?
    ensures id1 == id2 && t1 == t2 && Trim(n1) == Trim(n2)
  {
    var q1, q2 := Query(id1, n1, t1.Code()), Query(id2, n2, t2.Code());
    AcceptedIff(buf, q1, id1);
    AcceptedIff(buf, q2, id2);
    assert q1[HEADER_LEN..] == Question(n1, t1.Code());
    assert q2[HEADER_LEN..] == Question(n2, t2.Code());
    PrefixFree(n1, t1.Code(), n2, t2.Code(), buf[HEADER_LEN..]);
  }

  // ---- The responder ---------------------------------------------------------------------------

  /** `b | 0x80`. */
  function SetTopBit(b: byte): (c: byte)
    ensures c >= 128 && c % 128 == b % 128
  {
    if b < 128 then b + 128 else b
  }

  /** `b & 0xF0`. */
  function ClearLowNibble(b: byte): (c: byte)
    ensures c % 16 == 0 && c / 16 == b / 16
  {
    b - b % 16
  }

  /** The loop body of `start_dns_ok` for a datagram of `n` bytes received into `buf`: the reply sent
      back, if any. The buffer is changed in place. */
  method Respond(buf: array<byte>, n: nat) returns (reply: Option<seq<byte>>)
    requires n <= buf.Length == SERVER_BUF
    modifies buf
    ensures reply.Some? <==> n >= HEADER_LEN
    ensures reply.Some? ==> reply.value == old(buf[..n])[2 := SetTopBit(old(buf[2]))][3 := ClearLowNibble(old(buf[3]))]
    ensures forall i | 0 <= i < buf.Length && (n < HEADER_LEN || (i != 2 && i != 3)) :: buf[i] == old(buf[i])
  {
    if n >= HEADER_LEN {
      buf[2] := SetTopBit(buf[2]);
      buf[3] := ClearLowNibble(buf[3]);
      return Some(buf[..n]);
    }
    return None;
  }

  /** Every query fits a datagram buffer, and the responder's reply to it is accepted. */
  lemma ResponderIsAccepted(id: u16, name: seq<byte>, t: RecordType)
    requires GoodName(name)
    ensures var q := Query(id, name, t.Code());
            var reply := q[2 := SetTopBit(q[2])][3 := ClearLowNibble(q[3])];
            && HEADER_LEN <= |q| <= 271 <= 512 == CLIENT_BUF && |q| <= 1024 == SERVER_BUF
            && ValidateResponse(Take(reply, CLIENT_BUF), q, id).Ok?
  {
    QueryShape(id, name, t.Code());
    EchoIsAccepted(id, Query(id, name, t.Code()));
  }

  lemma QueryShape(id: u16, name: seq<byte>, qtype: u16)
    requires GoodName(name)
    ensures var q := Query(id, name, qtype);
            HEADER_LEN <= |q| <= 271 && [q[0], q[1]] == Be16(id) && [q[4], q[5]] == Be16(1)
  {
    NameWireLength(name);
  }

  lemma EchoIsAccepted(id: u16, q: seq<byte>)
    requires HEADER_LEN <= |q| <= CLIENT_BUF && [q[0], q[1]] == Be16(id) && [q[4], q[5]] == Be16(1)
    ensures ValidateResponse(Take(q[2 := SetTopBit(q[2])][3 := ClearLowNibble(q[3])], CLIENT_BUF), q, id).Ok?
  {
    var reply := q[2 := SetTopBit(q[2])][3 := ClearLowNibble(q[3])];
    assert [q[4], q[5]][0] == 0 && [q[4], q[5]][1] == 1;
    assert reply[HEADER_LEN..] == q[HEADER_LEN..];
    AcceptedIff(reply, q, id);
  }
}
