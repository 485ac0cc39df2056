/** The end of a header block: the first empty line of a CRLF text. */
module Headers {
  import opened Bytes

  const CR: byte := 0x0D
  const LF: byte := 0x0A
  const TERMINATOR: seq<byte> := [CR, LF, CR, LF]

  predicate TerminatorAt(s: seq<byte>, i: nat)
  {
    i + 4 <= |s| && s[i] == CR && s[i + 1] == LF && s[i + 2] == CR && s[i + 3] == LF
  }

  /** The terminator in numbers: CR is 13, LF is 10. */
  lemma TerminatorInNumbers(s: seq<byte>, i: nat)
    ensures TerminatorAt(s, i) <==> i + 4 <= |s| && s[i..i + 4] == [13, 10, 13, 10]
    ensures TERMINATOR == [13, 10, 13, 10] && CR == 13 && LF == 10
  {
    if i + 4 <= |s| {
      var w := s[i..i + 4];
      assert w[0] == s[i] && w[1] == s[i + 1] && w[2] == s[i + 2] && w[3] == s[i + 3];
    }
  }

  /** `windows(4).position(|w| w == b"\r\n\r\n")`, which is also `find_header_terminator`. */
  function FindTerminator(s: seq<byte>): (r: Option<nat>)
    ensures r.Some? ==> TerminatorAt(s, r.value) && forall i: nat | i < r.value :: !TerminatorAt(s, i)
    ensures r.None? ==> forall i: nat :: !TerminatorAt(s, i)
  {
    FindFrom(s, 0)
  }

  function FindFrom(s: seq<byte>, from: nat): (r: Option<nat>)
    requires from <= |s|
    ensures r.Some? ==> TerminatorAt(s, r.value) && forall i: nat | from <= i < r.value :: !TerminatorAt(s, i)
    ensures r.None? ==> forall i: nat | from <= i :: !TerminatorAt(s, i)
    decreases |s| - from
  {
    if from == |s| then None
    else if TerminatorAt(s, from) then Some(from)
    else FindFrom(s, from + 1)
  }

  /** A terminator seen in a part that has been read is there in the whole. */
  lemma FoundInPrefix(s: seq<byte>, k: nat)
    requires k <= |s|
    ensures FindTerminator(s[..k]).Some? ==> FindTerminator(s) == FindTerminator(s[..k])
  {
    var r := FindTerminator(s[..k]);
    if r.Some? {
      assert TerminatorAt(s, r.value);
      forall i: nat | i < r.value
        ensures !TerminatorAt(s, i)
      {
        assert !TerminatorAt(s[..k], i);
      }
    }
  }

  lemma TerminatedEnd(s: seq<byte>)
    ensures FindTerminator(s + TERMINATOR).Some?
  {
    assert TerminatorAt(s + TERMINATOR, |s|);
  }

  /** Texts without a CR that are no longer than what has been read when a terminator shows up: whether
      the whole begins with such a text can be told from the part. */
  lemma PrefixDecided(text: seq<byte>, s: seq<byte>, k: nat)
    requires CR !in text && k <= |s|
    requires FindTerminator(s[..k]).Some? || |text| <= k
    ensures text <= s <==> text <= s[..k]
  {
  }
}
