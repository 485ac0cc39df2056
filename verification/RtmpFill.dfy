/** The client's C1 block: a time, four zero bytes and an xorshift fill. */
module RtmpFill {
  import opened Bytes

  const PAYLOAD_LEN := 1536
  const HEADER_LEN := 8
  const WORDS := 382

  function Xor(x: bv32, y: bv32): (z: bv32) { x ^ y }
  function Left13(x: bv32): (y: bv32) { x << 13 }
  function Right17(x: bv32): (y: bv32) { x >> 17 }
  function Left5(x: bv32): (y: bv32) { x << 5 }

  function Shift13(x: bv32): (y: bv32) { Xor(x, Left13(x)) }
  function Shift17(x: bv32): (y: bv32) { Xor(x, Right17(x)) }
  function Shift5(x: bv32): (y: bv32) { Xor(x, Left5(x)) }

  /** One step of xorshift32. */
  function Step(x: bv32): (y: bv32)
  {
    Shift5(Shift17(Shift13(x)))
  }

  lemma Shift13Injective(x: bv32, y: bv32)
    requires Shift13(x) == Shift13(y)
    ensures x == y
  {
  }

  lemma CancelRight(x: bv32, y: bv32, a: bv32)
    requires Xor(x, a) == Xor(y, a)
    ensures x == y
  {
  }

  lemma HighBitsKept(x: bv32)
    ensures Right17(Shift17(x)) == Right17(x)
  {
  }

  lemma Shift17Injective(x: bv32, y: bv32)
    requires Shift17(x) == Shift17(y)
    ensures x == y
  {
    HighBitsKept(x);
    HighBitsKept(y);
    assert Right17(x) == Right17(y);
    CancelRight(x, y, Right17(x));
  }

  lemma Shift5Injective(x: bv32, y: bv32)
    requires Shift5(x) == Shift5(y)
    ensures x == y
  {
  }

  /** The step loses nothing, and only zero leads to zero. */
  lemma StepInjective(x: bv32, y: bv32)
    ensures Step(x) == Step(y) <==> x == y
    ensures Step(x) == 0 <==> x == 0
  {
    if Step(x) == Step(y) {
      Shift5Injective(Shift17(Shift13(x)), Shift17(Shift13(y)));
      Shift17Injective(Shift13(x), Shift13(y));
      Shift13Injective(x, y);
    }
    if Step(x) == 0 {
      assert Step(0) == 0;
      Shift5Injective(Shift17(Shift13(x)), Shift17(Shift13(0)));
      Shift17Injective(Shift13(x), Shift13(0));
      Shift13Injective(x, 0);
    }
  }

  lemma Shuffle(a: bv32, b: bv32, c: bv32, d: bv32)
    ensures Xor(Xor(a, b), Xor(c, d)) == Xor(Xor(a, c), Xor(b, d))
  {
    Commutes(b, c);
    Regroups(a, b, Xor(c, d));
    Regroups(b, c, d);
    Regroups(c, b, d);
    Regroups(a, c, Xor(b, d));
  }

  lemma Commutes(a: bv32, b: bv32)
    ensures Xor(a, b) == Xor(b, a)
  {
  }

  lemma Regroups(a: bv32, b: bv32, c: bv32)
    ensures Xor(Xor(a, b), c) == Xor(a, Xor(b, c))
  {
  }

  lemma Left13OfXor(a: bv32, b: bv32)
    ensures Left13(Xor(a, b)) == Xor(Left13(a), Left13(b))
  {
  }

  lemma Right17OfXor(a: bv32, b: bv32)
    ensures Right17(Xor(a, b)) == Xor(Right17(a), Right17(b))
  {
  }

  lemma Left5OfXor(a: bv32, b: bv32)
    ensures Left5(Xor(a, b)) == Xor(Left5(a), Left5(b))
  {
  }

  lemma Shift13IsLinear(a: bv32, b: bv32)
    ensures Shift13(Xor(a, b)) == Xor(Shift13(a), Shift13(b))
  {
    Left13OfXor(a, b);
    Shuffle(a, b, Left13(a), Left13(b));
  }

  lemma Shift17IsLinear(a: bv32, b: bv32)
    ensures Shift17(Xor(a, b)) == Xor(Shift17(a), Shift17(b))
  {
    Right17OfXor(a, b);
    Shuffle(a, b, Right17(a), Right17(b));
  }

  lemma Shift5IsLinear(a: bv32, b: bv32)
    ensures Shift5(Xor(a, b)) == Xor(Shift5(a), Shift5(b))
  {
    Left5OfXor(a, b);
    Shuffle(a, b, Left5(a), Left5(b));
  }

  /** The step is linear over exclusive or, ... */
  lemma StepIsLinear(a: bv32, b: bv32)
    ensures Step(Xor(a, b)) == Xor(Step(a), Step(b))
  {
    Shift13IsLinear(a, b);
    Shift17IsLinear(Shift13(a), Shift13(b));
    Shift5IsLinear(Shift17(Shift13(a)), Shift17(Shift13(b)));
  }

  /** ... and so determined by what it does to single bits: these are the values of xorshift32 with the
      shifts 13, 17 and 5, left, right, left. */
  lemma StepOfBits()
    ensures Step(0x00000001) == 0x00042021 && Step(0x00000002) == 0x00084042
    ensures Step(0x00000004) == 0x00108084 && Step(0x00000008) == 0x00210108
    ensures Step(0x00000010) == 0x00420231 && Step(0x00000020) == 0x00840462
    ensures Step(0x00000040) == 0x010808C4 && Step(0x00000080) == 0x02101188
    ensures Step(0x00000100) == 0x04202310 && Step(0x00000200) == 0x08404620
    ensures Step(0x00000400) == 0x10808C40 && Step(0x00000800) == 0x21011880
    ensures Step(0x00001000) == 0x42023100 && Step(0x00002000) == 0x84046200
    ensures Step(0x00004000) == 0x0808C400 && Step(0x00008000) == 0x10118800
    ensures Step(0x00010000) == 0x20231000 && Step(0x00020000) == 0x40462021
    ensures Step(0x00040000) == 0x808C4042 && Step(0x00080000) == 0x01080084
    ensures Step(0x00100000) == 0x02100108 && Step(0x00200000) == 0x04200210
    ensures Step(0x00400000) == 0x08400420 && Step(0x00800000) == 0x10800840
    ensures Step(0x01000000) == 0x21001080 && Step(0x02000000) == 0x42002100
    ensures Step(0x04000000) == 0x84004200 && Step(0x08000000) == 0x08008400
    ensures Step(0x10000000) == 0x10010800 && Step(0x20000000) == 0x20021000
    ensures Step(0x40000000) == 0x40042000 && Step(0x80000000) == 0x80084000
  {
  }

  /** The big-endian bytes of a number below 2^32. */
  function BeBytes(n: nat): (s: seq<byte>)
    requires n < 0x1_0000_0000
    ensures |s| == 4
  {
    var high, middle := n / 256 / 256 / 256, n / 256 / 256;
    [high, middle % 256, n / 256 % 256, n % 256]
  }

  /** Most significant byte first. */
  lemma BeBytesSpell(n: nat)
    requires n < 0x1_0000_0000
    ensures var s := BeBytes(n);
            ((s[0] as int * 256 + s[1] as int) * 256 + s[2] as int) * 256 + s[3] as int == n
  {
  }

  lemma SameBytes(m: nat, n: nat)
    requires m < 0x1_0000_0000 && n < 0x1_0000_0000
    ensures BeBytes(m) == BeBytes(n) <==> m == n
  {
    var s, t := BeBytes(m), BeBytes(n);
    if s == t {
      assert s[0] == t[0] && s[1] == t[1] && s[2] == t[2] && s[3] == t[3];
    }
  }

  /** `to_be_bytes` of a 32-bit word. */
  function Be32(w: bv32): (s: seq<byte>)
    ensures |s| == 4
  {
    BeBytes(w as int)
  }

  lemma Be32Spells(w: bv32)
    ensures var s := Be32(w);
            ((s[0] as int * 256 + s[1] as int) * 256 + s[2] as int) * 256 + s[3] as int == w as int
  {
    BeBytesSpell(w as int);
  }

  lemma Be32Injective(v: bv32, w: bv32)
    ensures Be32(v) == Be32(w) <==> v == w
  {
    SameBytes(v as int, w as int);
    assert (v as int) as bv32 == v && (w as int) as bv32 == w;
  }

  /** The accumulator after `k` rounds. */
  function Word(seed: bv32, k: nat): (w: bv32)
  {
    if k == 0 then seed else Step(Word(seed, k - 1))
  }

  /** A C1 block with its first `k` words of fill: the time, four zero bytes, the words. */
  function C1(seed: bv32, k: nat): (s: seq<byte>)
    ensures |s| == HEADER_LEN + 4 * k
  {
    if k == 0 then Be32(seed) + [0, 0, 0, 0] else C1(seed, k - 1) + Be32(Word(seed, k))
  }

  /** `build_c1`: exactly 382 words fill the block. */
  method BuildC1(nanos: bv32) returns (buf: array<byte>)
    ensures fresh(buf) && buf.Length == PAYLOAD_LEN
    ensures buf[..] == C1(nanos, WORDS)
  {
    buf := new byte[PAYLOAD_LEN](_ => 0);
    CopyInto(buf, 0, Be32(nanos));
    CopyInto(buf, 4, [0, 0, 0, 0]);
    assert buf[..8] == C1(nanos, 0);
    var acc := nanos;
    var at := HEADER_LEN;
    ghost var chunks := 0;
    while at < PAYLOAD_LEN
      invariant chunks <= WORDS && at == HEADER_LEN + 4 * chunks && acc == Word(nanos, chunks)
      invariant buf[..at] == C1(nanos, chunks)
    {
      acc := Shift13(acc);
      acc := Shift17(acc);
      acc := Shift5(acc);
      CopyInto(buf, at, Be32(acc));
      at := at + 4;
      chunks := chunks + 1;
    }
    assert buf[..] == buf[..at];
  }

  lemma Slice(s: seq<byte>, t: seq<byte>, i: nat, j: nat)
    requires i <= j <= |s|
    ensures (s + t)[i..j] == s[i..j]
  {
  }

  lemma LastPart(s: seq<byte>, t: seq<byte>)
    ensures (s + t)[|s|..|s| + |t|] == t
  {
  }

  lemma {:induction false} C1Header(seed: bv32, n: nat)
    ensures C1(seed, n)[0..4] == Be32(seed) && C1(seed, n)[4..8] == [0, 0, 0, 0]
  {
    if n > 0 {
      C1Header(seed, n - 1);
      Slice(C1(seed, n - 1), Be32(Word(seed, n)), 0, 4);
      Slice(C1(seed, n - 1), Be32(Word(seed, n)), 4, 8);
    }
  }

  lemma {:induction false} C1Word(seed: bv32, n: nat, k: nat)
    requires 1 <= k <= n
    ensures C1(seed, n)[4 + 4 * k..8 + 4 * k] == Be32(Word(seed, k))
  {
    if k < n {
      C1Word(seed, n - 1, k);
      Slice(C1(seed, n - 1), Be32(Word(seed, n)), 4 + 4 * k, 8 + 4 * k);
    } else {
      LastPart(C1(seed, n - 1), Be32(Word(seed, n)));
    }
  }

  /** Two seeds give the same word at a position exactly when they are the same seed, and a word is
      zero exactly when the seed is. */
  lemma {:induction false} WordsDiffer(a: bv32, b: bv32, k: nat)
    ensures Word(a, k) == Word(b, k) <==> a == b
    ensures Word(a, k) == 0 <==> a == 0
  {
    if k > 0 {
      StepInjective(Word(a, k - 1), Word(b, k - 1));
      WordsDiffer(a, b, k - 1);
    }
  }

  /** A C1 block as the wire shows it: bytes 4..8 are zero; with a non-zero clock no word of the fill
      is zero; blocks built from different clocks differ in every word of it. */
  lemma FillDiffers(a: bv32, b: bv32, k: nat)
    requires 1 <= k <= WORDS
    ensures C1(a, WORDS)[4..8] == [0, 0, 0, 0]
    ensures C1(a, WORDS)[4 + 4 * k..8 + 4 * k] == C1(b, WORDS)[4 + 4 * k..8 + 4 * k] <==> a == b
    ensures C1(a, WORDS)[4 + 4 * k..8 + 4 * k] == [0, 0, 0, 0] <==> a == 0
  {
    C1Header(a, WORDS);
    C1Word(a, WORDS, k);
    C1Word(b, WORDS, k);
    WordsDiffer(a, b, k);
    Be32Injective(Word(a, k), Word(b, k));
    Be32Zero(Word(a, k));
  }

  lemma Be32Zero(w: bv32)
    ensures Be32(w) == [0, 0, 0, 0] <==> w == 0
  {
    Be32Injective(w, 0);
  }
}
