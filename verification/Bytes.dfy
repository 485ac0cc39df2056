/** Bytes, big-endian words and the result types shared by every codec. */
module Bytes {

  // A Rust `u8`. The masks the source uses are written as arithmetic: `b & 0x7F` is `b % 128`,
  // `b & 0x80 == 0` is `b < 128` and `b & 0xF0` is `b - b % 16`.
  type byte = b: int | 0 <= b < 256

  // A Rust `u16`.
  type u16 = n: int | 0 <= n < 0x1_0000

  datatype Option<+T> = None | Some(value: T) {
    function GetOr(default: T): (t: T)
    {
      match this
      case Some(v) => v
      case None => default
    }
  }

  datatype Result<+T, +E> = Ok(value: T) | Err(error: E) {
    predicate IsFailure()
    {
      Err?
    }

    function PropagateFailure<U>(): Result<U, E>
      requires Err?
    {
      Err(error)
    }

    function Extract(): T
      requires Ok?
    {
      value
    }
  }

  /** The big-endian bytes of a 16-bit word. */
  function Be16(n: u16): (s: seq<byte>)
    ensures |s| == 2 && U16(s[0], s[1]) == n
  {
    [n / 256, n % 256]
  }

  /** The 16-bit word with the given big-endian bytes. */
  function U16(hi: byte, lo: byte): (n: u16)
    ensures n / 256 == hi && n % 256 == lo
  {
    hi * 256 + lo
  }

  /** The first `n` bytes of `s`, or all of it when it is shorter. */
  function Take(s: seq<byte>, n: nat): (t: seq<byte>)
    ensures t <= s && |t| == if n < |s| then n else |s|
  {
    if n < |s| then s[..n] else s
  }

  /** The bytes of an ASCII text. */
  function Ascii(s: string): (bs: seq<byte>)
    ensures |bs| == |s| && forall i | 0 <= i < |s| && s[i] < 128 as char :: bs[i] == s[i] as int
  {
    seq(|s|, i requires 0 <= i < |s| => if s[i] < 128 as char then s[i] as int else 63)
  }

  lemma AsciiAppend(a: string, b: string)
    ensures Ascii(a + b) == Ascii(a) + Ascii(b)
  {
  }

  function Pow10(k: nat): (p: nat)
  {
    if k == 0 then 1 else 10 * Pow10(k - 1)
  }

  /** The number with the given decimal digits, the most significant first. */
  function PlaceValue(digits: seq<nat>): (n: nat)
  {
    if digits == [] then 0 else digits[0] * Pow10(|digits| - 1) + PlaceValue(digits[1..])
  }

  lemma {:induction false} PlaceValueAppend(digits: seq<nat>, d: nat)
    ensures PlaceValue(digits + [d]) == 10 * PlaceValue(digits) + d
    decreases |digits|
  {
    if digits == [] {
      assert PlaceValue([d][1..]) == 0 && Pow10(0) == 1;
    } else {
      assert (digits + [d])[1..] == digits[1..] + [d];
      PlaceValueAppend(digits[1..], d);
      TenTimes(digits[0], Pow10(|digits| - 1));
    }
  }

  lemma TenTimes(d: nat, p: nat)
    ensures d * (10 * p) == 10 * (d * p)
  {
  }

  /** `copy_from_slice` into a part of an array. */
  method CopyInto(a: array<byte>, at: nat, bytes: seq<byte>)
    requires at + |bytes| <= a.Length
    modifies a
    ensures a[..at + |bytes|] == old(a[..at]) + bytes
    ensures a[at + |bytes|..] == old(a[at + |bytes|..])
    ensures forall i | at + |bytes| <= i < a.Length :: a[i] == old(a[i])
  {
    forall i | 0 <= i < |bytes| {
      a[at + i] := bytes[i];
    }
  }

  /** A text cut at a separator. */
  lemma CutAt<T>(a: seq<T>, d: T, b: seq<T>)
    ensures var s := a + ([d] + b);
            s[|a|] == d && s[..|a|] == a && s[|a|..] == [d] + b && s[|a| + 1..] == b
  {
  }

  lemma InPrefix<T>(s: seq<T>, i: nat, j: nat, n: nat)
    requires i <= j <= n <= |s|
    ensures s[..n][i..j] == s[i..j] && s[..j] == s[..i] + s[i..j]
  {
  }

  lemma Associative<T>(a: seq<T>, b: seq<T>, c: seq<T>)
    ensures a + b + c == a + (b + c)
  {
  }

  /** Dropping more than the first part of a concatenation drops from the second part. */
  lemma DropAppend<T>(a: seq<T>, b: seq<T>)
    ensures (a + b)[|a|..] == b && (a + b)[..|a|] == a
  {
  }

  lemma PlusNothing<T>(s: seq<T>)
    ensures s + [] == s && [] + s == s && s[..|s|] == s
  {
  }

  lemma FirstAndRest<T>(s: seq<T>, t: seq<T>)
    requires s != []
    ensures [s[0]] + (s[1..] + t) == s + t && [s[0]] + s[1..] == s
  {
  }

  lemma PrefixAndFirst<T>(s: seq<T>, k: nat)
    requires 0 < k <= |s|
    ensures s[..k] == [s[0]] + s[1..][..k - 1] && s[..k][0] == s[0]
  {
  }

  lemma LastOfAppended<T>(a: seq<T>, b: seq<T>)
    requires b != []
    ensures var s := a + b; s[..|s| - 1] == a + b[..|b| - 1] && s[|s| - 1] == b[|b| - 1]
  {
  }

  lemma TakeAppend(a: seq<byte>, b: seq<byte>, n: nat)
    ensures Take(a + b, n) == if n < |a| then Take(a, n) else a + Take(b, n - |a|)
  {
  }
}
