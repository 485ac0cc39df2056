/** The MQTT variable byte integer (MQTT 3.1.1 section 2.2.3): base-128 digits, least significant
    first, the top bit of a byte saying that another digit follows. */
module Varint {
  import opened Bytes

  // A reader looks at no more than this many digits.
  const MAX_DIGITS := 4

  function Pow128(k: nat): (p: nat)
    ensures p >= 1
  {
    if k == 0 then 1 else 128 * Pow128(k - 1)
  }

  /** The digits of `n`, each but the last with its continuation bit set. */
  function Digits(n: nat): (s: seq<byte>)
    ensures s != []
  {
    if n < 128 then [n] else [n % 128 + 128] + Digits(n / 128)
  }

  /** zpinger's `encode_varint`. */
  method EncodeVarint(n: nat) returns (out: seq<byte>)
    ensures out == Digits(n)
  {
    out := [];
    var value := n;
    while true
      invariant out + Digits(value) == Digits(n)
      decreases value
    {
      var b: byte := value % 128;
      ghost var before := value;
      value := value / 128;
      if value > 0 {
        b := b + 128;
      }
      assert Digits(before) == [b] + if value == 0 then [] else Digits(value);
      out := out + [b];
      if value == 0 {
        return;
      }
    }
  }

  // What a reader finds at the start of a stream: a length and the number of bytes it took,
  // an unfinished length, or one with too many digits.
  datatype Length = Value(n: nat, used: nat) | Short | TooLong

  /** The grammar of a length with at most `digits` digits. */
  function ReadLength(s: seq<byte>, digits: nat): (r: Length)
    ensures r.Value? ==> 1 <= r.used <= |s| && r.used <= digits
  {
    if digits == 0 then TooLong
    else if s == [] then Short
    else if s[0] < 128 then Value(s[0], 1)
    else
      match ReadLength(s[1..], digits - 1)
      case Value(n, used) => Value(s[0] - 128 + 128 * n, used + 1)
      case other => other
  }

  /** The length of an encoding: one more digit for each factor of 128. */
  lemma {:induction false} DigitsLength(n: nat, k: nat)
    ensures |Digits(n)| <= k <==> n < Pow128(k) && k > 0
  {
    if n < 128 {
      if k > 1 {
        DigitsLength(n, k - 1);
      }
    } else if k > 0 {
      DigitsLength(n / 128, k - 1);
      assert n == 128 * (n / 128) + n % 128;
    }
  }

  /** Reading an encoding back, whatever follows it: exact below 128^digits, refused from there on. */
  lemma {:induction false} RoundTrip(n: nat, rest: seq<byte>, digits: nat)
    requires digits > 0
    ensures ReadLength(Digits(n) + rest, digits)
         == if n < Pow128(digits) then Value(n, |Digits(n)|) else TooLong
  {
    var s := Digits(n) + rest;
    if n >= 128 {
      assert s[1..] == Digits(n / 128) + rest;
      assert n == 128 * (n / 128) + n % 128;
      if digits > 1 {
        RoundTrip(n / 128, rest, digits - 1);
      }
    } else if digits > 1 {
      assert Pow128(digits) >= 128;
    }
  }

  /** The four-digit reader inverts the encoder exactly below 2^28 and refuses everything larger. */
  lemma RoundTripIff(n: nat, rest: seq<byte>)
    ensures n < 0x1000_0000 <==> ReadLength(Digits(n) + rest, MAX_DIGITS) == Value(n, |Digits(n)|)
    ensures n >= 0x1000_0000 <==> ReadLength(Digits(n) + rest, MAX_DIGITS) == TooLong
  {
    RoundTrip(n, rest, MAX_DIGITS);
    Pow128Values();
  }

  lemma Pow128Values()
    ensures Pow128(1) == 128 && Pow128(2) == 0x4000
    ensures Pow128(3) == 0x20_0000 && Pow128(4) == 0x1000_0000
  {
    assert Pow128(2) == 128 * Pow128(1);
    assert Pow128(3) == 128 * Pow128(2);
    assert Pow128(4) == 128 * Pow128(3);
  }

  /** A length in progress with one more digit added: `(b & 0x7F) * multiplier`. */
  function AddDigit(acc: nat, b: byte, multiplier: nat): (total: nat)
  {
    acc + b % 128 * multiplier
  }

  /** `n` written with exactly `used` digits, zero digits filling up. */
  function Padded(n: nat, used: nat): (s: seq<byte>)
    requires 0 < used && n < Pow128(used)
    ensures |s| == used
  {
    if used == 1 then [n] else [n % 128 + 128] + Padded(n / 128, used - 1)
  }

  /** Everything the reader accepts: the strings read as `n` in `used` bytes are those starting with
      the one padded form of that length. */
  lemma {:induction false} AcceptedForms(s: seq<byte>, digits: nat, n: nat, used: nat)
    ensures ReadLength(s, digits) == Value(n, used)
       <==> 0 < used <= digits && used <= |s| && n < Pow128(used) && s[..used] == Padded(n, used)
  {
    if digits == 0 || s == [] || used == 0 {
    } else if s[0] < 128 {
      if used > 1 && n < Pow128(used) && used <= |s| {
        assert s[..used][0] == s[0];
      }
      assert used == 1 ==> s[..used] == [s[0]];
    } else {
      AcceptedForms(s[1..], digits - 1, n / 128, used - 1);
      if 1 < used <= |s| {
        PrefixAndFirst(s, used);
        assert n == 128 * (n / 128) + n % 128;
      } else if used == 1 {
        assert s[..1][0] == s[0];
      }
    }
  }

  /** The encoder's output is the shortest of all forms of `n`, and the only one of that length:
      a longer form is recognised by its zero last digit. */
  lemma {:induction false} EncoderIsShortest(s: seq<byte>, digits: nat, n: nat, used: nat)
    requires ReadLength(s, digits) == Value(n, used)
    ensures |Digits(n)| <= used
    ensures |Digits(n)| == used <==> s[..used] == Digits(n)
    ensures |Digits(n)| == used <==> used == 1 || s[used - 1] != 0
  {
    if s[0] < 128 {
      assert s[..1] == [s[0]];
    } else {
      var m := (n - (s[0] - 128)) / 128;
      EncoderIsShortest(s[1..], digits - 1, m, used - 1);
      PrefixAndFirst(s, used);
      if n < 128 {
        assert m == 0;
        assert s[1..][..used - 1] == Digits(0) <==> used == 2 && s[1] == 0;
      }
    }
  }

  /** No accepted length exceeds 268435455. */
  lemma LengthBound(s: seq<byte>)
    requires ReadLength(s, MAX_DIGITS).Value?
    ensures ReadLength(s, MAX_DIGITS).n <= 268_435_455
  {
    var v := ReadLength(s, MAX_DIGITS);
    AcceptedForms(s, MAX_DIGITS, v.n, v.used);
    Pow128Values();
  }
}
