/** A backtracking matcher for the part of regular expressions that the URI parser uses, with ordered
    choice: an optional part is tried before it is skipped, a repetition takes as much as it can and
    gives back one character at a time, and the first way to match everything wins. */
module Regex {
  import opened Bytes

  // ASCII readings of the character classes.
  datatype Class = NotIn(excluded: set<char>) | Word | Digit | NotNewline | Just(c: char)

  predicate In(cls: Class, c: char)
  {
    match cls
    case NotIn(excluded) => c !in excluded
    case Word => 'a' <= c <= 'z' || 'A' <= c <= 'Z' || IsDigit(c) || c == '_'
    case Digit => IsDigit(c)
    case NotNewline => c != '\n'
    case Just(d) => c == d
  }

  predicate IsDigit(c: char)
  {
    '0' <= c <= '9'
  }

  /** The named classes in numbers (ASCII codes). */
  lemma ClassesInNumbers(c: char)
    ensures var n := c as int;
            && (In(Word, c) <==> 48 <= n <= 57 || 65 <= n <= 90 || n == 95 || 97 <= n <= 122)
            && (In(Digit, c) <==> 48 <= n <= 57) && (In(NotNewline, c) <==> n != 10)
  {
  }

  // The named groups of the URI expression.
  datatype Name = Scheme | Username | Password | Host | Domain | Port | Path | Query | Fragment

  datatype Re =
    | Set(cls: Class)
    | Star(cls: Class)
    | Plus(cls: Class)
    | Cat(first: Re, second: Re)
    | Opt(re: Re)
    | Group(name: Name, re: Re)

  // What each named group has captured so far.
  datatype Captures = Captures(
    scheme: Option<string>, username: Option<string>, password: Option<string>,
    host: Option<string>, domain: Option<string>, port: Option<string>,
    path: Option<string>, query: Option<string>, fragment: Option<string>)

  const NOTHING := Captures(None, None, None, None, None, None, None, None, None)

  function Capture(c: Captures, name: Name, text: string): (c': Captures)
  {
    match name
    case Scheme => c.(scheme := Some(text))
    case Username => c.(username := Some(text))
    case Password => c.(password := Some(text))
    case Host => c.(host := Some(text))
    case Domain => c.(domain := Some(text))
    case Port => c.(port := Some(text))
    case Path => c.(path := Some(text))
    case Query => c.(query := Some(text))
    case Fragment => c.(fragment := Some(text))
  }

  // What is still to be matched: expressions, and groups to be closed (with the text from where they
  // were opened).
  datatype Todo = Done | Then(re: Re, rest: Todo) | Close(name: Name, from: string, rest: Todo)

  // The input left over after a match, and the captures.
  datatype Hit = Hit(left: string, captures: Captures)

  function Size(re: Re): (n: nat)
  {
    match re
    case Set(_) => 1
    case Star(_) => 1
    case Plus(_) => 2
    case Cat(a, b) => Size(a) + Size(b) + 1
    case Opt(a) => Size(a) + 1
    case Group(_, a) => Size(a) + 2
  }

  function Weight(k: Todo): (n: nat)
  {
    match k
    case Done => 0
    case Then(re, rest) => Size(re) + Weight(rest)
    case Close(_, _, rest) => 1 + Weight(rest)
  }

  /** The first match in order of preference, if there is one. */
  function Match(k: Todo, s: string, c: Captures): (r: Option<Hit>)
    decreases |s|, Weight(k)
  {
    match k
    case Done => Some(Hit(s, c))
    case Close(name, from, rest) =>
      Match(rest, s, Capture(c, name, if |s| <= |from| then from[..|from| - |s|] else ""))
    case Then(Set(cls), rest) =>
      if s != "" && In(cls, s[0]) then Match(rest, s[1..], c) else None
    case Then(Star(cls), rest) =>
      if s != "" && In(cls, s[0]) then OrElse(Match(k, s[1..], c), Match(rest, s, c)) else Match(rest, s, c)
    case Then(Plus(cls), rest) =>
      if s != "" && In(cls, s[0]) then Match(Then(Star(cls), rest), s[1..], c) else None
    case Then(Cat(a, b), rest) =>
      assert Weight(Then(b, rest)) == Size(b) + Weight(rest);
      Match(Then(a, Then(b, rest)), s, c)
    case Then(Opt(a), rest) => OrElse(Match(Then(a, rest), s, c), Match(rest, s, c))
    case Then(Group(name, a), rest) =>
      assert Weight(Close(name, s, rest)) == 1 + Weight(rest);
      Match(Then(a, Close(name, s, rest)), s, c)
  }

  function OrElse<T>(a: Option<T>, b: Option<T>): (r: Option<T>)
  {
    if a.Some? then a else b
  }

  // ---- How repetitions behave ----------------------------------------------------------------------

  /** The number of characters at the start of `s` that are in the class. */
  function Run(cls: Class, s: string): (n: nat)
    ensures n <= |s|
    ensures forall i | 0 <= i < n :: In(cls, s[i])
    ensures n < |s| ==> !In(cls, s[n])
  {
    if s != "" && In(cls, s[0]) then
      var m := Run(cls, s[1..]);
      assert forall i | 1 <= i < m + 1 :: s[i] == s[1..][i - 1];
      1 + m
    else 0
  }

  /** A run is found where the text says it is. */
  lemma {:induction false} RunIs(cls: Class, t: string, rest: string)
    requires forall i | 0 <= i < |t| :: In(cls, t[i])
    requires rest == "" || !In(cls, rest[0])
    ensures Run(cls, t + rest) == |t|
    decreases |t|
  {
    if t == "" {
      assert t + rest == rest;
    } else {
      assert (t + rest)[1..] == t[1..] + rest;
      RunIs(cls, t[1..], rest);
    }
  }

  /** A run goes on past a text all in the class. */
  lemma {:induction false} RunSkips(cls: Class, s: string, k: nat)
    requires k <= |s| && forall i | 0 <= i < k :: In(cls, s[i])
    ensures Run(cls, s) == k + Run(cls, s[k..])
    decreases k
  {
    if k == 0 {
      assert s[0..] == s;
    } else {
      RunSkips(cls, s[1..], k - 1);
      assert s[1..][k - 1..] == s[k..];
    }
  }

  /** A run that ends inside a text is not changed by what follows the text. */
  lemma {:induction false} RunEndsInside(cls: Class, t: string, rest: string)
    requires Run(cls, t) < |t|
    ensures Run(cls, t + rest) == Run(cls, t)
    decreases |t|
  {
    assert (t + rest)[1..] == t[1..] + rest;
    if In(cls, t[0]) {
      RunEndsInside(cls, t[1..], rest);
    }
  }

  /** A repetition takes the whole run if what follows can match there. */
  lemma {:induction false} StarIsGreedy(cls: Class, rest: Todo, s: string, c: Captures)
    requires Match(rest, s[Run(cls, s)..], c).Some?
    ensures Match(Then(Star(cls), rest), s, c) == Match(rest, s[Run(cls, s)..], c)
    decreases |s|
  {
    if s != "" && In(cls, s[0]) {
      assert s[Run(cls, s)..] == s[1..][Run(cls, s[1..])..];
      StarIsGreedy(cls, rest, s[1..], c);
    } else {
      assert s[0..] == s;
    }
  }

  /** A captured repetition followed by a character that is not in its class: only the whole run can be
      right, so nothing is ever given back. */
  lemma {:induction false} StarThenChar(
    cls: Class, name: Name, from: string, d: char, rest: Todo, s: string, c: Captures)
    requires !In(cls, d) && |s| <= |from|
    ensures var n := Run(cls, s);
            Match(Then(Star(cls), Close(name, from, Then(Set(Just(d)), rest))), s, c)
            == if n < |s| && s[n] == d
               then Match(rest, s[n + 1..], Capture(c, name, from[..|from| - |s| + n])) else None
    decreases |s|
  {
    var literal := Then(Set(Just(d)), rest);
    StepStar(cls, Close(name, from, literal), s, c);
    StepClose(name, from, literal, s, c);
    StepChar(d, rest, s, Capture(c, name, from[..|from| - |s|]));
    if s != "" && In(cls, s[0]) {
      StarThenChar(cls, name, from, d, rest, s[1..], c);
      var n := Run(cls, s);
      assert n < |s| ==> s[n + 1..] == s[1..][n..];
    }
  }

  // ---- One step of the matcher, for each form -------------------------------------------------------

  lemma StepCat(a: Re, b: Re, rest: Todo, s: string, c: Captures)
    ensures Match(Then(Cat(a, b), rest), s, c) == Match(Then(a, Then(b, rest)), s, c)
  {
  }

  lemma StepChar(d: char, rest: Todo, s: string, c: Captures)
    ensures Match(Then(Set(Just(d)), rest), s, c) == if s != "" && s[0] == d then Match(rest, s[1..], c) else None
  {
  }

  lemma StepStar(cls: Class, rest: Todo, s: string, c: Captures)
    ensures Match(Then(Star(cls), rest), s, c)
         == if s != "" && In(cls, s[0]) then OrElse(Match(Then(Star(cls), rest), s[1..], c), Match(rest, s, c))
            else Match(rest, s, c)
  {
  }

  lemma StepPlus(cls: Class, rest: Todo, s: string, c: Captures)
    ensures Match(Then(Plus(cls), rest), s, c)
         == if s != "" && In(cls, s[0]) then Match(Then(Star(cls), rest), s[1..], c) else None
  {
  }

  lemma StepOpt(a: Re, rest: Todo, s: string, c: Captures)
    ensures Match(Then(Opt(a), rest), s, c) == OrElse(Match(Then(a, rest), s, c), Match(rest, s, c))
  {
  }

  lemma StepGroup(name: Name, a: Re, rest: Todo, s: string, c: Captures)
    ensures Match(Then(Group(name, a), rest), s, c) == Match(Then(a, Close(name, s, rest)), s, c)
  {
  }

  lemma StepClose(name: Name, from: string, rest: Todo, s: string, c: Captures)
    requires |s| <= |from|
    ensures Match(Close(name, from, rest), s, c) == Match(rest, s, Capture(c, name, from[..|from| - |s|]))
  {
  }

  /** A character followed by a captured repetition, when what follows can match after the whole run. */
  lemma CharThenStar(d: char, name: Name, cls: Class, rest: Todo, s: string, c: Captures)
    requires s != "" && s[0] == d
    requires var n := Run(cls, s[1..]); Match(rest, s[1..][n..], Capture(c, name, s[1..][..n])).Some?
    ensures var n := Run(cls, s[1..]);
            Match(Then(Cat(Set(Just(d)), Group(name, Star(cls))), rest), s, c)
            == Match(rest, s[1..][n..], Capture(c, name, s[1..][..n]))
  {
    StepCat(Set(Just(d)), Group(name, Star(cls)), rest, s, c);
    StepChar(d, Then(Group(name, Star(cls)), rest), s, c);
    StarInGroup(name, cls, rest, s[1..], c);
  }

  /** A captured repetition, when what follows can match after the whole run. */
  lemma StarInGroup(name: Name, cls: Class, rest: Todo, s: string, c: Captures)
    requires Match(rest, s[Run(cls, s)..], Capture(c, name, s[..Run(cls, s)])).Some?
    ensures Match(Then(Group(name, Star(cls)), rest), s, c)
         == Match(rest, s[Run(cls, s)..], Capture(c, name, s[..Run(cls, s)]))
  {
    StepGroup(name, Star(cls), rest, s, c);
    StepClose(name, s, rest, s[Run(cls, s)..], c);
    StarIsGreedy(cls, Close(name, s, rest), s, c);
  }

  /** A captured non-empty repetition, when what follows can match after the whole run. */
  lemma PlusInGroup(name: Name, cls: Class, rest: Todo, s: string, c: Captures)
    requires var n := Run(cls, s); n > 0 ==> Match(rest, s[n..], Capture(c, name, s[..n])).Some?
    ensures var n := Run(cls, s);
            Match(Then(Group(name, Plus(cls)), rest), s, c)
            == if n > 0 then Match(rest, s[n..], Capture(c, name, s[..n])) else None
  {
    var n := Run(cls, s);
    StepGroup(name, Plus(cls), rest, s, c);
    if n > 0 {
      var k := Close(name, s, rest);
      assert s[1..][n - 1..] == s[n..];
      StepClose(name, s, rest, s[n..], c);
      StarIsGreedy(cls, k, s[1..], c);
      StepPlus(cls, k, s, c);
    }
  }

  /** A captured non-empty repetition followed by a character that is not in its class. */
  lemma PlusThenChar(name: Name, cls: Class, d: char, rest: Todo, s: string, c: Captures)
    requires !In(cls, d)
    ensures var n := Run(cls, s);
            Match(Then(Group(name, Plus(cls)), Then(Set(Just(d)), rest)), s, c)
            == if 0 < n < |s| && s[n] == d then Match(rest, s[n + 1..], Capture(c, name, s[..n])) else None
  {
    var n := Run(cls, s);
    var k := Then(Set(Just(d)), rest);
    StepGroup(name, Plus(cls), k, s, c);
    if n > 0 {
      StarThenChar(cls, name, s, d, rest, s[1..], c);
      assert n < |s| ==> s[1..][n..] == s[n + 1..];
      StepPlus(cls, Close(name, s, k), s, c);
    }
  }
}
