/** zpinger's URI object: the regular expression it parses with, the fields, and the printer.
    Characters are ASCII. */
module Uri {
  import opened Bytes
  import opened Regex

  // ---- The expression --------------------------------------------------------------------------

  const SCHEME_CHARS := NotIn({'/', '?', '#'})
  const DOMAIN_CHARS := NotIn({'/', '?', '#', ':'})
  const PATH_CHARS := NotIn({'?', '#'})
  const QUERY_CHARS := NotIn({'#'})

  /** What ends each part: the bracketed classes of the expression. */
  lemma ClassesOfParts(c: char)
    ensures In(SCHEME_CHARS, c) <==> c != '/' && c != '?' && c != '#'
    ensures In(DOMAIN_CHARS, c) <==> c != '/' && c != '?' && c != '#' && c != ':'
    ensures In(PATH_CHARS, c) <==> c != '?' && c != '#'
    ensures In(QUERY_CHARS, c) <==> c != '#'
  {
  }

  const SCHEME_PART :=
    Cat(Cat(Cat(Group(Scheme, Plus(SCHEME_CHARS)), Set(Just(':'))), Set(Just('/'))), Set(Just('/')))
  const USER_PART :=
    Cat(Cat(Cat(Group(Username, Plus(Word)), Set(Just(':'))), Group(Password, Plus(Word))), Set(Just('@')))
  const PORT_PART := Cat(Set(Just(':')), Group(Port, Star(Digit)))
  const HOST_PART := Group(Host, Cat(Group(Domain, Plus(DOMAIN_CHARS)), Opt(PORT_PART)))
  const PATH_PART := Group(Path, Star(PATH_CHARS))
  const QUERY_PART := Cat(Set(Just('?')), Group(Query, Star(QUERY_CHARS)))
  const FRAGMENT_PART := Cat(Set(Just('#')), Group(Fragment, Star(NotNewline)))

  // What the matcher still has to do after each part.
  const AFTER_QUERY := Then(Opt(FRAGMENT_PART), Done)
  const AFTER_PATH := Then(Opt(QUERY_PART), AFTER_QUERY)
  const AFTER_HOST := Then(PATH_PART, AFTER_PATH)
  const AFTER_USER := Then(Opt(HOST_PART), AFTER_HOST)
  const AFTER_SCHEME := Then(Opt(USER_PART), AFTER_USER)
  const EXPRESSION := Then(Opt(SCHEME_PART), AFTER_SCHEME)

  /** The captures of the leftmost-first match, anchored at the start. */
  function Captured(url: string): (r: Option<Hit>)
  {
    Match(EXPRESSION, url, NOTHING)
  }

  // ---- One pass from left to right ---------------------------------------------------------------

  predicate SchemeAt(s: string, n: nat)
  {
    n >= 2 && n + 2 <= |s| && s[n - 1] == ':' && s[n] == '/' && s[n + 1] == '/'
  }

  function SchemePass(h: Hit): (h': Hit)
  {
    var s := h.left;
    var n := Run(SCHEME_CHARS, s);
    if SchemeAt(s, n) then Hit(s[n + 2..], h.captures.(scheme := Some(s[..n - 1]))) else h
  }

  function UserPass(h: Hit): (h': Hit)
  {
    var s := h.left;
    var n := Run(Word, s);
    if n == 0 || n >= |s| || s[n] != ':' then h
    else
      var t := s[n + 1..];
      var m := Run(Word, t);
      if m == 0 || m >= |t| || t[m] != '@' then h
      else Hit(t[m + 1..], h.captures.(username := Some(s[..n]), password := Some(t[..m])))
  }

  function HostPass(h: Hit): (h': Hit)
  {
    var n := Run(DOMAIN_CHARS, h.left);
    if n == 0 then h else PortPass(Hit(h.left[n..], Capture(h.captures, Domain, h.left[..n])), h.left)
  }

  /** The port, if a colon follows the domain, and with it the end of the host that began at `from`. */
  function PortPass(h: Hit, from: string): (h': Hit)
    requires |h.left| <= |from|
  {
    var s := h.left;
    if s == "" || s[0] != ':' then Hit(s, Capture(h.captures, Host, from[..|from| - |s|]))
    else
      var t := s[1..];
      var n := Run(Digit, t);
      Hit(t[n..], Capture(Capture(h.captures, Port, t[..n]), Host, from[..|from| - |t[n..]|]))
  }

  function PathPass(h: Hit): (h': Hit)
  {
    var n := Run(PATH_CHARS, h.left);
    Hit(h.left[n..], h.captures.(path := Some(h.left[..n])))
  }

  function QueryPass(h: Hit): (h': Hit)
  {
    var s := h.left;
    if s == "" || s[0] != '?' then h
    else
      var n := Run(QUERY_CHARS, s[1..]);
      Hit(s[1..][n..], h.captures.(query := Some(s[1..][..n])))
  }

  function FragmentPass(h: Hit): (h': Hit)
  {
    var s := h.left;
    if s == "" || s[0] != '#' then h
    else
      var n := Run(NotNewline, s[1..]);
      Hit(s[1..][n..], h.captures.(fragment := Some(s[1..][..n])))
  }

  function OnePass(url: string): (h: Hit)
  {
    FragmentPass(QueryPass(PathPass(HostPass(UserPass(SchemePass(Hit(url, NOTHING)))))))
  }

  // ---- The matcher never backtracks into an earlier part -----------------------------------------

  /** The matcher from a hit on. */
  function Continue(k: Todo, h: Hit): (r: Option<Hit>)
  {
    Match(k, h.left, h.captures)
  }

  lemma FragmentMatch(h: Hit)
    ensures Continue(AFTER_QUERY, h) == Some(FragmentPass(h))
  {
    var s, c := h.left, h.captures;
    StepOpt(FRAGMENT_PART, Done, s, c);
    if s != "" && s[0] == '#' {
      CharThenStar('#', Fragment, NotNewline, Done, s, c);
    } else {
      StepCat(Set(Just('#')), Group(Fragment, Star(NotNewline)), Done, s, c);
      StepChar('#', Then(Group(Fragment, Star(NotNewline)), Done), s, c);
    }
  }

  lemma QueryMatch(h: Hit)
    ensures Continue(AFTER_PATH, h) == Continue(AFTER_QUERY, QueryPass(h)) && Continue(AFTER_PATH, h).Some?
  {
    var s, c := h.left, h.captures;
    FragmentMatch(QueryPass(h));
    StepOpt(QUERY_PART, AFTER_QUERY, s, c);
    if s != "" && s[0] == '?' {
      CharThenStar('?', Query, QUERY_CHARS, AFTER_QUERY, s, c);
    } else {
      StepCat(Set(Just('?')), Group(Query, Star(QUERY_CHARS)), AFTER_QUERY, s, c);
      StepChar('?', Then(Group(Query, Star(QUERY_CHARS)), AFTER_QUERY), s, c);
    }
  }

  lemma PathMatch(h: Hit)
    ensures Continue(AFTER_HOST, h) == Continue(AFTER_PATH, PathPass(h)) && Continue(AFTER_HOST, h).Some?
  {
    QueryMatch(PathPass(h));
    StarInGroup(Path, PATH_CHARS, AFTER_PATH, h.left, h.captures);
  }

  lemma PortMatch(h: Hit, from: string)
    requires |h.left| <= |from|
    ensures Continue(Then(Opt(PORT_PART), Close(Host, from, AFTER_HOST)), h) == Continue(AFTER_HOST, PortPass(h, from))
    ensures Continue(AFTER_HOST, PortPass(h, from)).Some?
  {
    var s, c := h.left, h.captures;
    var k := Close(Host, from, AFTER_HOST);
    StepOpt(PORT_PART, k, s, c);
    PathMatch(PortPass(h, from));
    if s != "" && s[0] == ':' {
      var t, n := s[1..], Run(Digit, s[1..]);
      StepClose(Host, from, AFTER_HOST, t[n..], Capture(c, Port, t[..n]));
      CharThenStar(':', Port, Digit, k, s, c);
    } else {
      StepCat(Set(Just(':')), Group(Port, Star(Digit)), k, s, c);
      StepChar(':', Then(Group(Port, Star(Digit)), k), s, c);
      StepClose(Host, from, AFTER_HOST, s, c);
    }
  }

  lemma HostMatch(h: Hit)
    ensures Continue(AFTER_USER, h) == Continue(AFTER_HOST, HostPass(h)) && Continue(AFTER_USER, h).Some?
  {
    var s, c := h.left, h.captures;
    var n := Run(DOMAIN_CHARS, s);
    var k := Then(Opt(PORT_PART), Close(Host, s, AFTER_HOST));
    StepOpt(HOST_PART, AFTER_HOST, s, c);
    StepGroup(Host, Cat(Group(Domain, Plus(DOMAIN_CHARS)), Opt(PORT_PART)), AFTER_HOST, s, c);
    StepCat(Group(Domain, Plus(DOMAIN_CHARS)), Opt(PORT_PART), Close(Host, s, AFTER_HOST), s, c);
    if n > 0 {
      PortMatch(Hit(s[n..], Capture(c, Domain, s[..n])), s);
    } else {
      PathMatch(h);
    }
    PlusInGroup(Domain, DOMAIN_CHARS, k, s, c);
  }

  /** Four expressions in a row. */
  lemma StepCats(a: Re, b: Re, d: Re, e: Re, rest: Todo, s: string, c: Captures)
    ensures Match(Then(Cat(Cat(Cat(a, b), d), e), rest), s, c) == Match(Then(a, Then(b, Then(d, Then(e, rest)))), s, c)
  {
    StepCat(Cat(Cat(a, b), d), e, rest, s, c);
    StepCat(Cat(a, b), d, Then(e, rest), s, c);
    StepCat(a, b, Then(d, Then(e, rest)), s, c);
  }

  lemma UserPartMatch(s: string, c: Captures)
    ensures var n := Run(Word, s);
            Match(Then(USER_PART, AFTER_USER), s, c)
            == if 0 < n < |s| && s[n] == ':'
               then Match(Then(Group(Password, Plus(Word)), Then(Set(Just('@')), AFTER_USER)),
                          s[n + 1..], Capture(c, Username, s[..n]))
               else None
  {
    var afterColon := Then(Group(Password, Plus(Word)), Then(Set(Just('@')), AFTER_USER));
    StepCats(
      Group(Username, Plus(Word)), Set(Just(':')), Group(Password, Plus(Word)), Set(Just('@')), AFTER_USER, s, c);
    PlusThenChar(Username, Word, ':', afterColon, s, c);
  }

  lemma UserMatch(h: Hit)
    ensures Continue(AFTER_SCHEME, h) == Continue(AFTER_USER, UserPass(h)) && Continue(AFTER_SCHEME, h).Some?
  {
    var s, c := h.left, h.captures;
    var n := Run(Word, s);
    StepOpt(USER_PART, AFTER_USER, s, c);
    UserPartMatch(s, c);
    HostMatch(UserPass(h));
    if 0 < n < |s| && s[n] == ':' {
      PlusThenChar(Password, Word, '@', AFTER_USER, s[n + 1..], Capture(c, Username, s[..n]));
    }
  }

  /** What is to be matched after the characters of the scheme. */
  function Slashes(rest: Todo): (k: Todo)
  {
    Then(Set(Just(':')), Then(Set(Just('/')), Then(Set(Just('/')), rest)))
  }

  /** The text after the scheme: "://". */
  lemma SchemeSlashes(rest: Todo, s: string, c: Captures)
    ensures Match(Slashes(rest), s, c)
         == if |s| >= 3 && s[0] == ':' && s[1] == '/' && s[2] == '/' then Match(rest, s[3..], c) else None
  {
    StepChar(':', Then(Set(Just('/')), Then(Set(Just('/')), rest)), s, c);
    if s != "" {
      StepChar('/', Then(Set(Just('/')), rest), s[1..], c);
      if |s| > 1 {
        StepChar('/', rest, s[1..][1..], c);
        assert |s| > 2 ==> s[1..][1..][1..] == s[3..];
      }
    }
  }

  lemma SchemeStarStep(from: string, rest: Todo, s: string, c: Captures)
    requires |s| <= |from|
    ensures var k, c' := Close(Scheme, from, Slashes(rest)), Capture(c, Scheme, from[..|from| - |s|]);
            var here := if |s| >= 3 && s[0] == ':' && s[1] == '/' && s[2] == '/' then Match(rest, s[3..], c') else None;
            Match(Then(Star(SCHEME_CHARS), k), s, c)
            == if s != "" && In(SCHEME_CHARS, s[0]) then OrElse(Match(Then(Star(SCHEME_CHARS), k), s[1..], c), here)
               else here
  {
    StepStar(SCHEME_CHARS, Close(Scheme, from, Slashes(rest)), s, c);
    StepClose(Scheme, from, Slashes(rest), s, c);
    SchemeSlashes(rest, s, Capture(c, Scheme, from[..|from| - |s|]));
  }

  /** The scheme may itself contain colons; still only one end of it can be followed by "://". */
  lemma {:induction false} SchemeStar(from: string, rest: Todo, s: string, c: Captures)
    requires |s| <= |from|
    ensures var n := Run(SCHEME_CHARS, s);
            Match(Then(Star(SCHEME_CHARS), Close(Scheme, from, Slashes(rest))), s, c)
            == if n >= 1 && n + 2 <= |s| && s[n - 1] == ':' && s[n] == '/' && s[n + 1] == '/'
               then Match(rest, s[n + 2..], Capture(c, Scheme, from[..|from| - |s| + n - 1])) else None
    decreases |s|
  {
    var n := Run(SCHEME_CHARS, s);
    SchemeStarStep(from, rest, s, c);
    if n > 0 {
      SchemeStar(from, rest, s[1..], c);
      SchemeTail(s, n);
    }
  }

  lemma SchemeTail(s: string, n: nat)
    requires 0 < n == Run(SCHEME_CHARS, s)
    ensures Run(SCHEME_CHARS, s[1..]) == n - 1 && (n > 1 ==> s[1] != '/')
    ensures n + 2 <= |s| ==> s[1..][n] == s[n + 1] && s[1..][n + 1..] == s[n + 2..]
  {
    if n > 1 {
      assert In(SCHEME_CHARS, s[1]);
    }
  }

  lemma SchemeMatch(h: Hit)
    ensures Continue(EXPRESSION, h) == Continue(AFTER_SCHEME, SchemePass(h)) && Continue(EXPRESSION, h).Some?
  {
    var s, c := h.left, h.captures;
    var n := Run(SCHEME_CHARS, s);
    var slashes := Slashes(AFTER_SCHEME);
    StepOpt(SCHEME_PART, AFTER_SCHEME, s, c);
    StepCats(Group(Scheme, Plus(SCHEME_CHARS)), Set(Just(':')), Set(Just('/')), Set(Just('/')), AFTER_SCHEME, s, c);
    StepGroup(Scheme, Plus(SCHEME_CHARS), slashes, s, c);
    StepPlus(SCHEME_CHARS, Close(Scheme, s, slashes), s, c);
    if n > 0 {
      SchemeStar(s, AFTER_SCHEME, s[1..], c);
      assert n + 2 <= |s| ==> s[1..][n + 1..] == s[n + 2..];
    }
    UserMatch(SchemePass(h));
  }

  /** The regular expression matches every input, and its preferred match is the one found in a single
      pass from left to right: no part is ever given back to an earlier one. */
  lemma MatchIsOnePass(url: string)
    ensures Captured(url) == Some(OnePass(url))
  {
    var a := Hit(url, NOTHING);
    var b := SchemePass(a);
    var c := UserPass(b);
    var d := HostPass(c);
    var e := PathPass(d);
    SchemeMatch(a);
    UserMatch(b);
    HostMatch(c);
    PathMatch(d);
    QueryMatch(e);
    FragmentMatch(QueryPass(e));
  }

  // ---- The fields --------------------------------------------------------------------------------

  const I32_MAX := 0x7FFF_FFFF

  datatype Fields = Fields(
    scheme: string, username: string, password: string, host: string, domain: string,
    port: int, path: string, query: string, fragment: string)

  function Decimal(digits: string): (n: nat)
    requires forall i | 0 <= i < |digits| :: IsDigit(digits[i])
  {
    if digits == "" then 0
    else
      var last := digits[|digits| - 1];
      assert IsDigit(last);
      10 * Decimal(digits[..|digits| - 1]) + (last as int - '0' as int)
  }

  function DigitValues(s: string): (digits: seq<nat>)
  {
    seq(|s|, i requires 0 <= i < |s| => if s[i] >= '0' then s[i] as int - 48 else 0)
  }

  /** Decimal notation: place value, read from the other end. */
  lemma {:induction false} DecimalIsPlaceValue(digits: string)
    requires forall i | 0 <= i < |digits| :: IsDigit(digits[i])
    ensures Decimal(digits) == PlaceValue(DigitValues(digits))
    decreases |digits|
  {
    if digits != "" {
      var most, last := digits[..|digits| - 1], digits[|digits| - 1];
      assert IsDigit(last);
      DecimalIsPlaceValue(most);
      assert DigitValues(digits) == DigitValues(most) + [last as int - 48];
      PlaceValueAppend(DigitValues(most), last as int - 48);
    }
  }

  predicate AllDigits(s: string)
  {
    forall i | 0 <= i < |s| :: IsDigit(s[i])
  }

  lemma DecimalStep(s: string, last: char)
    requires AllDigits(s) && IsDigit(last)
    ensures AllDigits(s + [last]) && Decimal(s + [last]) == 10 * Decimal(s) + (last as int - 48)
  {
    assert (s + [last])[..|s + [last]| - 1] == s;
  }

  /** The law of decimal notation. */
  lemma {:induction false} DecimalOfAppended(a: string, b: string)
    requires AllDigits(a) && AllDigits(b)
    ensures AllDigits(a + b) && Decimal(a + b) == Decimal(a) * Pow10(|b|) + Decimal(b)
    decreases |b|
  {
    if b == "" {
      PlusNothing(a);
    } else {
      var most, last := b[..|b| - 1], b[|b| - 1];
      assert b == most + [last];
      assert AllDigits(most) && IsDigit(last);
      DecimalOfAppended(a, most);
      DecimalOfOneMore(a, most, last);
    }
  }

  lemma DecimalOfOneMore(a: string, most: string, last: char)
    requires AllDigits(most) && AllDigits(a + most) && AllDigits(a) && IsDigit(last)
    requires Decimal(a + most) == Decimal(a) * Pow10(|most|) + Decimal(most)
    ensures AllDigits(a + (most + [last])) && AllDigits(most + [last])
    ensures Decimal(a + (most + [last])) == Decimal(a) * Pow10(|most| + 1) + Decimal(most + [last])
  {
    DecimalStep(most, last);
    DecimalStep(a + most, last);
    Associative(a, most, [last]);
    TenTimes(Decimal(a), Pow10(|most|));
  }

  lemma DecimalOfOne(c: char)
    requires IsDigit(c)
    ensures Decimal([c]) == c as int - 48
  {
    assert [c][..0] == "";
  }

  /** A port text that `parse::<i32>` accepts; `parse` panics on any other (an empty one included). */
  predicate PortParses(c: Captures)
  {
    match c.port
    case None => true
    case Some(digits) =>
      digits != "" && (forall i | 0 <= i < |digits| :: IsDigit(digits[i])) && Decimal(digits) <= I32_MAX
  }

  predicate Parses(url: string)
  {
    PortParses(OnePass(url).captures)
  }

  function FieldsFrom(c: Captures): (f: Fields)
    requires PortParses(c)
  {
    Fields(c.scheme.GetOr(""), c.username.GetOr(""), c.password.GetOr(""), c.host.GetOr(""), c.domain.GetOr(""),
           match c.port case Some(digits) => Decimal(digits) case None => 0,
           c.path.GetOr("/"), c.query.GetOr(""), c.fragment.GetOr(""))
  }

  function FieldsOf(url: string): (f: Fields)
    requires Parses(url)
  {
    FieldsFrom(OnePass(url).captures)
  }

  function UserInfo(username: string, password: string): (s: string)
  {
    if username != "" || password != "" then username + ":" + password + "@" else ""
  }

  function Marked(mark: string, text: string): (s: string)
  {
    if text != "" then mark + text else ""
  }

  function Print(f: Fields): (url: string)
  {
    f.scheme + "://" + UserInfo(f.username, f.password) + f.host + f.path
    + Marked("?", f.query) + Marked("#", f.fragment)
  }

  class Uri {
    var scheme: string
    var username: string
    var password: string
    var host: string
    var domain: string
    var port: int
    var path: string
    var query: string
    var fragment: string

    ghost function View(): (f: Fields)
      reads this
    {
      Fields(scheme, username, password, host, domain, port, path, query, fragment)
    }

    constructor Default()
      ensures View() == Fields("", "", "", "", "", 0, "/", "", "")
    {
      scheme, username, password, host, domain := "", "", "", "", "";
      port, path, query, fragment := 0, "/", "", "";
    }

    /** `parse`: never fails, and sets every field from the one-pass split. */
    method Parse(url: string) returns (r: Result<(), ()>)
      requires Parses(url)
      modifies this
      ensures r.Ok? && View() == FieldsOf(url)
    {
      MatchIsOnePass(url);
      match Captured(url) {
        case Some(hit) =>
          Assign(hit.captures);
          return Ok(());
        case None =>
          return Err(());
      }
    }

    /** The assignments of `parse`. */
    method Assign(c: Captures)
      requires PortParses(c)
      modifies this
      ensures View() == FieldsFrom(c)
    {
      scheme := c.scheme.GetOr("");
      host := c.host.GetOr("");
      username := c.username.GetOr("");
      password := c.password.GetOr("");
      domain := c.domain.GetOr("");
      port := match c.port case Some(v) => Decimal(v) case None => 0;
      path := c.path.GetOr("/");
      query := c.query.GetOr("");
      fragment := c.fragment.GetOr("");
    }

    /** `get_url`. */
    method GetUrl() returns (url: string)
      ensures url == Print(View())
    {
      url := scheme + "://";
      if username != "" || password != "" {
        url := url + username + ":" + password + "@";
      }
      url := url + host;
      if path != "" {
        url := url + path;
      }
      if query != "" {
        url := url + "?" + query;
      }
      if fragment != "" {
        url := url + "#" + fragment;
      }
      PrintSteps(View(), url);
    }
  }

  lemma PrintSteps(f: Fields, url: string)
    requires var a := f.scheme + "://";
             var user := if f.username != "" || f.password != "" then a + f.username + ":" + f.password + "@" else a;
             var b := user + f.host;
             var c := if f.path != "" then b + f.path else b;
             var d := if f.query != "" then c + "?" + f.query else c;
             url == if f.fragment != "" then d + "#" + f.fragment else d
    ensures url == Print(f)
  {
    var a := f.scheme + "://";
    if f.username != "" || f.password != "" {
      UserAfter(a, f.username, f.password);
    } else {
      PlusNothing(a);
    }
    var b := a + UserInfo(f.username, f.password) + f.host;
    PlusNothing(b);
    MarkedAfter(b + f.path, "?", f.query);
    MarkedAfter(b + f.path + Marked("?", f.query), "#", f.fragment);
  }

  lemma UserAfter(a: string, username: string, password: string)
    ensures a + username + ":" + password + "@" == a + (username + ":" + password + "@")
  {
    Associative(a, username, ":");
    Associative(a, username + ":", password);
    Associative(a, username + ":" + password, "@");
  }

  lemma MarkedAfter(s: string, mark: string, text: string)
    ensures s + Marked(mark, text) == if text != "" then s + mark + text else s
  {
    Associative(s, mark, text);
    PlusNothing(s);
  }

  // ---- Printing what was parsed --------------------------------------------------------------------

  /** The text a split came from. */
  function Assemble(h: Hit): (url: string)
  {
    var c := h.captures;
    (if c.scheme.Some? then c.scheme.value + "://" else "")
    + (if c.username.Some? then c.username.value + ":" + c.password.GetOr("") + "@" else "")
    + c.host.GetOr("") + c.path.GetOr("")
    + (if c.query.Some? then "?" + c.query.value else "")
    + (if c.fragment.Some? then "#" + c.fragment.value else "")
    + h.left
  }

  // Every pass moves a piece of text from what is left into the captures, and touches nothing else.

  ghost predicate SchemeStep(h: Hit, h': Hit)
  {
    var c := h'.captures;
    && c == h.captures.(scheme := c.scheme)
    && h.left == (if c.scheme.Some? then c.scheme.value + "://" else "") + h'.left
  }

  lemma SchemeText(h: Hit)
    requires h.captures == NOTHING
    ensures SchemeStep(h, SchemePass(h))
  {
    var s := h.left;
    var n := Run(SCHEME_CHARS, s);
    if SchemeAt(s, n) {
      assert s[n - 1..n + 2] == [s[n - 1], s[n], s[n + 1]] == "://";
      assert s == s[..n - 1] + s[n - 1..n + 2] + s[n + 2..];
    }
  }

  ghost predicate UserStep(h: Hit, h': Hit)
  {
    var c := h'.captures;
    && c == h.captures.(username := c.username, password := c.password)
    && (c.username.Some? <==> c.password.Some?) && c.username != Some("") && c.password != Some("")
    && h.left == (if c.username.Some? then c.username.value + ":" + c.password.value + "@" else "") + h'.left
  }

  lemma UserText(h: Hit)
    requires h.captures.username.None? && h.captures.password.None?
    ensures UserStep(h, UserPass(h))
  {
    var s := h.left;
    var n := Run(Word, s);
    if 0 < n < |s| && s[n] == ':' {
      var t := s[n + 1..];
      var m := Run(Word, t);
      if 0 < m < |t| && t[m] == '@' {
        assert t == t[..m] + "@" + t[m + 1..];
        assert s == s[..n] + ":" + t;
      }
    }
  }

  ghost predicate HostStep(h: Hit, h': Hit)
  {
    var c := h'.captures;
    && c == h.captures.(host := c.host, domain := c.domain, port := c.port)
    && h.left == c.host.GetOr("") + h'.left
  }

  lemma PortLeaves(h: Hit, from: string)
    requires |h.left| <= |from| && from == from[..|from| - |h.left|] + h.left
    ensures var left := PortPass(h, from).left;
            |left| <= |from| && from == from[..|from| - |left|] + left
  {
    var s := h.left;
    if s != "" && s[0] == ':' {
      SuffixOfSuffix(from, s, 1 + Run(Digit, s[1..]));
    }
  }

  lemma SuffixOfSuffix(from: string, s: string, k: nat)
    requires |s| <= |from| && from == from[..|from| - |s|] + s && 1 <= k <= |s|
    ensures var left := s[1..][k - 1..];
            from == from[..|from| - |left|] + left
  {
    assert s[1..][k - 1..] == s[k..];
  }

  lemma PortStep(h: Hit, from: string)
    requires |h.left| <= |from|
    ensures var h' := PortPass(h, from);
            && |h'.left| <= |from| && h'.captures.host == Some(from[..|from| - |h'.left|])
            && h'.captures == h.captures.(host := h'.captures.host, port := h'.captures.port)
  {
  }

  lemma HostText(h: Hit)
    requires h.captures.host.None?
    ensures HostStep(h, HostPass(h))
  {
    var s, n := h.left, Run(DOMAIN_CHARS, h.left);
    if n > 0 {
      var p := Hit(s[n..], Capture(h.captures, Domain, s[..n]));
      assert s == s[..n] + s[n..];
      PortLeaves(p, s);
      PortStep(p, s);
    }
  }

  ghost predicate PathStep(h: Hit, h': Hit)
  {
    var c := h'.captures;
    && c == h.captures.(path := c.path) && c.path.Some?
    && h.left == c.path.value + h'.left
  }

  lemma PathText(h: Hit)
    ensures PathStep(h, PathPass(h))
  {
  }

  ghost predicate QueryStep(h: Hit, h': Hit)
  {
    var c := h'.captures;
    && c == h.captures.(query := c.query)
    && h.left == (if c.query.Some? then "?" + c.query.value else "") + h'.left
  }

  lemma QueryText(h: Hit)
    requires h.captures.query.None?
    ensures QueryStep(h, QueryPass(h))
  {
    var s := h.left;
    if s != "" && s[0] == '?' {
      var n := Run(QUERY_CHARS, s[1..]);
      assert s == "?" + s[1..][..n] + s[1..][n..];
    }
  }

  ghost predicate FragmentStep(h: Hit, h': Hit)
  {
    var c := h'.captures;
    && c == h.captures.(fragment := c.fragment)
    && h.left == (if c.fragment.Some? then "#" + c.fragment.value else "") + h'.left
  }

  lemma FragmentText(h: Hit)
    requires h.captures.fragment.None?
    ensures FragmentStep(h, FragmentPass(h))
  {
    var s := h.left;
    if s != "" && s[0] == '#' {
      var n := Run(NotNewline, s[1..]);
      assert s == "#" + s[1..][..n] + s[1..][n..];
    }
  }

  ghost predicate Steps(url: string, a: Hit, b: Hit, c: Hit, d: Hit, e: Hit, f: Hit)
  {
    && SchemeStep(Hit(url, NOTHING), a) && UserStep(a, b) && HostStep(b, c)
    && PathStep(c, d) && QueryStep(d, e) && FragmentStep(e, f)
  }

  lemma AllSteps(url: string) returns (a: Hit, b: Hit, c: Hit, d: Hit, e: Hit)
    ensures a == SchemePass(Hit(url, NOTHING)) && b == UserPass(a) && c == HostPass(b) && d == PathPass(c)
    ensures e == QueryPass(d) && OnePass(url) == FragmentPass(e)
    ensures Steps(url, a, b, c, d, e, OnePass(url))
  {
    a := SchemePass(Hit(url, NOTHING));
    SchemeText(Hit(url, NOTHING));
    b := UserPass(a);
    UserText(a);
    c := HostPass(b);
    HostText(b);
    d := PathPass(c);
    PathText(c);
    e := QueryPass(d);
    QueryText(d);
    FragmentText(e);
  }

  lemma StepsAssemble(url: string, a: Hit, b: Hit, c: Hit, d: Hit, e: Hit, f: Hit)
    requires Steps(url, a, b, c, d, e, f)
    ensures Assemble(f) == url && f.captures.path.Some? && UserStep(a, b) && b.captures.username == f.captures.username
  {
    var x := f.captures;
    Concat6(if x.scheme.Some? then x.scheme.value + "://" else "", a.left,
            if x.username.Some? then x.username.value + ":" + x.password.value + "@" else "", b.left,
            x.host.GetOr(""), c.left, x.path.value, d.left,
            if x.query.Some? then "?" + x.query.value else "", e.left,
            if x.fragment.Some? then "#" + x.fragment.value else "", f.left);
  }

  /** Nothing is lost or reordered: the captures with their separators, and what is left unmatched,
      spell the input. */
  lemma Reassembles(url: string)
    ensures Assemble(OnePass(url)) == url
  {
    var a, b, c, d, e := AllSteps(url);
    StepsAssemble(url, a, b, c, d, e, OnePass(url));
  }

  lemma Concat6(p1: string, t1: string, p2: string, t2: string, p3: string, t3: string,
                p4: string, t4: string, p5: string, t5: string, p6: string, t6: string)
    requires t1 == p2 + t2 && t2 == p3 + t3 && t3 == p4 + t4 && t4 == p5 + t5 && t5 == p6 + t6
    ensures p1 + t1 == p1 + p2 + p3 + p4 + p5 + p6 + t6
  {
    Associative(p1, p2, t2);
    Associative(p1 + p2, p3, t3);
    Associative(p1 + p2 + p3, p4, t4);
    Associative(p1 + p2 + p3 + p4, p5, t5);
    Associative(p1 + p2 + p3 + p4 + p5, p6, t6);
  }

  /** URLs that survive: they begin with a scheme, the first '?' before any '#' is followed by a query,
      and the first '#' by a fragment that holds no newline. */
  predicate Survives(url: string)
  {
    var mark, hash := Run(PATH_CHARS, url), Run(QUERY_CHARS, url);
    && SchemeAt(url, Run(SCHEME_CHARS, url))
    && (mark < |url| && url[mark] == '?' ==> hash > mark + 1)
    && (hash < |url| ==> hash + 1 < |url| && '\n' !in url[hash + 1..])
  }

  /** What the text of a URL that survives means for its split. */
  predicate SplitSurvives(h: Hit)
  {
    h.captures.scheme.Some? && h.captures.query != Some("") && h.captures.fragment != Some("") && h.left == ""
  }

  /** The text from the first '?' or '#' on. */
  function FromMark(s: string): (t: string)
    ensures t == "" || t[0] == '?' || t[0] == '#'
  {
    s[Run(PATH_CHARS, s)..]
  }

  lemma FromMarkSkips(s: string, k: nat)
    requires k <= |s| && forall i | 0 <= i < k :: In(PATH_CHARS, s[i])
    ensures FromMark(s[k..]) == FromMark(s)
  {
    RunSkips(PATH_CHARS, s, k);
    assert s[k..][Run(PATH_CHARS, s[k..])..] == s[k + Run(PATH_CHARS, s[k..])..];
  }

  // No pass before the path goes beyond the first '?' or '#'.

  lemma SchemeBeforeMark(h: Hit)
    ensures FromMark(SchemePass(h).left) == FromMark(h.left)
  {
    var n := Run(SCHEME_CHARS, h.left);
    if SchemeAt(h.left, n) {
      FromMarkSkips(h.left, n + 2);
    }
  }

  /** How far the user name and password reach, and that they hold no mark. */
  lemma UserReach(h: Hit) returns (k: nat)
    ensures k <= |h.left| && UserPass(h).left == h.left[k..] && forall i | 0 <= i < k :: In(PATH_CHARS, h.left[i])
  {
    var s := h.left;
    var n := Run(Word, s);
    k := 0;
    if 0 < n < |s| && s[n] == ':' {
      var t := s[n + 1..];
      var m := Run(Word, t);
      if 0 < m < |t| && t[m] == '@' {
        k := n + 1 + m + 1;
        assert t[m + 1..] == s[k..];
        assert forall i | n + 1 <= i < k :: s[i] == t[i - n - 1];
      }
    }
  }

  lemma UserBeforeMark(h: Hit)
    ensures FromMark(UserPass(h).left) == FromMark(h.left)
  {
    var k := UserReach(h);
    FromMarkSkips(h.left, k);
  }

  lemma PortBeforeMark(h: Hit, from: string)
    requires |h.left| <= |from|
    ensures FromMark(PortPass(h, from).left) == FromMark(h.left)
  {
    var s := h.left;
    if s != "" && s[0] == ':' {
      FromMarkSkips(s, 1);
      FromMarkSkips(s[1..], Run(Digit, s[1..]));
    }
  }

  lemma HostBeforeMark(h: Hit)
    ensures FromMark(HostPass(h).left) == FromMark(h.left)
  {
    var n := Run(DOMAIN_CHARS, h.left);
    if n > 0 {
      FromMarkSkips(h.left, n);
      PortBeforeMark(Hit(h.left[n..], Capture(h.captures, Domain, h.left[..n])), h.left);
    }
  }

  /** So the path ends there. */
  lemma PathEndsAtMark(url: string)
    ensures PathPass(HostPass(UserPass(SchemePass(Hit(url, NOTHING))))).left == FromMark(url)
  {
    var a := SchemePass(Hit(url, NOTHING));
    SchemeBeforeMark(Hit(url, NOTHING));
    UserBeforeMark(a);
    HostBeforeMark(UserPass(a));
  }

  /** Where the first '#' is, seen from the first '?' or '#'. */
  lemma HashFromMark(url: string)
    ensures var mark := Run(PATH_CHARS, url);
            && Run(QUERY_CHARS, url) == mark + Run(QUERY_CHARS, url[mark..])
            && (mark < |url| && url[mark] == '?' ==>
                  Run(QUERY_CHARS, url) == mark + 1 + Run(QUERY_CHARS, url[mark..][1..]))
  {
    RunSkips(QUERY_CHARS, url, Run(PATH_CHARS, url));
  }

  lemma DropThrice(s: string, i: nat, k: nat)
    requires i < |s| && k <= |s| - i - 1
    ensures s[i..][1..][k..] == s[i + 1 + k..]
  {
  }

  lemma QueryOnText(h: Hit, url: string)
    requires h.left == FromMark(url) && h.captures.query.None?
    ensures var mark, hash, h' := Run(PATH_CHARS, url), Run(QUERY_CHARS, url), QueryPass(h);
            && h'.left == url[hash..]
            && (h'.captures.query == Some("") <==> mark < |url| && url[mark] == '?' && hash == mark + 1)
  {
    var mark := Run(PATH_CHARS, url);
    HashFromMark(url);
    if mark < |url| && url[mark] == '?' {
      EmptyQueryIff(h);
      DropThrice(url, mark, Run(QUERY_CHARS, h.left[1..]));
    } else {
      assert QueryPass(h) == h;
      assert Run(QUERY_CHARS, h.left) == 0;
    }
  }

  lemma EmptyQueryIff(h: Hit)
    requires h.left != "" && h.left[0] == '?'
    ensures QueryPass(h).captures.query == Some("") <==> Run(QUERY_CHARS, h.left[1..]) == 0
    ensures QueryPass(h).left == h.left[1..][Run(QUERY_CHARS, h.left[1..])..]
  {
    assert |h.left[1..][..Run(QUERY_CHARS, h.left[1..])]| == Run(QUERY_CHARS, h.left[1..]);
  }

  lemma FragmentOnText(h: Hit)
    requires h.captures.fragment.None? && (h.left == "" || h.left[0] == '#')
    ensures var h' := FragmentPass(h);
            h'.captures.fragment != Some("") && h'.left == ""
            <==> (h.left != "" ==> |h.left| > 1 && '\n' !in h.left[1..])
  {
    if h.left != "" {
      WholeRun(h.left[1..]);
    }
  }

  lemma WholeRun(s: string)
    ensures s[Run(NotNewline, s)..] == "" <==> '\n' !in s
  {
    var n := Run(NotNewline, s);
    if n < |s| {
      assert s[n] == '\n';
    } else {
      assert forall i | 0 <= i < |s| :: s[i] != '\n';
    }
  }

  lemma SchemeKept(url: string)
    ensures OnePass(url).captures.scheme == SchemePass(Hit(url, NOTHING)).captures.scheme
  {
    var a, b, c, d, e := AllSteps(url);
  }

  lemma FromHash(url: string)
    ensures var s, hash := url[Run(QUERY_CHARS, url)..], Run(QUERY_CHARS, url);
            && (s == "" <==> hash == |url|) && (s != "" ==> s[0] == '#' && s[1..] == url[hash + 1..])
  {
  }

  lemma SchemeInSplit(url: string)
    ensures OnePass(url).captures.scheme.Some? <==> SchemeAt(url, Run(SCHEME_CHARS, url))
  {
    SchemeKept(url);
  }

  /** The last two passes, as hits: what they do to the text from the first '?' or '#' on. */
  lemma EndOfSplit(url: string) returns (d: Hit, e: Hit, f: Hit)
    ensures e == QueryPass(d) && f == FragmentPass(e) && f == OnePass(url)
    ensures d.left == FromMark(url) && d.captures.query.None?
    ensures e.captures.fragment.None? && f.captures.query == e.captures.query
  {
    var a, b, c;
    a, b, c, d, e := AllSteps(url);
    f := OnePass(url);
    PathEndsAtMark(url);
  }

  lemma QueryInSplit(url: string)
    ensures var mark, hash := Run(PATH_CHARS, url), Run(QUERY_CHARS, url);
            OnePass(url).captures.query == Some("") <==> mark < |url| && url[mark] == '?' && hash == mark + 1
  {
    var d, e, f := EndOfSplit(url);
    QueryOnText(d, url);
  }

  lemma FragmentInSplit(url: string)
    ensures var h, hash := OnePass(url), Run(QUERY_CHARS, url);
            h.captures.fragment != Some("") && h.left == ""
            <==> (hash < |url| ==> hash + 1 < |url| && '\n' !in url[hash + 1..])
  {
    var d, e, f := EndOfSplit(url);
    QueryOnText(d, url);
    FromHash(url);
    FragmentOnText(e);
  }

  /** The condition on the text is the condition on the split. */
  lemma SurvivesIff(url: string)
    ensures Survives(url) <==> SplitSurvives(OnePass(url))
  {
    SchemeInSplit(url);
    QueryInSplit(url);
    FragmentInSplit(url);
    HashFromMark(url);
  }

  /** Printing what was parsed gives the URL back exactly when it survives. */
  lemma PrintsBackIff(url: string)
    requires Parses(url)
    ensures Print(FieldsOf(url)) == url <==> Survives(url)
  {
    var a, b, c, d, e := AllSteps(url);
    StepsAssemble(url, a, b, c, d, e, OnePass(url));
    SurvivesIff(url);
    if OnePass(url).captures.scheme.Some? {
      PrintOfAssembled(OnePass(url));
    } else if Print(FieldsOf(url)) == url {
      NoSchemeIsLost(url);
      assert false;
    }
  }

  /** Tails that are lost behind any scheme: an empty query, an empty fragment, a fragment with a newline. */
  predicate IsLost(tail: string)
  {
    tail == "?" || (tail != "" && tail[0] == '#' && (|tail| == 1 || '\n' in tail[1..]))
  }

  lemma LostAfterScheme(scheme: string, tail: string)
    requires scheme != "" && AllIn(SCHEME_CHARS, scheme) && IsLost(tail)
    ensures var url := scheme + "://" + tail; Parses(url) && Print(FieldsOf(url)) != url
  {
    var url := scheme + "://" + tail;
    NoPortBehind(scheme, tail);
    NoMarkInFront(scheme);
    MarksOfLost(scheme + "://", tail);
    LostUnlessSurvives(url);
  }

  lemma NoMarkInFront(scheme: string)
    requires AllIn(SCHEME_CHARS, scheme)
    ensures AllIn(PATH_CHARS, scheme + "://")
  {
  }

  lemma LostUnlessSurvives(url: string)
    requires Parses(url) && !Survives(url)
    ensures Print(FieldsOf(url)) != url
  {
    PrintsBackIff(url);
  }

  lemma NoPortBehind(scheme: string, tail: string)
    requires scheme != "" && AllIn(SCHEME_CHARS, scheme) && AfterHost(tail)
    ensures Parses(scheme + "://" + tail)
  {
    var a, b, c, d, e := AllSteps(scheme + "://" + tail);
    SchemeParsed(scheme, tail, NOTHING);
    NoHost(tail, a.captures);
  }

  lemma MarksOfLost(front: string, tail: string)
    requires AllIn(PATH_CHARS, front) && IsLost(tail)
    ensures !Survives(front + tail)
  {
    var url := front + tail;
    RunIs(PATH_CHARS, front, tail);
    CutAt(front, tail[0], tail[1..]);
    assert [tail[0]] + tail[1..] == tail;
    if tail == "?" {
      PlusNothing(url);
      RunIs(QUERY_CHARS, url, "");
    } else {
      RunIs(QUERY_CHARS, front, tail);
    }
  }

  /** And so is any path, query or fragment without a scheme. */
  lemma LostWithoutScheme(tail: string)
    requires AfterHost(tail)
    ensures Parses(tail) && Print(FieldsOf(tail)) != tail
  {
    var a, b, c, d, e := AllSteps(tail);
    NoHost(tail, NOTHING);
    PrintsBackIff(tail);
  }

  lemma PrintOfAssembled(h: Hit)
    requires var c := h.captures;
             && PortParses(c) && c.scheme.Some? && c.path.Some?
             && (c.username.Some? <==> c.password.Some?) && c.username != Some("") && c.password != Some("")
    ensures Print(FieldsFrom(h.captures)) == Assemble(h)
       <==> h.captures.query != Some("") && h.captures.fragment != Some("") && h.left == ""
  {
    var c := h.captures;
    var f := FieldsFrom(c);
    assert UserInfo(f.username, f.password)
        == if c.username.Some? then c.username.value + ":" + c.password.GetOr("") + "@" else "";
    if c.query != Some("") {
      assert Marked("?", f.query) == if c.query.Some? then "?" + c.query.value else "";
    }
    if c.fragment != Some("") {
      assert Marked("#", f.fragment) == if c.fragment.Some? then "#" + c.fragment.value else "";
    }
    var front := c.scheme.value + "://" + UserInfo(f.username, f.password) + f.host + f.path;
    assert Print(f) == front + Marked("?", f.query) + Marked("#", f.fragment);
    assert Assemble(h) == front + (if c.query.Some? then "?" + c.query.value else "")
                        + (if c.fragment.Some? then "#" + c.fragment.value else "") + h.left;
  }

  /** Without a scheme the printed "://" is one too many. */
  lemma NoSchemeIsLost(url: string)
    requires Parses(url) && OnePass(url).captures.scheme.None?
    ensures Print(FieldsOf(url)) != url
  {
    if url != "" && url[0] == ':' {
      OnlyPath(url);
      LostAtPathEnd(url, OnePass(url).captures);
    } else {
      assert Print(FieldsOf(url))[0] == ':';
    }
  }

  lemma OnlyPath(url: string)
    requires url != "" && url[0] == ':' && OnePass(url).captures.scheme.None?
    ensures var c := OnePass(url).captures;
            c.username.None? && c.password.None? && c.host.None? && c.path == Some(url[..Run(PATH_CHARS, url)])
  {
    var a, b, c, d, e := AllSteps(url);
    assert a == Hit(url, NOTHING);
    NothingBeforeColon(a);
  }

  lemma NothingBeforeColon(h: Hit)
    requires h.left != "" && h.left[0] == ':'
    ensures UserPass(h) == h && HostPass(h) == h
  {
    assert Run(Word, h.left) == 0 && Run(DOMAIN_CHARS, h.left) == 0;
  }

  lemma PrintBare(f: Fields)
    requires f.scheme == "" && f.username == "" && f.password == "" && f.host == ""
    ensures Print(f) == "://" + f.path + (Marked("?", f.query) + Marked("#", f.fragment))
  {
    assert f.scheme + "://" + UserInfo(f.username, f.password) + f.host + f.path == "://" + f.path;
  }

  lemma LostAtPathEnd(url: string, c: Captures)
    requires PortParses(c) && c.scheme.None? && c.username.None? && c.password.None? && c.host.None?
    requires c.path == Some(url[..Run(PATH_CHARS, url)])
    ensures Print(FieldsFrom(c)) != url
  {
    var n := Run(PATH_CHARS, url);
    var front := "://" + url[..n];
    var back := Marked("?", c.query.GetOr("")) + Marked("#", c.fragment.GetOr(""));
    PrintBare(FieldsFrom(c));
    FrontDiffers(url, n, front + back);
  }

  lemma FrontDiffers(url: string, n: nat, printed: string)
    requires n == Run(PATH_CHARS, url) && |printed| >= n + 3 && printed[..n + 3] == "://" + url[..n]
    ensures printed != url
  {
  }

  // ---- Parsing what was printed --------------------------------------------------------------------

  predicate AllIn(cls: Class, s: string)
  {
    forall i | 0 <= i < |s| :: In(cls, s[i])
  }

  /** A host: a domain, and a port if there is one. */
  predicate HostOf(host: string, domain: string, digits: Option<string>)
  {
    && domain != "" && AllIn(DOMAIN_CHARS, domain)
    && (digits.Some? ==> AllIn(Digit, digits.value))
    && host == domain + (if digits.Some? then ":" + digits.value else "")
  }

  /** What follows a host: nothing, or something that starts a path, a query or a fragment. */
  predicate AfterHost(tail: string)
  {
    tail == "" || tail[0] == '/' || tail[0] == '?' || tail[0] == '#'
  }

  /** What follows a host with the given port: after a port anything but another digit. */
  predicate Follows(digits: Option<string>, tail: string)
  {
    if digits.Some? then tail == "" || !IsDigit(tail[0]) else AfterHost(tail)
  }

  lemma SchemeParsed(scheme: string, rest: string, c: Captures)
    requires scheme != "" && AllIn(SCHEME_CHARS, scheme)
    ensures SchemePass(Hit(scheme + "://" + rest, c)) == Hit(rest, c.(scheme := Some(scheme)))
  {
    var s := scheme + "://" + rest;
    var run := scheme + ":";
    assert s == run + ("//" + rest);
    RunIs(SCHEME_CHARS, run, "//" + rest);
    var n := |run|;
    assert s[n + 2..] == rest && s[..n - 1] == scheme;
  }

  /** What follows the domain in a host. */
  function PortText(digits: Option<string>, tail: string): (s: string)
  {
    match digits
    case Some(d) => [':'] + (d + tail)
    case None => tail
  }

  lemma HostSplit(host: string, domain: string, digits: Option<string>, tail: string)
    requires HostOf(host, domain, digits)
    ensures host + tail == domain + PortText(digits, tail)
  {
    if digits.Some? {
      Associative(domain, ":" + digits.value, tail);
      Associative(":", digits.value, tail);
    }
  }

  lemma NoUserEarly(domain: string, rest: string, c: Captures)
    requires AllIn(DOMAIN_CHARS, domain) && Run(Word, domain) < |domain|
    ensures UserPass(Hit(domain + rest, c)) == Hit(domain + rest, c)
  {
    RunEndsInside(Word, domain, rest);
    var w := Run(Word, domain);
    assert (domain + rest)[w] == domain[w];
  }

  // A host with a port is taken for a user name and password exactly if the text behind it goes on with
  // word characters up to an '@'.

  lemma NoUserBeforePort(domain: string, digits: string, tail: string, c: Captures)
    requires domain != "" && AllIn(Word, domain) && AllIn(Digit, digits)
    requires Run(Word, tail) < |tail| ==> tail[Run(Word, tail)] != '@'
    ensures var h := Hit(domain + ([':'] + (digits + tail)), c); UserPass(h) == h
  {
    UserAtColon(domain, digits + tail, c);
    WordsOfPort(digits, tail);
    BehindPort(digits, tail, Run(Word, tail));
  }

  lemma UserBeforePort(domain: string, digits: string, tail: string, c: Captures)
    requires domain != "" && AllIn(Word, domain) && AllIn(Digit, digits) && digits != ""
    requires Run(Word, tail) < |tail| && tail[Run(Word, tail)] == '@'
    ensures UserPass(Hit(domain + ([':'] + (digits + tail)), c)).captures.username == Some(domain)
  {
    UserAtColon(domain, digits + tail, c);
    WordsOfPort(digits, tail);
    BehindPort(digits, tail, Run(Word, tail));
  }

  lemma UserAtColon(name: string, t: string, c: Captures)
    requires name != "" && AllIn(Word, name)
    ensures var h, m := Hit(name + ([':'] + t), c), Run(Word, t);
            UserPass(h)
            == if m > 0 && m < |t| && t[m] == '@'
               then Hit(t[m + 1..], c.(username := Some(name), password := Some(t[..m]))) else h
  {
    NameAndMark(name, ':', t);
    UserAt(name + ([':'] + t), name, t, c);
  }

  lemma NameAndMark(name: string, mark: char, t: string)
    requires AllIn(Word, name) && !In(Word, mark)
    ensures var s, n := name + ([mark] + t), |name|;
            Run(Word, s) == n && s[..n] == name && s[n] == mark && s[n + 1..] == t
  {
    CutAt(name, mark, t);
    RunIs(Word, name, [mark] + t);
  }

  lemma UserParsed(username: string, password: string, rest: string, c: Captures)
    requires username != "" && password != "" && AllIn(Word, username) && AllIn(Word, password)
    ensures UserPass(Hit(username + ([':'] + (password + (['@'] + rest))), c))
         == Hit(rest, c.(username := Some(username), password := Some(password)))
  {
    UserAtColon(username, password + (['@'] + rest), c);
    NameAndMark(password, '@', rest);
  }

  lemma UserAt(s: string, name: string, t: string, c: Captures)
    requires 0 < |name| < |s| && Run(Word, s) == |name| && s[..|name|] == name
    requires s[|name|] == ':' && s[|name| + 1..] == t
    ensures var m := Run(Word, t);
            UserPass(Hit(s, c))
            == if m > 0 && m < |t| && t[m] == '@'
               then Hit(t[m + 1..], c.(username := Some(name), password := Some(t[..m]))) else Hit(s, c)
  {
  }

  lemma WordsOfPort(digits: string, tail: string)
    requires AllIn(Digit, digits)
    ensures Run(Word, digits + tail) == |digits| + Run(Word, tail)
  {
    DropAppend(digits, tail);
    RunSkips(Word, digits + tail, |digits|);
  }

  lemma BehindPort(digits: string, tail: string, n: nat)
    requires n <= |tail|
    ensures var t, m := digits + tail, |digits| + n;
            && (m < |t| <==> n < |tail|) && t[..m] == digits + tail[..n]
            && (n < |tail| ==> t[m] == tail[n] && t[m + 1..] == tail[n + 1..])
  {
  }

  /** A host is not mistaken for a user name and password: the only colon in it ends the domain, and
      what follows are digits up to the end of the host. */
  lemma NoUserInHost(domain: string, digits: Option<string>, tail: string, c: Captures)
    requires domain != "" && AllIn(DOMAIN_CHARS, domain) && (digits.Some? ==> AllIn(Digit, digits.value))
    requires AfterHost(tail)
    ensures UserPass(Hit(domain + PortText(digits, tail), c)) == Hit(domain + PortText(digits, tail), c)
  {
    if Run(Word, domain) < |domain| {
      NoUserEarly(domain, PortText(digits, tail), c);
    } else if digits.Some? {
      NoUserBeforePort(domain, digits.value, tail, c);
    } else {
      RunIs(Word, domain, tail);
    }
  }

  lemma PortParsed(digits: Option<string>, tail: string, from: string, c: Captures)
    requires (digits.Some? ==> AllIn(Digit, digits.value)) && Follows(digits, tail)
    requires |PortText(digits, tail)| <= |from|
    ensures PortPass(Hit(PortText(digits, tail), c), from)
         == Hit(tail, Capture(if digits.Some? then Capture(c, Port, digits.value) else c,
                              Host, from[..|from| - |tail|]))
  {
    if digits.Some? {
      assert PortText(digits, tail)[1..] == digits.value + tail;
      RunIs(Digit, digits.value, tail);
      DropAppend(digits.value, tail);
    }
  }

  lemma HostParsed(host: string, domain: string, digits: Option<string>, tail: string, c: Captures)
    requires HostOf(host, domain, digits) && Follows(digits, tail)
    ensures HostPass(Hit(host + tail, c))
         == Hit(tail, c.(host := Some(host), domain := Some(domain),
                         port := if digits.Some? then digits else c.port))
  {
    var s, rest := host + tail, PortText(digits, tail);
    HostSplit(host, domain, digits, tail);
    RunIs(DOMAIN_CHARS, domain, rest);
    DropAppend(domain, rest);
    PortParsed(digits, tail, s, Capture(c, Domain, domain));
    DropAppend(host, tail);
  }

  /** A URL with the given scheme, domain and port digits, and no user. */
  ghost predicate HasPort(url: string, scheme: string, domain: string, digits: string, tail: string)
  {
    && scheme != "" && AllIn(SCHEME_CHARS, scheme) && domain != "" && AllIn(DOMAIN_CHARS, domain)
    && AllIn(Digit, digits) && AfterHost(tail)
    && url == scheme + "://" + (domain + ":" + digits + tail)
  }

  lemma HostHits(scheme: string, host: string, domain: string, digits: string, tail: string)
    requires scheme != "" && AllIn(SCHEME_CHARS, scheme) && HostOf(host, domain, Some(digits)) && AfterHost(tail)
    ensures var a := SchemePass(Hit(scheme + "://" + (host + tail), NOTHING));
            && a == Hit(host + tail, NOTHING.(scheme := Some(scheme))) && UserPass(a) == a
            && HostPass(a) == Hit(tail, a.captures.(host := Some(host), domain := Some(domain), port := Some(digits)))
  {
    var c := NOTHING.(scheme := Some(scheme));
    SchemeParsed(scheme, host + tail, NOTHING);
    HostSplit(host, domain, Some(digits), tail);
    NoUserInHost(domain, Some(digits), tail, c);
    HostParsed(host, domain, Some(digits), tail, c);
  }

  lemma PortInSplit(url: string, scheme: string, domain: string, digits: string, tail: string)
    requires HasPort(url, scheme, domain, digits, tail)
    ensures var c := OnePass(url).captures;
            c.port == Some(digits) && c.domain == Some(domain)
  {
    HostHits(scheme, domain + ":" + digits, domain, digits, tail);
    var a, b, c, d, e := AllSteps(url);
  }

  /** The port of such a URL is the number that its digits spell; there must be a digit, and the number must
      be at most 2^31 - 1. */
  lemma PortOfUrl(url: string, scheme: string, domain: string, digits: string, tail: string)
    requires HasPort(url, scheme, domain, digits, tail)
    ensures Parses(url) <==> digits != "" && PlaceValue(DigitValues(digits)) <= 2_147_483_647
    ensures Parses(url) ==> FieldsOf(url).port == PlaceValue(DigitValues(digits)) && FieldsOf(url).domain == domain
  {
    PortInSplit(url, scheme, domain, digits, tail);
    assert forall i | 0 <= i < |digits| :: In(Digit, digits[i]) && IsDigit(digits[i]);
    DecimalIsPlaceValue(digits);
  }

  /** `get_uri`: all fields from the split; for a URL with a port, the number that its digits spell. */
  method GetUri(url: string) returns (uri: Uri)
    requires Parses(url)
    ensures fresh(uri) && uri.View() == FieldsOf(url)
    ensures forall scheme, domain, digits, tail | HasPort(url, scheme, domain, digits, tail) ::
              uri.port == PlaceValue(DigitValues(digits))
  {
    uri := new Uri.Default();
    var _ := uri.Parse(url);
    forall scheme, domain, digits, tail | HasPort(url, scheme, domain, digits, tail)
      ensures FieldsOf(url).port == PlaceValue(DigitValues(digits))
    {
      PortOfUrl(url, scheme, domain, digits, tail);
    }
  }

  lemma NoHost(tail: string, c: Captures)
    requires AfterHost(tail)
    ensures UserPass(Hit(tail, c)) == Hit(tail, c) && HostPass(Hit(tail, c)) == Hit(tail, c)
  {
  }

  lemma PathParsed(path: string, rest: string, c: Captures)
    requires AllIn(PATH_CHARS, path) && (rest == "" || rest[0] == '?' || rest[0] == '#')
    ensures PathPass(Hit(path + rest, c)) == Hit(rest, c.(path := Some(path)))
  {
    RunIs(PATH_CHARS, path, rest);
    DropAppend(path, rest);
  }

  lemma QueryParsed(query: string, rest: string, c: Captures)
    requires AllIn(QUERY_CHARS, query) && (rest == "" || rest[0] == '#')
    ensures QueryPass(Hit(Marked("?", query) + rest, c))
         == Hit(rest, if query != "" then c.(query := Some(query)) else c)
  {
    var s := Marked("?", query) + rest;
    if query != "" {
      assert s[1..] == query + rest;
      RunIs(QUERY_CHARS, query, rest);
      assert s[1 + |query|..] == rest && s[1..1 + |query|] == query;
    } else {
      assert s == rest;
    }
  }

  lemma FragmentParsed(fragment: string, c: Captures)
    requires AllIn(NotNewline, fragment)
    ensures FragmentPass(Hit(Marked("#", fragment), c))
         == Hit("", if fragment != "" then c.(fragment := Some(fragment)) else c)
  {
    var s := Marked("#", fragment);
    if fragment != "" {
      assert s[1..] == fragment + "";
      RunIs(NotNewline, fragment, "");
      assert s[1 + |fragment|..] == "" && s[1..1 + |fragment|] == fragment;
    }
  }

  /** Component records as they should be: a scheme, a user name and password or neither, a host or
      none, a rooted or empty path, and no separator inside a component that would end it early. */
  predicate WellFormed(f: Fields, digits: Option<string>)
  {
    && f.scheme != "" && AllIn(SCHEME_CHARS, f.scheme)
    && (f.username == "" <==> f.password == "") && AllIn(Word, f.username) && AllIn(Word, f.password)
    && (if f.host == "" then f.domain == "" && digits == None else HostOf(f.host, f.domain, digits))
    && (match digits
        case None => f.port == 0
        case Some(d) => d != "" && AllIn(Digit, d) && f.port == Decimal(d) <= I32_MAX)
    && (f.path == "" || f.path[0] == '/') && AllIn(PATH_CHARS, f.path)
    && AllIn(QUERY_CHARS, f.query) && AllIn(NotNewline, f.fragment)
  }

  function NonEmpty(s: string): (o: Option<string>)
  {
    if s == "" then None else Some(s)
  }

  /** What the split of a printed record captures. */
  function CapturesOf(f: Fields, digits: Option<string>): (c: Captures)
  {
    Captures(Some(f.scheme), NonEmpty(f.username), NonEmpty(f.password), NonEmpty(f.host), NonEmpty(f.domain), digits,
             Some(f.path), NonEmpty(f.query), NonEmpty(f.fragment))
  }

  lemma NoUserInRecord(f: Fields, digits: Option<string>, tail: string, c: Captures)
    requires WellFormed(f, digits) && AfterHost(tail)
    ensures UserPass(Hit(f.host + tail, c)) == Hit(f.host + tail, c)
  {
    if f.host != "" {
      HostSplit(f.host, f.domain, digits, tail);
      NoUserInHost(f.domain, digits, tail, c);
    } else {
      assert f.host + tail == tail;
      NoHost(tail, c);
    }
  }

  lemma UserInfoText(username: string, password: string, rest: string)
    requires username != ""
    ensures UserInfo(username, password) + rest == username + ([':'] + (password + (['@'] + rest)))
  {
    var s := username + ([':'] + (password + (['@'] + rest)));
    assert s == username + ":" + password + "@" + rest;
  }

  lemma UserOfRecord(f: Fields, digits: Option<string>, tail: string, c: Captures)
    requires WellFormed(f, digits) && AfterHost(tail) && c.username.None? && c.password.None?
    ensures UserPass(Hit(UserInfo(f.username, f.password) + (f.host + tail), c))
         == Hit(f.host + tail, c.(username := NonEmpty(f.username), password := NonEmpty(f.password)))
  {
    var rest := f.host + tail;
    if f.username != "" {
      UserParsed(f.username, f.password, rest, c);
      UserInfoText(f.username, f.password, rest);
    } else {
      assert UserInfo(f.username, f.password) + rest == rest;
      NoUserInRecord(f, digits, tail, c);
    }
  }

  lemma HostOfRecord(f: Fields, digits: Option<string>, tail: string, c: Captures)
    requires WellFormed(f, digits) && AfterHost(tail) && c.host.None? && c.domain.None? && c.port.None?
    ensures HostPass(Hit(f.host + tail, c))
         == Hit(tail, c.(host := NonEmpty(f.host), domain := NonEmpty(f.domain), port := digits))
  {
    if f.host != "" {
      HostParsed(f.host, f.domain, digits, tail, c);
    } else {
      assert f.host + tail == tail;
      NoHost(tail, c);
    }
  }

  /** The end of a printed record. */
  function RecordTail(f: Fields): (s: string)
  {
    f.path + (Marked("?", f.query) + Marked("#", f.fragment))
  }

  lemma PathOfRecord(f: Fields, digits: Option<string>)
    requires WellFormed(f, digits)
    ensures var c := CapturesOf(f, digits).(query := None, fragment := None);
            PathPass(Hit(RecordTail(f), c.(path := None))) == Hit(Marked("?", f.query) + Marked("#", f.fragment), c)
  {
    var c := CapturesOf(f, digits).(path := None, query := None, fragment := None);
    PathParsed(f.path, Marked("?", f.query) + Marked("#", f.fragment), c);
  }

  lemma QueryOfRecord(f: Fields, digits: Option<string>)
    requires WellFormed(f, digits)
    ensures var c := CapturesOf(f, digits).(fragment := None);
            QueryPass(Hit(Marked("?", f.query) + Marked("#", f.fragment), c.(query := None)))
            == Hit(Marked("#", f.fragment), c)
  {
    QueryParsed(f.query, Marked("#", f.fragment), CapturesOf(f, digits).(query := None, fragment := None));
  }

  lemma FragmentOfRecord(f: Fields, digits: Option<string>)
    requires WellFormed(f, digits)
    ensures FragmentPass(Hit(Marked("#", f.fragment), CapturesOf(f, digits).(fragment := None)))
         == Hit("", CapturesOf(f, digits))
  {
    FragmentParsed(f.fragment, CapturesOf(f, digits).(fragment := None));
  }

  lemma FieldsFromCaptures(f: Fields, digits: Option<string>)
    requires WellFormed(f, digits)
    ensures PortParses(CapturesOf(f, digits)) && FieldsFrom(CapturesOf(f, digits)) == f
  {
  }

  lemma PrintedParts(f: Fields)
    ensures Print(f) == f.scheme + "://" + (UserInfo(f.username, f.password) + (f.host + RecordTail(f)))
  {
  }

  lemma OnePassIs(url: string, a: Hit, b: Hit, c: Hit, d: Hit, e: Hit, f: Hit)
    requires SchemePass(Hit(url, NOTHING)) == a && UserPass(a) == b && HostPass(b) == c
    requires PathPass(c) == d && QueryPass(d) == e && FragmentPass(e) == f
    ensures OnePass(url) == f
  {
  }

  lemma SplitOfPrinted(f: Fields, digits: Option<string>)
    requires WellFormed(f, digits)
    ensures OnePass(Print(f)) == Hit("", CapturesOf(f, digits))
  {
    var text, tail := f.host + RecordTail(f), RecordTail(f);
    var a := Hit(UserInfo(f.username, f.password) + text, NOTHING.(scheme := Some(f.scheme)));
    var b := Hit(text, a.captures.(username := NonEmpty(f.username), password := NonEmpty(f.password)));
    var c := Hit(tail, b.captures.(host := NonEmpty(f.host), domain := NonEmpty(f.domain), port := digits));
    var d := Hit(Marked("?", f.query) + Marked("#", f.fragment), c.captures.(path := Some(f.path)));
    var e := Hit(Marked("#", f.fragment), d.captures.(query := NonEmpty(f.query)));
    PrintedParts(f);
    SchemeParsed(f.scheme, a.left, NOTHING);
    UserOfRecord(f, digits, tail, a.captures);
    HostOfRecord(f, digits, tail, b.captures);
    PathOfRecord(f, digits);
    QueryOfRecord(f, digits);
    FragmentOfRecord(f, digits);
    OnePassIs(Print(f), a, b, c, d, e, Hit("", CapturesOf(f, digits)));
  }

  /** Parsing a printed well-formed record gives back every field. */
  lemma ParsesBack(f: Fields, digits: Option<string>)
    requires WellFormed(f, digits)
    ensures Parses(Print(f)) && FieldsOf(Print(f)) == f
  {
    SplitOfPrinted(f, digits);
    FieldsFromCaptures(f, digits);
  }
}
