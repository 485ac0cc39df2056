/** HLS: the playlist scanners of zpinger and its resolution of playlist references. */
module Hls {
  import opened Bytes
  import opened Regex
  import opened Uri

  // ---- Playlists -------------------------------------------------------------------------------

  /** `str::lines`: cut after each newline, a CR before it dropped with it. */
  function Lines(s: string): (lines: seq<string>)
    decreases |s|
  {
    if s == "" then []
    else
      var n := Run(NotNewline, s);
      if n == |s| then [s] else [DropCr(s[..n])] + Lines(s[n + 1..])
  }

  function DropCr(line: string): (s: string)
  {
    if line != "" && line[|line| - 1] == '\r' then line[..|line| - 1] else line
  }

  predicate IsPlain(line: string)
  {
    '\n' !in line && (line == "" || line[|line| - 1] != '\r')
  }

  /** A line closed by a newline or by CR and newline. */
  function Closed(line: string, crlf: bool): (s: string)
  {
    line + if crlf then "\r\n" else "\n"
  }

  function Unlines(lines: seq<string>, crlf: seq<bool>): (s: string)
    requires |crlf| == |lines|
  {
    if lines == [] then "" else Closed(lines[0], crlf[0]) + Unlines(lines[1..], crlf[1..])
  }

  lemma LinesAtNewline(s: string, rest: string)
    requires '\n' !in s
    ensures Lines(s + (['\n'] + rest)) == [DropCr(s)] + Lines(rest)
  {
    forall i | 0 <= i < |s|
      ensures In(NotNewline, s[i])
    {
      assert s[i] in s;
    }
    CutAt(s, '\n', rest);
    RunIs(NotNewline, s, ['\n'] + rest);
  }

  lemma LinesAfterClosed(line: string, crlf: bool, rest: string)
    requires IsPlain(line)
    ensures Lines(Closed(line, crlf) + rest) == [line] + Lines(rest)
  {
    var s := if crlf then line + "\r" else line;
    assert crlf ==> s[..|s| - 1] == line;
    assert Closed(line, crlf) == s + ['\n'];
    Associative(s, ['\n'], rest);
    LinesAtNewline(s, rest);
  }

  /** Whatever the line ends, the lines are read back, and then those of what follows. */
  lemma {:induction false} LinesOfUnlines(lines: seq<string>, crlf: seq<bool>, last: string)
    requires |crlf| == |lines|
    requires forall i | 0 <= i < |lines| :: IsPlain(lines[i])
    ensures Lines(Unlines(lines, crlf) + last) == lines + Lines(last)
    decreases |lines|
  {
    if lines == [] {
      assert Unlines(lines, crlf) + last == last;
    } else {
      var rest := Unlines(lines[1..], crlf[1..]);
      LinesOfUnlines(lines[1..], crlf[1..], last);
      LinesAfterClosed(lines[0], crlf[0], rest + last);
      Associative(Closed(lines[0], crlf[0]), rest, last);
      FirstAndRest(lines, Lines(last));
    }
  }

  /** A last line need not be closed. */
  lemma LastLine(last: string)
    requires '\n' !in last && last != ""
    ensures Lines(last) == [last]
  {
    assert forall i | 0 <= i < |last| :: last[i] in last;
    assert last + "" == last;
    RunIs(NotNewline, last, "");
  }

  /** `char::is_whitespace`: the Unicode White_Space characters. */
  predicate IsSpace(c: char)
  {
    var n := c as int;
    || 0x09 <= n <= 0x0D || n == 0x20 || n == 0x85 || n == 0xA0 || n == 0x1680
    || 0x2000 <= n <= 0x200A || n == 0x2028 || n == 0x2029 || n == 0x202F || n == 0x205F || n == 0x3000
  }

  /** One by one: the 25 characters. */
  lemma SpacesInNumbers(c: char)
    ensures IsSpace(c)
       <==> c as int in {9, 10, 11, 12, 13, 32, 133, 160, 5760, 8192, 8193, 8194, 8195, 8196, 8197, 8198, 8199, 8200,
                         8201, 8202, 8232, 8233, 8239, 8287, 12288}
  {
  }

  function TrimStart(s: string): (t: string)
    ensures t == "" || !IsSpace(t[0])
  {
    if s != "" && IsSpace(s[0]) then TrimStart(s[1..]) else s
  }

  function TrimEnd(s: string): (t: string)
    ensures t <= s
    ensures t == "" || !IsSpace(t[|t| - 1])
  {
    if s != "" && IsSpace(s[|s| - 1]) then TrimEnd(s[..|s| - 1]) else s
  }

  function Trim(s: string): (t: string)
  {
    TrimEnd(TrimStart(s))
  }

  predicate AllSpace(s: string)
  {
    forall i | 0 <= i < |s| :: IsSpace(s[i])
  }

  /** Trimming takes white space off both ends, and leaves none there. */
  lemma TrimIs(s: string)
    ensures exists a, b :: s == a + Trim(s) + b && AllSpace(a) && AllSpace(b)
    ensures Trim(s) != "" ==> !IsSpace(Trim(s)[0]) && !IsSpace(Trim(s)[|Trim(s)| - 1])
  {
    var a := StartIs(s);
    var b := EndIs(TrimStart(s));
    Associative(a, Trim(s), b);
    assert s == a + Trim(s) + b;
  }

  lemma {:induction false} StartIs(s: string) returns (a: string)
    ensures s == a + TrimStart(s) && AllSpace(a)
    decreases |s|
  {
    a := "";
    if s != "" && IsSpace(s[0]) {
      a := StartIs(s[1..]);
      a := [s[0]] + a;
    }
  }

  lemma {:induction false} EndIs(s: string) returns (b: string)
    ensures s == TrimEnd(s) + b && AllSpace(b)
    decreases |s|
  {
    b := "";
    if s != "" && IsSpace(s[|s| - 1]) {
      b := EndIs(s[..|s| - 1]);
      Associative(TrimEnd(s), b, [s[|s| - 1]]);
      b := b + [s[|s| - 1]];
      assert s == s[..|s| - 1] + [s[|s| - 1]];
    }
  }

  predicate IsTag(line: string, tag: string)
  {
    tag <= TrimStart(line)
  }

  /** A tag line: white space, the tag, anything. */
  lemma TagIff(line: string, tag: string)
    requires tag != "" && !IsSpace(tag[0])
    ensures IsTag(line, tag) <==> exists a, rest :: line == a + tag + rest && AllSpace(a)
  {
    if IsTag(line, tag) {
      var a := StartIs(line);
      var rest := TrimStart(line)[|tag|..];
      Associative(a, tag, rest);
      assert line == a + tag + rest;
    }
    if a, rest :| line == a + tag + rest && AllSpace(a) {
      Associative(a, tag, rest);
      CutAt(tag[..0], tag[0], tag[1..] + rest);
      StartSkips(a, tag + rest);
    }
  }

  lemma {:induction false} StartSkips(a: string, s: string)
    requires AllSpace(a) && s != "" && !IsSpace(s[0])
    ensures TrimStart(a + s) == s
    decreases |a|
  {
    if a == "" {
      assert a + s == s;
    } else {
      assert (a + s)[1..] == a[1..] + s;
      StartSkips(a[1..], s);
    }
  }

  /** A line that is neither blank nor a tag or comment. */
  predicate IsUrlLine(line: string)
  {
    Trim(line) != "" && Trim(line)[0] != '#'
  }

  /** Line `i` is a URL line with the tag somewhere before it. */
  ghost predicate Announced(lines: seq<string>, tag: string, i: nat)
  {
    i < |lines| && IsUrlLine(lines[i]) && exists j :: 0 <= j < i && IsTag(lines[j], tag)
  }

  /** The first announced line, trimmed, or nothing if there is none. */
  ghost predicate IsFirstAnnounced(lines: seq<string>, tag: string, r: Option<string>)
  {
    match r
    case Some(url) =>
      exists i: nat :: Announced(lines, tag, i) && url == Trim(lines[i])
                       && forall k: nat | k < i :: !Announced(lines, tag, k)
    case None => forall i: nat :: !Announced(lines, tag, i)
  }

  const STREAM_INF := "#EXT-X-STREAM-INF"
  const EXTINF := "#EXTINF"

  /** `first_variant_url`: two nested loops over one iterator. */
  method FirstVariantUrl(playlist: string) returns (r: Option<string>)
    ensures IsFirstAnnounced(Lines(playlist), "#EXT-X-STREAM-INF", r)
  {
    var lines := Lines(playlist);
    var next := 0;
    while next < |lines|
      invariant 0 <= next <= |lines|
      invariant next < |lines| ==> forall j | 0 <= j < next :: !IsTag(lines[j], STREAM_INF)
      invariant forall k: nat | k < next :: !Announced(lines, STREAM_INF, k)
    {
      var line := lines[next];
      next := next + 1;
      if STREAM_INF <= TrimStart(line) {
        ghost var tag := next - 1;
        while next < |lines|
          invariant 0 <= tag < next <= |lines| && IsTag(lines[tag], STREAM_INF)
          invariant forall j | 0 <= j < tag :: !IsTag(lines[j], STREAM_INF)
          invariant forall k | tag < k < next :: !IsUrlLine(lines[k])
        {
          var candidate := Trim(lines[next]);
          next := next + 1;
          if candidate != "" && candidate[0] != '#' {
            assert Announced(lines, STREAM_INF, next - 1);
            return Some(candidate);
          }
        }
      }
    }
    return None;
  }

  /** `first_segment_url`: the same for segments. */
  method FirstSegmentUrl(playlist: string) returns (r: Option<string>)
    ensures IsFirstAnnounced(Lines(playlist), "#EXTINF", r)
  {
    var lines := Lines(playlist);
    var next := 0;
    while next < |lines|
      invariant 0 <= next <= |lines|
      invariant next < |lines| ==> forall j | 0 <= j < next :: !IsTag(lines[j], EXTINF)
      invariant forall k: nat | k < next :: !Announced(lines, EXTINF, k)
    {
      var line := lines[next];
      next := next + 1;
      if EXTINF <= TrimStart(line) {
        ghost var tag := next - 1;
        while next < |lines|
          invariant 0 <= tag < next <= |lines| && IsTag(lines[tag], EXTINF)
          invariant forall j | 0 <= j < tag :: !IsTag(lines[j], EXTINF)
          invariant forall k | tag < k < next :: !IsUrlLine(lines[k])
        {
          var candidate := Trim(lines[next]);
          next := next + 1;
          if candidate != "" && candidate[0] != '#' {
            assert Announced(lines, EXTINF, next - 1);
            return Some(candidate);
          }
        }
      }
    }
    return None;
  }

  // ---- References --------------------------------------------------------------------------------

  datatype ResolveError = NoHost

  predicate IsAbsolute(reference: string)
  {
    "http://" <= reference || "https://" <= reference
  }

  /** `rsplit_once('/')`, the part before the last slash; empty if there is none. */
  function Directory(path: string): (d: string)
    ensures '/' in path ==> d + "/" <= path && '/' !in path[|d| + 1..]
    ensures '/' !in path ==> d == ""
  {
    if path == "" then ""
    else if path[|path| - 1] == '/' then path[..|path| - 1]
    else Directory(path[..|path| - 1])
  }

  function SchemeOr(scheme: string): (s: string)
  {
    if scheme == "" then "http" else scheme
  }

  /** `resolve_relative`. */
  function ResolveRelative(base: string, reference: string): (r: Result<string, ResolveError>)
    requires IsAbsolute(reference) || Parses(base)
  {
    if IsAbsolute(reference) then Ok(reference) else ResolveAgainst(FieldsOf(base), reference)
  }

  function ResolveAgainst(uri: Fields, reference: string): (r: Result<string, ResolveError>)
  {
    var scheme := SchemeOr(uri.scheme);
    if uri.host == "" then Err(NoHost)
    else if "/" <= reference then Ok(scheme + "://" + uri.host + "/" + reference[1..])
    else
      var dir := Directory(uri.path);
      if dir == "" then Ok(scheme + "://" + uri.host + "/" + reference)
      else Ok(scheme + "://" + uri.host + dir + "/" + reference)
  }

  /** An absolute reference is taken as it is, whatever the base; only http and https ones are absolute. */
  lemma AbsoluteIsKept(base: string, rest: string)
    ensures ResolveRelative(base, "http://" + rest) == Ok("http://" + rest)
    ensures ResolveRelative(base, "https://" + rest) == Ok("https://" + rest)
  {
  }

  lemma AbsoluteReferences(reference: string)
    ensures IsAbsolute(reference)
       <==> (exists rest :: reference == "http://" + rest) || (exists rest :: reference == "https://" + rest)
  {
    if "http://" <= reference {
      assert reference == "http://" + reference[7..];
    }
    if "https://" <= reference {
      assert reference == "https://" + reference[8..];
    }
  }

  /** The path a reference means: itself if rooted, otherwise joined to the directory of the base. */
  function JoinedPath(basePath: string, reference: string): (p: string)
  {
    if "/" <= reference then reference else Directory(basePath) + "/" + reference
  }

  /** Up to any '?' or '#'. */
  function PathPart(s: string): (p: string)
  {
    s[..Run(PATH_CHARS, s)]
  }

  /** Scheme, host and the joined path. */
  function Resolved(uri: Fields, reference: string): (url: string)
  {
    SchemeOr(uri.scheme) + "://" + (uri.host + JoinedPath(uri.path, reference))
  }

  lemma ResolvedText(uri: Fields, reference: string)
    requires uri.host != ""
    ensures ResolveAgainst(uri, reference) == Ok(Resolved(uri, reference))
  {
    var front := SchemeOr(uri.scheme) + "://";
    var dir := Directory(uri.path);
    if "/" <= reference {
      assert "/" + reference[1..] == reference;
      Joined(front, uri.host, "/", reference[1..]);
    } else if dir == "" {
      assert dir + "/" == "/";
      Joined(front, uri.host, "/", reference);
    } else {
      Associative(front + uri.host, dir, "/");
      Joined(front, uri.host, dir + "/", reference);
    }
  }

  lemma Joined(front: string, host: string, dir: string, rest: string)
    ensures front + host + dir + rest == front + (host + (dir + rest))
  {
    Associative(front + host, dir, rest);
    Associative(front, host, dir + rest);
  }

  /** The URL parses to the host and scheme of the base, without user, and to the joined path. */
  predicate Keeps(uri: Fields, reference: string, url: string)
  {
    Parses(url) &&
    var f := FieldsOf(url);
    && f.scheme == (if uri.scheme == "" then "http" else uri.scheme) && f.username == "" && f.password == ""
    && f.host == uri.host && f.domain == uri.domain && f.port == uri.port
    && f.path == PathPart(JoinedPath(uri.path, reference))
  }

  /** The directory of the base goes on, behind the digits of the port, with word characters up to an '@';
      only a user name and password of its own in front have kept the host from being taken for them. */
  predicate HidesUser(uri: Fields, reference: string)
  {
    var dir := Directory(uri.path);
    var n := Run(Word, dir);
    !("/" <= reference) && AllIn(Word, uri.domain) && n < |dir| && dir[n] == '@'
  }

  /** Resolving any reference that is not absolute, against any base with a host, gives a URL that parses
      to the same host and scheme, without user, and whose path is the joined one, exactly when the base
      hides no user; otherwise its domain comes back as a user name. In either case
      it begins with the scheme of the base, or with http if that has none (`ResolvedScheme`). */
  lemma ResolvedParses(base: string, reference: string)
    requires !IsAbsolute(reference) && Parses(base) && FieldsOf(base).host != ""
    ensures var uri, r := FieldsOf(base), ResolveRelative(base, reference);
            && r.Ok? && (Keeps(uri, reference, r.value) <==> !HidesUser(uri, reference))
            && (HidesUser(uri, reference) && Parses(r.value) ==> FieldsOf(r.value).username == uri.domain)
  {
    ResolvedText(FieldsOf(base), reference);
    if HidesUser(FieldsOf(base), reference) {
      ResolvedHidden(base, reference);
    } else {
      ResolvedKept(base, reference);
    }
  }

  /** In either case the result begins with the scheme of the base, or with http if that has none. */
  lemma ResolvedScheme(base: string, reference: string)
    requires !IsAbsolute(reference) && Parses(base) && FieldsOf(base).host != ""
    ensures var scheme, r := FieldsOf(base).scheme, ResolveRelative(base, reference);
            && r.Ok? && (scheme == "" ==> "http://" <= r.value) && (scheme != "" ==> scheme + "://" <= r.value)
  {
    ResolvedText(FieldsOf(base), reference);
    BeginsWithScheme(FieldsOf(base), reference);
  }

  lemma BeginsWithScheme(uri: Fields, reference: string)
    ensures var url := Resolved(uri, reference);
            (uri.scheme == "" ==> "http://" <= url) && (uri.scheme != "" ==> uri.scheme + "://" <= url)
  {
  }

  lemma ResolvedHidden(base: string, reference: string)
    requires Parses(base) && FieldsOf(base).host != "" && HidesUser(FieldsOf(base), reference)
    ensures OnePass(Resolved(FieldsOf(base), reference)).captures.username == Some(FieldsOf(base).domain)
    ensures FieldsOf(base).domain != ""
  {
    var uri, digits := FieldsOf(base), OnePass(base).captures.port;
    SchemeIsWellFormed(base);
    HostIsWellFormed(base);
    PathFollowsHost(base);
    HiddenUser(uri, digits, reference);
    UserIsDomain(SchemeOr(uri.scheme), uri.host, uri.domain, digits.value, JoinedPath(uri.path, reference));
  }

  lemma ResolvedKept(base: string, reference: string)
    requires Parses(base) && FieldsOf(base).host != "" && !HidesUser(FieldsOf(base), reference)
    ensures Keeps(FieldsOf(base), reference, Resolved(FieldsOf(base), reference))
  {
    var uri, digits := FieldsOf(base), OnePass(base).captures.port;
    var joined := JoinedPath(uri.path, reference);
    SchemeIsWellFormed(base);
    HostIsWellFormed(base);
    PathFollowsHost(base);
    JoinedFollows(uri.path, digits, reference);
    NoUserInJoined(uri, digits, reference, NOTHING.(scheme := Some(SchemeOr(uri.scheme))));
    SplitOfResolved(SchemeOr(uri.scheme), uri.host, uri.domain, digits, joined);
  }

  lemma NoUserInJoined(uri: Fields, digits: Option<string>, reference: string, c: Captures)
    requires HostOf(uri.host, uri.domain, digits) && Follows(digits, JoinedPath(uri.path, reference))
    requires !HidesUser(uri, reference)
    ensures var h := Hit(uri.host + JoinedPath(uri.path, reference), c); UserPass(h) == h
  {
    var joined := JoinedPath(uri.path, reference);
    HostSplit(uri.host, uri.domain, digits, joined);
    if Run(Word, uri.domain) < |uri.domain| {
      NoUserEarly(uri.domain, PortText(digits, joined), c);
    } else if digits.Some? {
      MarkInJoined(uri, digits, reference);
      NoUserBeforePort(uri.domain, digits.value, joined, c);
    } else {
      NoUserInHost(uri.domain, digits, joined, c);
    }
  }

  /** A base with an empty or rooted path hides no user. */
  lemma RootedIsKept(base: string, reference: string)
    requires !IsAbsolute(reference) && Parses(base) && FieldsOf(base).host != ""
    requires FieldsOf(base).path == "" || FieldsOf(base).path[0] == '/'
    ensures var r := ResolveRelative(base, reference);
            r.Ok? && Keeps(FieldsOf(base), reference, r.value)
  {
    ResolvedParses(base, reference);
    RootedHidesNone(FieldsOf(base), reference);
  }

  lemma RootedHidesNone(uri: Fields, reference: string)
    requires uri.path == "" || uri.path[0] == '/'
    ensures !HidesUser(uri, reference)
  {
    var d := Directory(uri.path);
    if d != "" {
      DirectoryStarts(uri.path);
    }
  }

  lemma DirectoryStarts(path: string)
    requires Directory(path) != ""
    ensures path != "" && Directory(path)[0] == path[0]
  {
    var d := Directory(path);
    assert (d + "/")[0] == d[0] && path[..|d| + 1] == d + "/";
  }

  lemma PathFollowsHost(url: string)
    requires Parses(url) && FieldsOf(url).host != ""
    ensures var digits := OnePass(url).captures.port;
            Follows(digits, FieldsOf(url).path) && (digits.Some? ==> digits.value != "")
  {
    var a, b, c, d, e := AllSteps(url);
    HostEnds(b);
    PathOfLeft(c.captures.port, c.left);
  }

  lemma HostEnds(h: Hit)
    requires h.captures.host.None? && h.captures.port.None?
    ensures var h' := HostPass(h);
            h'.captures.host.Some? ==> Follows(h'.captures.port, h'.left)
  {
  }

  lemma PathOfLeft(digits: Option<string>, left: string)
    requires Follows(digits, left)
    ensures Follows(digits, PathPart(left))
  {
  }

  /** What is joined behind a host follows it as the path did. */
  lemma JoinedFollows(path: string, digits: Option<string>, reference: string)
    requires Follows(digits, path)
    ensures Follows(digits, JoinedPath(path, reference))
  {
    if Directory(path) != "" {
      DirectoryStarts(path);
    }
  }

  /** A hidden user is behind a port. */
  lemma HiddenUser(uri: Fields, digits: Option<string>, reference: string)
    requires HidesUser(uri, reference) && Follows(digits, uri.path)
    ensures var joined := JoinedPath(uri.path, reference);
            digits.Some? && Run(Word, joined) < |joined| && joined[Run(Word, joined)] == '@'
  {
    var dir := Directory(uri.path);
    DirectoryStarts(uri.path);
    WordsOfJoined(dir, reference);
  }

  lemma WordsOfJoined(dir: string, reference: string)
    ensures var n, joined := Run(Word, dir), dir + "/" + reference;
            && Run(Word, joined) == n && n < |joined|
            && joined[n] == if n < |dir| then dir[n] else '/'
  {
    Associative(dir, "/", reference);
    if Run(Word, dir) < |dir| {
      RunEndsInside(Word, dir, "/" + reference);
    } else {
      RunIs(Word, dir, "/" + reference);
    }
  }

  /** Without a hidden user the word characters behind a port do not end at an '@'. */
  lemma MarkInJoined(uri: Fields, digits: Option<string>, reference: string)
    requires !HidesUser(uri, reference) && AllIn(Word, uri.domain)
    ensures var joined := JoinedPath(uri.path, reference);
            Run(Word, joined) < |joined| && joined[Run(Word, joined)] != '@'
  {
    if !("/" <= reference) {
      WordsOfJoined(Directory(uri.path), reference);
    }
  }

  lemma SchemeInClass(h: Hit)
    requires h.captures.scheme.None?
    ensures var c := SchemePass(h).captures;
            c.scheme.Some? ==> c.scheme.value != "" && AllIn(SCHEME_CHARS, c.scheme.value)
  {
  }

  lemma SchemeIsWellFormed(url: string)
    requires Parses(url)
    ensures SchemeOr(FieldsOf(url).scheme) != "" && AllIn(SCHEME_CHARS, SchemeOr(FieldsOf(url).scheme))
  {
    SchemeKept(url);
    SchemeInClass(Hit(url, NOTHING));
  }

  lemma HostIsWellFormed(url: string)
    requires Parses(url) && FieldsOf(url).host != ""
    ensures HostOf(FieldsOf(url).host, FieldsOf(url).domain, OnePass(url).captures.port)
  {
    var a, b, c, d, e := AllSteps(url);
    HostIsHost(b);
  }

  lemma HostIsHost(h: Hit)
    requires h.captures.host.None? && h.captures.domain.None? && h.captures.port.None?
    ensures var c := HostPass(h).captures;
            c.host.Some? ==> c.domain.Some? && HostOf(c.host.value, c.domain.value, c.port)
  {
    var s, n := h.left, Run(DOMAIN_CHARS, h.left);
    if n > 0 {
      PortIsHost(s, n, Capture(h.captures, Domain, s[..n]));
    }
  }

  lemma PortIsHost(s: string, n: nat, c: Captures)
    requires 0 < n <= |s| && AllIn(DOMAIN_CHARS, s[..n]) && c.domain == Some(s[..n]) && c.port.None?
    ensures var c' := PortPass(Hit(s[n..], c), s).captures;
            c'.domain == c.domain && c'.host.Some? && HostOf(c'.host.value, s[..n], c'.port)
  {
    if n < |s| && s[n] == ':' {
      HostPieces(s, n, Run(Digit, s[n..][1..]));
    }
  }

  lemma HostPieces(s: string, n: nat, k: nat)
    requires n < |s| && s[n] == ':' && k <= |s| - n - 1
    ensures s[..n + 1 + k] == s[..n] + (":" + s[n..][1..][..k])
  {
  }

  lemma SplitOfResolved(scheme: string, host: string, domain: string, digits: Option<string>, joined: string)
    requires scheme != "" && AllIn(SCHEME_CHARS, scheme) && HostOf(host, domain, digits) && Follows(digits, joined)
    requires var h := Hit(host + joined, NOTHING.(scheme := Some(scheme))); UserPass(h) == h
    ensures var c := OnePass(scheme + "://" + (host + joined)).captures;
            && c.scheme == Some(scheme) && c.username.None? && c.password.None?
            && c.host == Some(host) && c.domain == Some(domain) && c.port == digits
            && c.path == Some(PathPart(joined))
  {
    SchemeParsed(scheme, host + joined, NOTHING);
    HostParsed(host, domain, digits, joined, NOTHING.(scheme := Some(scheme)));
  }

  lemma UserIsDomain(scheme: string, host: string, domain: string, digits: string, joined: string)
    requires scheme != "" && AllIn(SCHEME_CHARS, scheme) && HostOf(host, domain, Some(digits))
    requires AllIn(Word, domain) && digits != "" && Run(Word, joined) < |joined| && joined[Run(Word, joined)] == '@'
    ensures OnePass(scheme + "://" + (host + joined)).captures.username == Some(domain)
  {
    var a, b, c, d, e := AllSteps(scheme + "://" + (host + joined));
    SchemeParsed(scheme, host + joined, NOTHING);
    HostSplit(host, domain, Some(digits), joined);
    UserBeforePort(domain, digits, joined, a.captures);
  }

  /** Paths that can follow a port and hide a user behind it, such as "@/". */
  predicate HidingPath(path: string)
  {
    var dir := Directory(path);
    var n := Run(Word, dir);
    path != "" && !IsDigit(path[0]) && AllIn(PATH_CHARS, path) && n < |dir| && dir[n] == '@'
  }

  lemma AtSlashHides()
    ensures HidingPath("@/")
  {
    assert "@/"[..1] == "@";
    assert Directory("@/") == "@";
  }

  /** There are such bases: with a user name and password in front these parse, and hide a user from every
      reference that is not rooted. */
  lemma HidingBase(scheme: string, username: string, password: string, domain: string, digits: string, path: string)
    returns (base: string)
    requires scheme != "" && AllIn(SCHEME_CHARS, scheme)
    requires username != "" && password != "" && AllIn(Word, username) && AllIn(Word, password)
    requires domain != "" && AllIn(Word, domain) && digits != "" && AllIn(Digit, digits) && Decimal(digits) <= I32_MAX
    requires HidingPath(path)
    ensures base == scheme + "://" + (username + ([':'] + (password + (['@'] + (domain + ":" + digits + path)))))
    ensures Parses(base) && FieldsOf(base).host == domain + ":" + digits
    ensures forall reference: string | !("/" <= reference) :: HidesUser(FieldsOf(base), reference)
  {
    var host := domain + ":" + digits;
    base := scheme + "://" + (username + ([':'] + (password + (['@'] + (host + path)))));
    WordIsDomain(domain);
    UserAndHost(scheme, username, password, host, domain, digits, path);
  }

  lemma UserAndHost(
    scheme: string, username: string, password: string, host: string, domain: string, digits: string, path: string)
    requires scheme != "" && AllIn(SCHEME_CHARS, scheme)
    requires username != "" && password != "" && AllIn(Word, username) && AllIn(Word, password)
    requires HostOf(host, domain, Some(digits)) && AllIn(PATH_CHARS, path) && Follows(Some(digits), path)
    ensures var url := scheme + "://" + (username + ([':'] + (password + (['@'] + (host + path)))));
            var c := OnePass(url).captures;
            c.host == Some(host) && c.domain == Some(domain) && c.port == Some(digits) && c.path == Some(path)
  {
    var rest := username + ([':'] + (password + (['@'] + (host + path))));
    var a, b, c, d, e := AllSteps(scheme + "://" + rest);
    SchemeParsed(scheme, rest, NOTHING);
    UserParsed(username, password, host + path, a.captures);
    HostParsed(host, domain, Some(digits), path, b.captures);
    PlusNothing(path);
    PathParsed(path, "", c.captures);
  }

  lemma WordIsDomain(domain: string)
    requires AllIn(Word, domain)
    ensures AllIn(DOMAIN_CHARS, domain)
  {
  }

  /** Resolving fails exactly when the base has no host. The result is absolute exactly when the base's
      scheme is http or https in lower case, or missing; then resolving it again against anything leaves
      it alone. */
  lemma ResolvedIsAbsoluteIff(base: string, reference: string)
    requires !IsAbsolute(reference) && Parses(base)
    ensures var r := ResolveRelative(base, reference);
            && (r.Ok? <==> FieldsOf(base).host != "")
            && (r.Ok? ==> (IsAbsolute(r.value) <==> FieldsOf(base).scheme in {"", "http", "https"}))
            && (r.Ok? && IsAbsolute(r.value) ==> forall other: string :: ResolveRelative(other, r.value) == r)
  {
    var uri := FieldsOf(base);
    if uri.host != "" {
      ResolvedText(uri, reference);
      SchemeIsWellFormed(base);
      AbsoluteIff(SchemeOr(uri.scheme), uri.host + JoinedPath(uri.path, reference));
    }
  }

  lemma AbsoluteIff(scheme: string, rest: string)
    requires scheme != "" && AllIn(SCHEME_CHARS, scheme)
    ensures IsAbsolute(scheme + "://" + rest) <==> scheme == "http" || scheme == "https"
  {
    var s := scheme + "://" + rest;
    assert s[|scheme|] == ':' && s[|scheme| + 1] == '/' && s[..|scheme|] == scheme;
    assert forall i | 0 <= i < |scheme| :: In(SCHEME_CHARS, s[i]) && s[i] != '/';
    if "http://" <= s {
      assert s[5] == '/' && s[4] == ':' && s[3] == 'p';
      assert |scheme| == 4;
      assert s[..4] == "http";
    }
    if "https://" <= s {
      assert s[6] == '/' && s[5] == ':' && s[4] == 's';
      assert |scheme| == 5;
      assert s[..5] == "https";
    }
  }
}
