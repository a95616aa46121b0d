/**
 The first line of an HTTP request: METHOD SP URI SP VERSION (the request line of
 section 3 of RFC 9112), split into three fixed buffers, and the route the URI selects.
 */
module HttpRequest {
  import opened CString

  const METHOD_SIZE := 8
  const URI_SIZE := 256
  const VERSION_SIZE := 16

  const METHOD_STOPS := {' '}
  const URI_STOPS := {' ', '\r'}
  const VERSION_STOPS := {'\r', '\n'}

  datatype Request = Request(verb: string, uri: string, version: string)

  /** The length of the token p starts with: up to a stop character, the end, or a full buffer. */
  function TokenLength(p: string, stops: set<char>, room: nat): (n: nat)
    ensures n <= |p| && n <= room
    ensures forall k :: 0 <= k < n ==> p[k] !in stops
    ensures n == |p| || p[n] in stops || n == room
    decreases |p|
  {
    if p == [] || p[0] in stops || room == 0 then 0 else 1 + TokenLength(p[1..], stops, room - 1)
  }

  function Parse(p: string): Option<Request> {
    if p == [] then None
    else
      var a := TokenLength(p, METHOD_STOPS, METHOD_SIZE - 1);
      if a >= |p| || p[a] != ' ' then None else ParseUri(p[..a], p[a + 1..])
  }

  function ParseUri(verb: string, q: string): Option<Request> {
    var b := TokenLength(q, URI_STOPS, URI_SIZE - 1);
    if b >= |q| || q[b] != ' ' then None else Some(Request(verb, q[..b], Version(q[b + 1..])))
  }

  function Version(r: string): string {
    r[..TokenLength(r, VERSION_STOPS, VERSION_SIZE - 1)]
  }

  /** One of the three copy loops; the token is NUL-terminated in its buffer. */
  method CopyToken(p: string, start: nat, stops: set<char>, buf: array<char>) returns (i: nat)
    requires start <= |p| && buf.Length > 0
    modifies buf
    ensures i == start + TokenLength(p[start..], stops, buf.Length - 1)
    ensures start <= i <= |p| && Holds(buf, p[start..i])
  {
    i := start;
    var pos := 0;
    while i < |p| && p[i] !in stops && pos < buf.Length - 1
      invariant start <= i <= |p| && pos == i - start < buf.Length
      invariant forall k :: 0 <= k < pos ==> buf[k] == p[start + k]
      invariant forall k :: start <= k < i ==> p[k] !in stops
    {
      buf[pos] := p[i];
      pos := pos + 1;
      i := i + 1;
    }
    TokenLengthIs(p[start..], stops, buf.Length - 1, pos);
    buf[pos] := NUL;
  }

  ghost predicate Holds(buf: array<char>, s: string)
    reads buf
  {
    |s| < buf.Length && buf[..|s|] == s && buf[|s|] == NUL
  }

  method ParseRequestLine(p: string, verb: array<char>, uri: array<char>, version: array<char>) returns (r: int)
    requires verb.Length == METHOD_SIZE && uri.Length == URI_SIZE && version.Length == VERSION_SIZE
    requires verb != uri && uri != version && verb != version
    modifies verb, uri, version
    ensures r == 0 || r == -1
    ensures r == 0 <==> Parse(p).Some?
    ensures r == 0 ==>
      Holds(verb, Parse(p).value.verb) && Holds(uri, Parse(p).value.uri) && Holds(version, Parse(p).value.version)
  {
    if |p| == 0 {
      return -1;
    }
    assert p[0..] == p;
    var i := CopyToken(p, 0, METHOD_STOPS, verb);
    if i >= |p| || p[i] != ' ' {
      return -1;
    }
    assert p[0..i] == p[..i];
    assert Parse(p) == ParseUri(p[..i], p[i + 1..]);
    r := ParseRest(p, i + 1, uri, version, p[..i]);
  }

  /** The URI and the version. */
  method ParseRest(p: string, start: nat, uri: array<char>, version: array<char>, ghost verb: string) returns (r: int)
    requires start <= |p| && uri.Length == URI_SIZE && version.Length == VERSION_SIZE && uri != version
    modifies uri, version
    ensures r == 0 || r == -1
    ensures r == 0 <==> ParseUri(verb, p[start..]).Some?
    ensures r == 0 ==>
      var req := ParseUri(verb, p[start..]).value;
      req.verb == verb && Holds(uri, req.uri) && Holds(version, req.version)
  {
    var i := CopyToken(p, start, URI_STOPS, uri);
    UriFound(verb, p, start, i);
    if i >= |p| || p[i] != ' ' {
      return -1;
    }
    var e := CopyToken(p, i + 1, VERSION_STOPS, version);
    VersionFound(p, i + 1, e);
    r := 0;
  }

  lemma UriFound(verb: string, p: string, start: nat, i: nat)
    requires start <= i <= |p| && i == start + TokenLength(p[start..], URI_STOPS, URI_SIZE - 1)
    ensures ParseUri(verb, p[start..]) ==
      if i < |p| && p[i] == ' ' then Some(Request(verb, p[start..i], Version(p[i + 1..]))) else None
  {
    var q := p[start..];
    assert p[start..i] == q[..i - start];
    assert i < |p| ==> p[i] == q[i - start] && p[i + 1..] == q[i - start + 1..];
  }

  lemma VersionFound(p: string, start: nat, e: nat)
    requires start <= e <= |p| && e == start + TokenLength(p[start..], VERSION_STOPS, VERSION_SIZE - 1)
    ensures Version(p[start..]) == p[start..e]
  {
  }

  // ------------------------------------------------------------------ printing and parsing

  ghost predicate Free(s: string, stops: set<char>) {
    forall k :: 0 <= k < |s| ==> s[k] !in stops
  }

  /** A request whose parts fit the grammar and the buffers. */
  ghost predicate Printable(r: Request) {
    && |r.verb| < METHOD_SIZE && Free(r.verb, METHOD_STOPS)
    && |r.uri| < URI_SIZE && Free(r.uri, URI_STOPS)
    && |r.version| < VERSION_SIZE && Free(r.version, VERSION_STOPS)
  }

  /** The request line without its line end. */
  function Line(r: Request): string {
    r.verb + ([' '] + (r.uri + ([' '] + r.version)))
  }

  lemma {:induction false} TokenLengthIs(p: string, stops: set<char>, room: nat, n: nat)
    requires n <= |p| && n <= room
    requires forall k :: 0 <= k < n ==> p[k] !in stops
    requires n == |p| || p[n] in stops || n == room
    ensures TokenLength(p, stops, room) == n
    decreases room
  {
    if n > 0 {
      TokenLengthIs(p[1..], stops, room - 1, n - 1);
    }
  }

  /** A token that fits, then a stop character, then anything. */
  lemma TokenSplits(t: string, c: char, rest: string, stops: set<char>, room: nat)
    requires |t| <= room && Free(t, stops) && c in stops
    ensures var p := t + ([c] + rest);
      TokenLength(p, stops, room) == |t| && p[..|t|] == t && p[|t|] == c && p[|t| + 1..] == rest
  {
    var p := t + ([c] + rest);
    TokenLengthIs(p, stops, room, |t|);
  }

  /** The parser splits m SP u SP rest at those two spaces, if m and u fit. */
  lemma ParseSplits(m: string, u: string, rest: string)
    requires |m| < METHOD_SIZE && Free(m, METHOD_STOPS)
    requires |u| < URI_SIZE && Free(u, URI_STOPS)
    ensures Parse(m + ([' '] + (u + ([' '] + rest)))) == Some(Request(m, u, Version(rest)))
  {
    TokenSplits(m, ' ', u + ([' '] + rest), METHOD_STOPS, METHOD_SIZE - 1);
    TokenSplits(u, ' ', rest, URI_STOPS, URI_SIZE - 1);
  }

  /** Printing and then parsing gives the request back, whatever follows the line. */
  lemma ParsePrint(r: Request, after: string)
    requires Printable(r)
    ensures Parse(Line(r) + ("\r\n" + after)) == Some(r)
  {
    var rest := r.version + (['\r'] + (['\n'] + after));
    assert Line(r) + ("\r\n" + after) == r.verb + ([' '] + (r.uri + ([' '] + rest)));
    ParseSplits(r.verb, r.uri, rest);
    TokenSplits(r.version, '\r', ['\n'] + after, VERSION_STOPS, VERSION_SIZE - 1);
  }

  /**
   Any success means the payload begins with the rendering of what was parsed.  Method and URI are
   whole tokens that fit; only the version may have been cut, at exactly fifteen characters.
   */
  lemma ParsedIsPrinted(p: string) returns (rest: string)
    requires Parse(p).Some?
    ensures Printable(Parse(p).value)
    ensures p == Line(Parse(p).value) + rest
    ensures Ended(Parse(p).value.version, rest)
  {
    var a := TokenLength(p, METHOD_STOPS, METHOD_SIZE - 1);
    var q := p[a + 1..];
    assert p == p[..a] + ([' '] + q);
    TokenIsFree(p, METHOD_STOPS, METHOD_SIZE - 1);
    var t := ParsedUri(p[..a], q);
    rest := VersionIs(t);
    Rejoin(p, p[..a], q, Parse(p).value.uri, t, Version(t), rest);
  }

  /** What follows a parsed version: a line end or nothing, unless the version filled its buffer. */
  ghost predicate Ended(version: string, rest: string) {
    rest == [] || rest[0] == '\r' || rest[0] == '\n' || |version| == VERSION_SIZE - 1
  }

  lemma TokenIsFree(p: string, stops: set<char>, room: nat)
    ensures var t := p[..TokenLength(p, stops, room)];
      |t| <= room && Free(t, stops)
  {
  }

  lemma ParsedUri(verb: string, q: string) returns (t: string)
    requires ParseUri(verb, q).Some?
    ensures var r := ParseUri(verb, q).value;
      && r == Request(verb, r.uri, Version(t))
      && q == r.uri + ([' '] + t)
      && |r.uri| < URI_SIZE && Free(r.uri, URI_STOPS)
  {
    var b := TokenLength(q, URI_STOPS, URI_SIZE - 1);
    TokenIsFree(q, URI_STOPS, URI_SIZE - 1);
    t := q[b + 1..];
    assert q == q[..b] + ([' '] + t);
  }

  lemma VersionIs(t: string) returns (rest: string)
    ensures t == Version(t) + rest && |Version(t)| < VERSION_SIZE && Free(Version(t), VERSION_STOPS)
    ensures Ended(Version(t), rest)
  {
    var c := TokenLength(t, VERSION_STOPS, VERSION_SIZE - 1);
    TokenIsFree(t, VERSION_STOPS, VERSION_SIZE - 1);
    rest := t[c..];
    assert c < |t| ==> rest[0] == t[c];
  }

  lemma Rejoin(p: string, verb: string, q: string, uri: string, t: string, version: string, rest: string)
    requires p == verb + ([' '] + q) && q == uri + ([' '] + t) && t == version + rest
    ensures p == Line(Request(verb, uri, version)) + rest
  {
  }

  /** The parser accepts exactly the payloads with a method and a URI that fit: longer ones are refused, never cut. */
  lemma ParseSucceedsIff(p: string)
    ensures Parse(p).Some? <==> exists m: string, u: string, rest: string :: Splits(p, m, u, rest)
  {
    if Parse(p).Some? {
      var after := ParsedIsPrinted(p);
      var r := Parse(p).value;
      LineSplits(p, r, after);
    }
    if m: string, u: string, rest: string :| Splits(p, m, u, rest) {
      ParseSplits(m, u, rest);
    }
  }

  lemma LineSplits(p: string, r: Request, after: string)
    requires Printable(r) && p == Line(r) + after
    ensures Splits(p, r.verb, r.uri, r.version + after)
  {
    assert p == r.verb + ([' '] + (r.uri + ([' '] + (r.version + after))));
  }

  ghost predicate Splits(p: string, m: string, u: string, rest: string) {
    && p == m + ([' '] + (u + ([' '] + rest)))
    && |m| < METHOD_SIZE && Free(m, METHOD_STOPS)
    && |u| < URI_SIZE && Free(u, URI_STOPS)
  }

  // ------------------------------------------------------------------ routing

  const METHOD_NULL := 0
  const METHOD_GET := 1
  const METHOD_POST := 2

  const ROUTE_ROOT := 1
  const ROUTE_ID := 2
  const ROUTE_ABOUT := 3
  const ROUTE_FAVICON := 4
  const ROUTE_INDEX := 5

  datatype Target = Target(route: int, parameter: int)

  datatype Entry = Entry(uri: string, target: Target)

  /** Every test of the routing code, in the order it makes them. */
  const TESTS: seq<Entry> := [
    Entry("/", Target(ROUTE_ROOT, 0)),
    Entry("/id=0", Target(ROUTE_ID, 0)),
    Entry("/id=1", Target(ROUTE_ID, 1)),
    Entry("/id=2", Target(ROUTE_ID, 2)),
    Entry("/id=3", Target(ROUTE_ID, 3)),
    Entry("/id=4", Target(ROUTE_ID, 4)),
    Entry("/about", Target(ROUTE_ABOUT, 0)),
    Entry("/favicon.ico", Target(ROUTE_FAVICON, 0)),
    Entry("/index.html", Target(ROUTE_INDEX, 0))
  ]

  const NO_TARGET := Target(0, 0)

  /** All tests are made, and a later match overrides an earlier one. */
  function LastMatch(uri: string, tests: seq<Entry>): Target {
    if tests == [] then NO_TARGET
    else
      var last := tests[|tests| - 1];
      if uri == last.uri then last.target else LastMatch(uri, tests[..|tests| - 1])
  }

  ghost predicate DistinctUris(tests: seq<Entry>) {
    forall i, j :: 0 <= i < j < |tests| ==> tests[i].uri != tests[j].uri
  }

  /** With distinct URIs the result is an exact-match lookup. */
  lemma {:induction false} LastMatchIsLookup(uri: string, tests: seq<Entry>)
    requires DistinctUris(tests)
    ensures forall e :: e in tests && e.uri == uri ==> LastMatch(uri, tests) == e.target
    ensures (forall e :: e in tests ==> e.uri != uri) ==> LastMatch(uri, tests) == NO_TARGET
  {
    if tests != [] {
      var n := |tests| - 1;
      var front := tests[..n];
      LastMatchIsLookup(uri, front);
      forall e | e in tests && e.uri == uri ensures LastMatch(uri, tests) == e.target {
        var i :| 0 <= i < |tests| && tests[i] == e;
        if i < n {
          assert front[i] == e;
        }
      }
      assert forall e :: e in front ==> e in tests;
    }
  }

  /** The order of the tests does not matter. */
  lemma RouteIsIndependentOfOrder(uri: string, tests: seq<Entry>, reordered: seq<Entry>)
    requires DistinctUris(tests) && DistinctUris(reordered)
    requires forall e :: e in tests <==> e in reordered
    ensures LastMatch(uri, tests) == LastMatch(uri, reordered)
  {
    LastMatchIsLookup(uri, tests);
    LastMatchIsLookup(uri, reordered);
    if e :| e in tests && e.uri == uri {
      assert e in reordered;
    }
  }

  lemma TestsAreDistinct()
    ensures DistinctUris(TESTS)
  {
    assert forall i :: 1 <= i <= 5 ==> |TESTS[i].uri| == 5;
    assert forall i, j :: 1 <= i < j <= 5 ==> TESTS[i].uri[4] != TESTS[j].uri[4];
  }

  /** For every URI: the target of the one test it equals, or none. */
  lemma RouteIff(uri: string, e: Entry)
    requires e in TESTS
    ensures uri == e.uri ==> LastMatch(uri, TESTS) == e.target
    ensures LastMatch(uri, TESTS) == NO_TARGET <==> forall t :: t in TESTS ==> t.uri != uri
  {
    TestsAreDistinct();
    TestsHaveTargets();
    LookupFailsIff(uri, TESTS);
  }

  lemma LookupFailsIff(uri: string, tests: seq<Entry>)
    requires DistinctUris(tests) && forall i :: 0 <= i < |tests| ==> tests[i].target != NO_TARGET
    ensures LastMatch(uri, tests) == NO_TARGET <==> forall t :: t in tests ==> t.uri != uri
    ensures forall t :: t in tests && t.uri == uri ==> LastMatch(uri, tests) == t.target
  {
    LastMatchIsLookup(uri, tests);
  }

  lemma TestsHaveTargets()
    ensures forall i :: 0 <= i < |TESTS| ==> TESTS[i].target != NO_TARGET
  {
  }

  /** The routes by name, with the numbers the pages are chosen by. */
  lemma Routes()
    ensures LastMatch("/", TESTS) == Target(1, 0)
    ensures LastMatch("/id=0", TESTS) == Target(2, 0) && LastMatch("/id=1", TESTS) == Target(2, 1)
    ensures LastMatch("/id=2", TESTS) == Target(2, 2) && LastMatch("/id=3", TESTS) == Target(2, 3)
    ensures LastMatch("/id=4", TESTS) == Target(2, 4)
    ensures LastMatch("/about", TESTS) == Target(3, 0)
    ensures LastMatch("/favicon.ico", TESTS) == Target(4, 0)
    ensures LastMatch("/index.html", TESTS) == Target(5, 0)
  {
    TestsAreDistinct();
    RouteAt(0);
    RouteAt(1);
    RouteAt(2);
    RouteAt(3);
    RouteAt(4);
    RouteAt(5);
    RouteAt(6);
    RouteAt(7);
    RouteAt(8);
  }

  lemma RouteAt(i: nat)
    requires i < |TESTS| && DistinctUris(TESTS)
    ensures LastMatch(TESTS[i].uri, TESTS) == TESTS[i].target
  {
    LastMatchIsLookup(TESTS[i].uri, TESTS);
    assert TESTS[i] in TESTS;
  }

  /** No other URI has a route. */
  lemma NoOtherRoute(uri: string)
    ensures LastMatch(uri, TESTS) == Target(0, 0) || uri == "/" || uri == "/about" || uri == "/favicon.ico"
      || uri == "/index.html" || uri == "/id=0" || uri == "/id=1" || uri == "/id=2" || uri == "/id=3" || uri == "/id=4"
  {
    TestsAreDistinct();
    LastMatchIsLookup(uri, TESTS);
  }

  /** Which methods are told apart. */
  lemma Methods(verb: string)
    ensures MethodId(verb) == 1 <==> verb == "GET"
    ensures MethodId(verb) == 2 <==> verb == "POST"
    ensures MethodId(verb) == 0 <==> verb != "GET" && verb != "POST"
  {
    assert "GET" != "POST";
  }

  /** The longest method, URI and version that are taken whole have 7, 255 and 15 characters. */
  lemma Limits(r: Request, after: string)
    requires Free(r.verb, {' '}) && Free(r.uri, {' ', '\r'}) && Free(r.version, {'\r', '\n'})
    requires |r.verb| <= 7 && |r.uri| <= 255 && |r.version| <= 15
    ensures Parse(Line(r) + ("\r\n" + after)) == Some(r)
  {
    ParsePrint(r, after);
  }

  /** Longer methods and URIs are refused, whatever follows; a longer version is cut at 15. */
  lemma OverLimits(m: string, u: string, v: string, rest: string)
    requires Free(m, {' '}) && Free(u, {' ', '\r'}) && Free(v, {'\r', '\n'})
    ensures |m| >= 8 ==> Parse(m + rest) == None
    ensures |m| <= 7 && |u| >= 256 ==> Parse(m + ([' '] + (u + rest))) == None
    ensures |m| <= 7 && |u| <= 255 && |v| >= 15 ==>
      Parse(m + ([' '] + (u + ([' '] + (v + rest))))) == Some(Request(m, u, v[..15]))
  {
    if |m| >= 8 {
      TokenLengthIs(m + rest, METHOD_STOPS, METHOD_SIZE - 1, 7);
    } else {
      if |u| >= 256 {
        TokenSplits(m, ' ', u + rest, METHOD_STOPS, METHOD_SIZE - 1);
        TokenLengthIs(u + rest, URI_STOPS, URI_SIZE - 1, 255);
      } else if |v| >= 15 {
        ParseSplits(m, u, v + rest);
        TokenLengthIs(v + rest, VERSION_STOPS, VERSION_SIZE - 1, 15);
        assert (v + rest)[..15] == v[..15];
      }
    }
  }

  /** What the request information holds after the first line was parsed. */
  datatype Info = Info(methodId: int, target: Target)

  function MethodId(verb: string): int {
    if verb == "POST" then METHOD_POST else if verb == "GET" then METHOD_GET else METHOD_NULL
  }

  /** One test of the routing code. */
  method Test(buf: array<char>, literal: string) returns (b: bool)
    requires Terminated(buf[..], 0) && NulFree(literal)
    ensures b <==> Text(buf[..], 0) == literal
  {
    StrncmpLiteral(buf[..], literal);
    var status := GramadoStrncmp(buf[..], literal + [NUL], |literal|);
    b := status == 0;
  }

  /** The tests on the URI, each overriding the ones before it. */
  method RouteUri(uri: array<char>) returns (t: Target)
    requires Terminated(uri[..], 0)
    ensures t == LastMatch(Text(uri[..], 0), TESTS)
  {
    t := NO_TARGET;
    t := TestEntry(uri, 0, t);
    t := TestEntry(uri, 1, t);
    t := TestEntry(uri, 2, t);
    t := TestEntry(uri, 3, t);
    t := TestEntry(uri, 4, t);
    t := TestEntry(uri, 5, t);
    t := TestEntry(uri, 6, t);
    t := TestEntry(uri, 7, t);
    t := TestEntry(uri, 8, t);
    assert TESTS[..9] == TESTS;
  }

  method TestEntry(uri: array<char>, i: nat, before: Target) returns (t: Target)
    requires Terminated(uri[..], 0) && i < |TESTS| && before == LastMatch(Text(uri[..], 0), TESTS[..i])
    ensures t == LastMatch(Text(uri[..], 0), TESTS[..i + 1])
  {
    t := before;
    LiteralsAreNulFree(i);
    var hit := Test(uri, TESTS[i].uri);
    assert TESTS[..i + 1][..i] == TESTS[..i];
    if hit {
      t := TESTS[i].target;
    }
  }

  lemma LiteralsAreNulFree(i: nat)
    requires i < |TESTS|
    ensures NulFree(TESTS[i].uri)
  {
  }

  /** A token as the string routines see it: up to its first NUL, if it has one. */
  function Seen(token: string): string {
    token[..StrEnd(token, 0)]
  }

  lemma SeenInBuffer(m: seq<char>, token: string)
    requires |token| < |m| && m[..|token|] == token && m[|token|] == NUL
    ensures Terminated(m, 0) && Text(m, 0) == Seen(token)
  {
    var z := StrEnd(token, 0);
    assert forall k :: 0 <= k < |token| ==> m[k] == m[..|token|][k];
    StrEndIs(m, 0, z);
  }

  /** __http_parse_first_line: on failure nothing is known of the request. */
  method ParseFirstLine(p: string, verb: array<char>, uri: array<char>, version: array<char>)
    returns (r: int, info: Info)
    requires verb.Length == METHOD_SIZE && uri.Length == URI_SIZE && version.Length == VERSION_SIZE
    requires verb != uri && uri != version && verb != version
    modifies verb, uri, version
    ensures r == 0 <==> Parse(p).Some?
    ensures r == 0 ==> info == Info(MethodId(Seen(Parse(p).value.verb)), LastMatch(Seen(Parse(p).value.uri), TESTS))
    ensures r != 0 ==> info == Info(METHOD_NULL, NO_TARGET)
  {
    info := Info(METHOD_NULL, NO_TARGET);
    r := ParseRequestLine(p, verb, uri, version);
    if r != 0 {
      return;
    }
    ghost var req := Parse(p).value;
    SeenInBuffer(verb[..], req.verb);
    SeenInBuffer(uri[..], req.uri);
    var methodId := METHOD_NULL;
    var get := Test(verb, "GET");
    if get {
      methodId := METHOD_GET;
    }
    var post := Test(verb, "POST");
    if post {
      methodId := METHOD_POST;
    }
    var target := RouteUri(uri);
    info := Info(methodId, target);
  }
}
