/**
 The response to a request for a page: a status line and headers glued together with strcat,
 a blank line, and the page itself, whose length is announced in the Content-Length
 header (section 6.2 of RFC 9112).
 */
module HttpResponse {
  import opened CString
  import opened Numerals
  import opened Sequences
  import Printing
  import HttpRequest

  const CR: char := '\r'

  const STATUS := "HTTP/1.1 200 OK"
  const SERVER := "Server: Microsoft-IIS/10.0"
  const CONTENT_TYPE := "Content-Type: text/html; charset=utf-8"
  const CONTENT_LENGTH := "Content-Length: "
  const CLOSE := "Connection: close"
  const KEEP_ALIVE := "Connection: keep-alive"

  function Connection(methodId: int): string {
    if methodId == HttpRequest.METHOD_POST then KEEP_ALIVE else CLOSE
  }

  /** The decimal text of a body length. */
  function LengthText(n: nat): string {
    Numeral(n, 10, 'a')
  }

  /** The lines before the blank one. */
  function HeaderLines(methodId: int, bodyLength: nat): seq<string> {
    [STATUS, SERVER, CONTENT_TYPE, CONTENT_LENGTH + LengthText(bodyLength), Connection(methodId)]
  }

  function Join(lines: seq<string>): string {
    if lines == [] then [] else lines[0] + "\r\n" + Join(lines[1..])
  }

  function Response(methodId: int, body: string): string {
    Join(HeaderLines(methodId, |body|)) + "\r\n" + body
  }

  // ------------------------------------------------------------------ what a client makes of it

  /** A blank line: two line ends in a row. */
  predicate BlankAt(s: string, k: nat) {
    k + 4 <= |s| && s[k..k + 4] == "\r\n\r\n"
  }

  ghost predicate FirstBlankAt(s: string, k: nat) {
    BlankAt(s, k) && forall j :: 0 <= j < k ==> !BlankAt(s, j)
  }

  ghost predicate IsLine(s: string) {
    |s| > 0 && forall k :: 0 <= k < |s| ==> s[k] != CR
  }

  ghost predicate AreLines(lines: seq<string>) {
    forall i :: 0 <= i < |lines| ==> IsLine(lines[i])
  }

  /** Between proper lines there is no blank one. */
  lemma {:induction false} NoBlankInside(lines: seq<string>, after: string, k: nat)
    requires AreLines(lines) && k + 2 < |Join(lines)|
    ensures !BlankAt(Join(lines) + after, k)
    decreases |lines|
  {
    var l, rest := lines[0], lines[1..];
    var s := Join(lines) + after;
    var s' := Join(rest) + after;
    assert s == l + "\r\n" + s';
    BlankChars(s, k);
    if k < |l| {
      assert s[k] == l[k];
    } else if k == |l| {
      assert rest != [] && IsLine(rest[0]);
      assert s[k + 2] == s'[0] == rest[0][0];
    } else if k == |l| + 1 {
      assert s[k] == '\n';
    } else {
      NoBlankInside(rest, after, k - |l| - 2);
      if k + 4 <= |s| {
        SliceBehind(l + "\r\n", s', k, k + 4);
      }
    }
  }

  lemma BlankChars(s: string, k: nat)
    ensures BlankAt(s, k) ==> s[k] == CR && s[k + 2] == CR
  {
    if BlankAt(s, k) {
      assert s[k] == s[k..k + 4][0] && s[k + 2] == s[k..k + 4][2];
    }
  }

  lemma {:induction false} JoinIsLong(lines: seq<string>)
    ensures lines != [] ==> |Join(lines)| >= 2 && Join(lines)[|Join(lines)| - 2..] == "\r\n"
    decreases |lines|
  {
    if lines != [] {
      JoinIsLong(lines[1..]);
      var j := Join(lines);
      if lines[1..] == [] {
        assert Join(lines[1..]) == [];
        assert j == lines[0] + "\r\n";
      } else {
        var j' := Join(lines[1..]);
        assert j[|j| - 2..] == j'[|j'| - 2..];
      }
    }
  }

  /** Splitting header lines and a body at the first blank line gives them back. */
  lemma SplitsAtBlankLine(lines: seq<string>, body: string)
    requires AreLines(lines) && lines != []
    ensures var s := Join(lines) + "\r\n" + body;
      var k := |Join(lines)| - 2;
      k >= 0 && FirstBlankAt(s, k) && s[..k + 2] == Join(lines) && s[k + 4..] == body
  {
    JoinIsLong(lines);
    var s := Join(lines) + "\r\n" + body;
    var k := |Join(lines)| - 2;
    assert s[k..k + 4] == Join(lines)[k..] + "\r\n";
    assert s == Join(lines) + ("\r\n" + body);
    forall j | 0 <= j < k ensures !BlankAt(s, j) {
      NoBlankInside(lines, "\r\n" + body, j);
    }
  }

  lemma HeadersAreLines(methodId: int, bodyLength: nat)
    ensures AreLines(HeaderLines(methodId, bodyLength))
  {
    Printing.NumeralIsText(bodyLength);
    assert IsLine(STATUS);
    assert IsLine(SERVER);
    assert IsLine(CONTENT_TYPE);
    assert IsLine(CONTENT_LENGTH + LengthText(bodyLength));
    assert IsLine(CLOSE) && IsLine(KEEP_ALIVE);
  }

  // ------------------------------------------------------------------ a client

  /** The position of the first pair CR LF from i on, or the end. */
  function LineEnd(s: string, i: nat): (k: nat)
    requires i <= |s|
    ensures i <= k <= |s|
    decreases |s| - i
  {
    if i + 2 > |s| then |s| else if s[i..i + 2] == "\r\n" then i else LineEnd(s, i + 1)
  }

  /** A text taken apart at its line ends. */
  function Lines(s: string): seq<string>
    decreases |s|
  {
    var k := LineEnd(s, 0);
    if k + 2 > |s| then [] else [s[..k]] + Lines(s[k + 2..])
  }

  lemma {:induction false} LineEndBehind(line: string, rest: string, i: nat)
    requires (forall k :: 0 <= k < |line| ==> line[k] != CR) && i <= |line|
    ensures LineEnd(line + "\r\n" + rest, i) == |line|
    decreases |line| - i
  {
    var s := line + "\r\n" + rest;
    if i < |line| {
      assert s[i..i + 2][0] == line[i];
      LineEndBehind(line, rest, i + 1);
    } else {
      assert s[i..i + 2] == "\r\n";
    }
  }

  /** Joining lines and taking them apart again gives them back. */
  lemma {:induction false} LinesOfJoin(lines: seq<string>)
    requires AreLines(lines)
    ensures Lines(Join(lines)) == lines
    decreases |lines|
  {
    if lines != [] {
      var l, rest := lines[0], Join(lines[1..]);
      assert IsLine(l);
      LineEndBehind(l, rest, 0);
      assert (l + "\r\n" + rest)[..|l|] == l && (l + "\r\n" + rest)[|l| + 2..] == rest;
      LinesOfJoin(lines[1..]);
    }
  }

  /** The position of the first blank line from i on, or the end. */
  function BlankFrom(s: string, i: nat): (k: nat)
    requires i <= |s|
    ensures i <= k <= |s|
    decreases |s| - i
  {
    if i == |s| || BlankAt(s, i) then i else BlankFrom(s, i + 1)
  }

  lemma {:induction false} BlankFromIs(s: string, i: nat, k: nat)
    requires i <= k && FirstBlankAt(s, k)
    ensures BlankFrom(s, i) == k
    decreases k - i
  {
    if i < k {
      BlankFromIs(s, i + 1, k);
    }
  }

  /** What stands behind a name in the first header line that starts with it. */
  function HeaderValue(lines: seq<string>, name: string): Option<string> {
    if lines == [] then None
    else if name <= lines[0] then Some(lines[0][|name|..])
    else HeaderValue(lines[1..], name)
  }

  datatype Received = Received(status: string, server: Option<string>, length: Option<string>, connection: Option<string>,
                               contentType: Option<string>, body: string)

  /** What a client makes of a text: header lines up to the first blank line, what it looks up in them, the rest. */
  function Receive(s: string): Option<Received> {
    var k := BlankFrom(s, 0);
    if k + 4 > |s| then None
    else
      var lines := Lines(s[..k + 2]);
      if lines == [] then None
      else Some(Received(lines[0], HeaderValue(lines, "Server: "), HeaderValue(lines, "Content-Length: "), HeaderValue(lines, "Connection: "),
                         HeaderValue(lines, "Content-Type: "), s[k + 4..]))
  }

  lemma OtherLine(line: string, rest: seq<string>, name: string)
    requires !(name <= line)
    ensures HeaderValue([line] + rest, name) == HeaderValue(rest, name)
  {
    assert ([line] + rest)[1..] == rest;
  }

  lemma NamedLine(name: string, value: string, rest: seq<string>)
    ensures HeaderValue([name + value] + rest, name) == Some(value)
  {
    assert (name + value)[|name|..] == value;
  }

  lemma DiffersAt(name: string, line: string, i: nat)
    requires i < |name| && i < |line| && name[i] != line[i]
    ensures !(name <= line)
  {
  }

  /** The header lines one behind the other. */
  lemma HeaderChain(methodId: int, bodyLength: nat)
    ensures HeaderLines(methodId, bodyLength) ==
      [STATUS] + ([SERVER] + ([CONTENT_TYPE] + ([CONTENT_LENGTH + LengthText(bodyLength)] + [Connection(methodId)])))
  {
  }

  lemma LengthIsAnnounced(methodId: int, bodyLength: nat)
    ensures HeaderValue(HeaderLines(methodId, bodyLength), "Content-Length: ") == Some(LengthText(bodyLength))
  {
    var name := "Content-Length: ";
    var last := [Connection(methodId)];
    var tail := [name + LengthText(bodyLength)] + last;
    HeaderChain(methodId, bodyLength);
    DiffersAt(name, STATUS, 0);
    DiffersAt(name, SERVER, 0);
    DiffersAt(name, CONTENT_TYPE, 8);
    OtherLine(STATUS, [SERVER] + ([CONTENT_TYPE] + tail), name);
    OtherLine(SERVER, [CONTENT_TYPE] + tail, name);
    OtherLine(CONTENT_TYPE, tail, name);
    NamedLine(name, LengthText(bodyLength), last);
  }

  lemma TypeIsAnnounced(methodId: int, bodyLength: nat)
    ensures HeaderValue(HeaderLines(methodId, bodyLength), "Content-Type: ") == Some("text/html; charset=utf-8")
  {
    var name := "Content-Type: ";
    var tail := [CONTENT_LENGTH + LengthText(bodyLength)] + [Connection(methodId)];
    HeaderChain(methodId, bodyLength);
    DiffersAt(name, STATUS, 0);
    DiffersAt(name, SERVER, 0);
    OtherLine(STATUS, [SERVER] + ([CONTENT_TYPE] + tail), name);
    OtherLine(SERVER, [CONTENT_TYPE] + tail, name);
    assert CONTENT_TYPE == name + "text/html; charset=utf-8";
    NamedLine(name, "text/html; charset=utf-8", tail);
  }

  lemma ServerIsNamed(methodId: int, bodyLength: nat)
    ensures HeaderValue(HeaderLines(methodId, bodyLength), "Server: ") == Some("Microsoft-IIS/10.0")
  {
    var name := "Server: ";
    var tail := [CONTENT_TYPE] + ([CONTENT_LENGTH + LengthText(bodyLength)] + [Connection(methodId)]);
    HeaderChain(methodId, bodyLength);
    DiffersAt(name, STATUS, 0);
    OtherLine(STATUS, [SERVER] + tail, name);
    assert SERVER == name + "Microsoft-IIS/10.0";
    NamedLine(name, "Microsoft-IIS/10.0", tail);
  }

  lemma ConnectionIsAnnounced(methodId: int, bodyLength: nat)
    ensures HeaderValue(HeaderLines(methodId, bodyLength), "Connection: ") ==
      Some(if methodId == 2 then "keep-alive" else "close")
  {
    var name, value := "Connection: ", if methodId == 2 then "keep-alive" else "close";
    var length := CONTENT_LENGTH + LengthText(bodyLength);
    HeaderChain(methodId, bodyLength);
    assert Connection(methodId) == name + value;
    DiffersAt(name, STATUS, 0);
    DiffersAt(name, SERVER, 0);
    assert CONTENT_TYPE[3] == 't' && name[3] == 'n' && length[3] == CONTENT_LENGTH[3] == 't';
    DiffersAt(name, CONTENT_TYPE, 3);
    DiffersAt(name, length, 3);
    OtherLine(STATUS, [SERVER] + ([CONTENT_TYPE] + ([length] + [name + value])), name);
    OtherLine(SERVER, [CONTENT_TYPE] + ([length] + [name + value]), name);
    OtherLine(CONTENT_TYPE, [length] + [name + value], name);
    OtherLine(length, [name + value], name);
    assert [name + value] == [name + value] + [];
    NamedLine(name, value, []);
  }

  /**
   A client that reads the response text alone gets the status line, the body, a Content-Length whose digits are
   those of the length of the body, and the connection kept alive for POST only.
   */
  lemma ClientRecoversBody(methodId: int, body: string)
    ensures Receive(Response(methodId, body)) ==
      Some(Received("HTTP/1.1 200 OK", Some("Microsoft-IIS/10.0"), Some(LengthText(|body|)),
                    Some(if methodId == 2 then "keep-alive" else "close"), Some("text/html; charset=utf-8"), body))
    ensures Value(LengthText(|body|), 10, 'a') == |body|
  {
    var s, lines := Response(methodId, body), HeaderLines(methodId, |body|);
    HeadersAreLines(methodId, |body|);
    SplitsAtBlankLine(lines, body);
    BlankFromIs(s, 0, |Join(lines)| - 2);
    LinesOfJoin(lines);
    LengthIsAnnounced(methodId, |body|);
    TypeIsAnnounced(methodId, |body|);
    ServerIsNamed(methodId, |body|);
    ConnectionIsAnnounced(methodId, |body|);
    NumeralValue(|body|, 10, 'a');
  }

  // ------------------------------------------------------------------ the builder

  /** The length in decimal: digits into tmp from the right, then flipped into the string. */
  method LengthToDecimal(bodyLength: nat, str: array<char>)
    requires bodyLength < 10_000_000 && str.Length == 8
    modifies str
    ensures Terminated(str[..], 0) && Text(str[..], 0) == LengthText(bodyLength)
  {
    SevenDigits(bodyLength);
    var tmp := new char[8];
    var i := LengthDigits(bodyLength, tmp);
    Flip(tmp, i, str, LengthText(bodyLength));
    Printing.NumeralIsText(bodyLength);
    TextInFront(str[..], LengthText(bodyLength));
  }

  method LengthDigits(bodyLength: nat, tmp: array<char>) returns (i: nat)
    requires tmp.Length == 8 && |LengthText(bodyLength)| <= 7
    modifies tmp
    ensures i == |LengthText(bodyLength)| && Printing.Backwards(tmp[..], 0, i, LengthText(bodyLength))
  {
    ghost var n := LengthText(bodyLength);
    i := 0;
    var v := bodyLength;
    if v == 0 {
      tmp[i] := '0';
      i := i + 1;
    } else {
      ghost var tail: string := [];
      while v > 0 && i < 8
        invariant 0 <= v && 0 <= i <= |n|
        invariant n == Printing.Pending(v, 10, 'a') + tail
        invariant Printing.Backwards(tmp[..], 0, i, tail)
      {
        Printing.DigitMoves(n, v, 10, 'a', tail);
        var c := ('0' as int + v % 10) as char;
        Printing.BackwardsGrows(tmp[..], 0, i, tail, c);
        ghost var m := tmp[..];
        tail := [c] + tail;
        tmp[i] := c;
        assert tmp[..] == m[i := c];
        i := i + 1;
        v := v / 10;
      }
    }
  }

  method Flip(tmp: array<char>, count: nat, str: array<char>, ghost n: string)
    requires tmp != str && count <= tmp.Length && count < str.Length && Printing.Backwards(tmp[..], 0, count, n)
    modifies str
    ensures str[..count] == n && str[count] == NUL
  {
    var i, j := count, 0;
    while i > 0
      invariant 0 <= i && i + j == count
      invariant forall k :: 0 <= k < j ==> str[k] == n[k]
    {
      i := i - 1;
      assert tmp[i] == tmp[..][i] == n[j];
      str[j] := tmp[i];
      j := j + 1;
    }
    str[j] := NUL;
  }

  lemma SevenDigits(n: nat)
    requires n < 10_000_000
    ensures |LengthText(n)| <= 7
  {
    assert Pow(10, 4) == 10000;
    assert Pow(10, 7) == 10_000_000 by {
      assert Pow(10, 6) == 100 * Pow(10, 4);
    }
    NumeralLength(n, 10, 'a', 7);
  }

  /** The response in the order the pieces are appended. */
  lemma ResponsePieces(methodId: int, body: string)
    ensures Response(methodId, body) ==
      (STATUS + "\r\n") + (SERVER + "\r\n") + (CONTENT_TYPE + "\r\n") + CONTENT_LENGTH + LengthText(|body|)
        + "\r\n" + (Connection(methodId) + "\r\n") + "\r\n" + body
  {
    var c := Connection(methodId);
    FiveLines(STATUS, SERVER, CONTENT_TYPE, CONTENT_LENGTH + LengthText(|body|), c);
    Flatten(STATUS + "\r\n", SERVER + "\r\n", CONTENT_TYPE + "\r\n", CONTENT_LENGTH, LengthText(|body|), "\r\n",
            c + "\r\n", body);
  }

  lemma FiveLines(a: string, b: string, c: string, d: string, e: string)
    ensures Join([a, b, c, d, e]) == (a + "\r\n") + ((b + "\r\n") + ((c + "\r\n") + ((d + "\r\n") + (e + "\r\n"))))
  {
    JoinFirst(a, [b, c, d, e]);
    JoinFirst(b, [c, d, e]);
    JoinFirst(c, [d, e]);
    JoinFirst(d, [e]);
    JoinFirst(e, []);
    assert [a, b, c, d, e] == [a] + [b, c, d, e];
    assert [b, c, d, e] == [b] + [c, d, e];
    assert [c, d, e] == [c] + [d, e];
    assert [d, e] == [d] + [e];
    assert [e] == [e] + [];
  }

  lemma JoinFirst(a: string, rest: seq<string>)
    ensures Join([a] + rest) == (a + "\r\n") + Join(rest)
  {
    assert ([a] + rest)[1..] == rest;
  }

  lemma Flatten(a: string, b: string, c: string, name: string, digits: string, crlf: string, e: string, body: string)
    ensures a + (b + (c + (((name + digits) + crlf) + e))) + crlf + body ==
      a + b + c + name + digits + crlf + e + crlf + body
  {
  }

  /** The view builder: clear the buffer, append piece after piece, measure. */
  method BuildView(methodId: int, body: string, resp: array<char>) returns (size: nat)
    requires |body| < 10_000_000 && NulFree(body) && |Response(methodId, body)| < resp.Length
    modifies resp
    ensures Terminated(resp[..], 0)
    ensures Text(resp[..], 0) == Response(methodId, body) && size == |Response(methodId, body)|
  {
    var lengthStr := new char[8];
    LengthToDecimal(|body|, lengthStr);
    var digits := Strlen(lengthStr);
    assert lengthStr[..digits] == LengthText(|body|);
    Printing.NumeralIsText(|body|);
    ResponsePieces(methodId, body);
    size := Assemble(resp, STATUS + "\r\n", SERVER + "\r\n", CONTENT_TYPE + "\r\n", CONTENT_LENGTH,
                     lengthStr[..digits], "\r\n", Connection(methodId) + "\r\n", body);
  }

  /** The strcat chain. */
  method Assemble(resp: array<char>, status: string, server: string, contentType: string, lengthName: string,
                  digits: string, crlf: string, connection: string, body: string) returns (size: nat)
    requires NulFree(status) && NulFree(server) && NulFree(contentType) && NulFree(lengthName)
    requires NulFree(digits) && NulFree(crlf) && NulFree(connection) && NulFree(body)
    requires |status + server + contentType + lengthName + digits + crlf + connection + crlf + body| < resp.Length
    modifies resp
    ensures Terminated(resp[..], 0)
    ensures Text(resp[..], 0) == status + server + contentType + lengthName + digits + crlf + connection + crlf + body
    ensures size == |Text(resp[..], 0)|
  {
    Clear(resp);
    Strcat(resp, status);
    assert Text(resp[..], 0) == status;
    Strcat(resp, server);
    Strcat(resp, contentType);
    Strcat(resp, lengthName);
    Strcat(resp, digits);
    Strcat(resp, crlf);
    Strcat(resp, connection);
    Strcat(resp, crlf);
    Strcat(resp, body);
    size := Strlen(resp);
  }

  method Clear(a: array<char>)
    requires a.Length > 0
    modifies a
    ensures Terminated(a[..], 0) && Text(a[..], 0) == []
  {
    var i := 0;
    while i < a.Length
      invariant 0 <= i <= a.Length
      invariant forall k :: 0 <= k < i ==> a[k] == NUL
    {
      a[i] := NUL;
      i := i + 1;
    }
    StrEndIs(a[..], 0, 0);
  }
}
