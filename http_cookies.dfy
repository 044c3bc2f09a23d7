/** The session-cookie HTTP server
    (assignment-3-http-cookies-and-caching/http_cookies.py): the header parser and the
    response a request gets. The socket, the 1024-byte read and the UTF-8 decoding are
    left to the caller, and the new session id (`secrets.token_hex`) is a parameter. */
module HttpCookies {
  import opened Wrappers
  import opened Text

  const CRLF: string := "\r\n"

  /** The exceptions `handle_request` can raise on a request: the `ValueError` of
      unpacking a header line without `": "`, and the `IndexError` of a cookie header
      that names `session_id` but has no `=`. */
  datatype RequestError = MalformedHeader(line: string) | NoSessionValue(cookies: string)

  // ---------------------------------------------------------------------------
  // parse_headers

  /** A header line the parser accepts: non-empty, with a `": "` to split at. */
  predicate IsHeaderLine(line: string)
  {
    line != "" && SplitOnce(line, ": ").Some?
  }

  /** The loop of `parse_headers` over the lines after the request line, as a fold:
      stop at the first empty line, fail on a line without `": "`, and otherwise store
      the value under the lower-cased name, replacing an earlier one. */
  function ParseLines(lines: seq<string>, acc: map<string, string>): Result<map<string, string>, RequestError>
    decreases |lines|
  {
    if |lines| == 0 || lines[0] == "" then Success(acc)
    else match SplitOnce(lines[0], ": ")
      case None => Failure(MalformedHeader(lines[0]))
      case Some(kv) => ParseLines(lines[1..], acc[Lower(kv.0) := kv.1])
  }

  /** `parse_headers(request)`. */
  function ParseHeaders(request: string): Result<map<string, string>, RequestError>
  {
    ParseLines(Split(request, CRLF)[1..], map[])
  }

  /** `parse_headers` as the source runs it: a loop over the lines with `break` at the
      empty line. */
  method ParseHeadersLoop(request: string) returns (r: Result<map<string, string>, RequestError>)
    ensures r == ParseHeaders(request)
  {
    var lines := Split(request, CRLF);
    var headers: map<string, string> := map[];
    var i := 1;
    while i < |lines|
      invariant 1 <= i <= |lines|
      invariant ParseLines(lines[i..], headers) == ParseHeaders(request)
    {
      var line := lines[i];
      if line == "" {
        break;
      }
      var kv := SplitOnce(line, ": ");
      if kv.None? {
        return Failure(MalformedHeader(line));
      }
      assert lines[i..][1..] == lines[i + 1..];
      headers := headers[Lower(kv.value.0) := kv.value.1];
      i := i + 1;
    }
    return Success(headers);
  }

  /** The request line plays no part: the result depends only on what follows the
      first line break. */
  lemma RequestLineIgnored(requestLine: string, rest: string)
    requires '\r' !in requestLine
    ensures ParseHeaders(requestLine + CRLF + rest) == ParseLines(Split(rest, CRLF), map[])
  {
    SplitAfterPart(requestLine, rest, CRLF);
    assert ([requestLine] + Split(rest, CRLF))[1..] == Split(rest, CRLF);
  }

  /** Nothing after the first empty line is looked at. */
  lemma {:induction false} StopsAtBlankLine(lines: seq<string>, more: seq<string>, acc: map<string, string>)
    requires forall i :: 0 <= i < |lines| ==> lines[i] != ""
    ensures ParseLines(lines + [""] + more, acc) == ParseLines(lines, acc)
    decreases |lines|
  {
    if |lines| > 0 {
      assert (lines + [""] + more)[0] == lines[0];
      assert (lines + [""] + more)[1..] == lines[1..] + [""] + more;
      var kv := SplitOnce(lines[0], ": ");
      if kv.Some? {
        StopsAtBlankLine(lines[1..], more, acc[Lower(kv.value.0) := kv.value.1]);
      }
    } else {
      assert (lines + [""] + more)[0] == "";
    }
  }

  /** Line `k` is the first malformed line before any empty line. */
  predicate FirstMalformedAt(lines: seq<string>, k: int)
  {
    0 <= k < |lines| && lines[k] != "" && SplitOnce(lines[k], ": ").None? &&
    forall j :: 0 <= j < k ==> IsHeaderLine(lines[j])
  }

  lemma FirstMalformedInTail(lines: seq<string>, k: int)
    requires |lines| > 0 && IsHeaderLine(lines[0])
    ensures FirstMalformedAt(lines, k + 1) <==> FirstMalformedAt(lines[1..], k)
  {
    if FirstMalformedAt(lines[1..], k) {
      forall j | 0 <= j < k + 1 ensures IsHeaderLine(lines[j]) {
        if j > 0 {
          assert lines[j] == lines[1..][j - 1];
        }
      }
    }
    if FirstMalformedAt(lines, k + 1) {
      forall j | 0 <= j < k ensures IsHeaderLine(lines[1..][j]) {
        assert lines[1..][j] == lines[j + 1];
      }
    }
  }

  /** Parsing fails exactly when, before any empty line, some line has no `": "`; the
      error names that line. */
  lemma {:induction false} ParseFailsOnMalformedLine(lines: seq<string>, acc: map<string, string>)
    ensures ParseLines(lines, acc).Failure? <==> exists k :: FirstMalformedAt(lines, k)
    ensures forall k :: FirstMalformedAt(lines, k) ==> ParseLines(lines, acc) == Failure(MalformedHeader(lines[k]))
    decreases |lines|
  {
    if |lines| == 0 {
    } else if lines[0] == "" {
      assert !IsHeaderLine(lines[0]);
    } else {
      var kv := SplitOnce(lines[0], ": ");
      if kv.None? {
        assert FirstMalformedAt(lines, 0);
        forall k | FirstMalformedAt(lines, k) ensures k == 0 {
          assert k > 0 ==> IsHeaderLine(lines[0]);
        }
      } else {
        assert IsHeaderLine(lines[0]);
        assert !FirstMalformedAt(lines, 0);
        ParseFailsOnMalformedLine(lines[1..], acc[Lower(kv.value.0) := kv.value.1]);
        forall k ensures FirstMalformedAt(lines, k + 1) <==> FirstMalformedAt(lines[1..], k) {
          FirstMalformedInTail(lines, k);
        }
        if exists k :: FirstMalformedAt(lines[1..], k) {
          var k :| FirstMalformedAt(lines[1..], k);
          assert FirstMalformedAt(lines, k + 1);
        }
        if exists k :: FirstMalformedAt(lines, k) {
          var k :| FirstMalformedAt(lines, k);
          assert FirstMalformedAt(lines[1..], k - 1);
        }
        forall k | FirstMalformedAt(lines, k) ensures ParseLines(lines, acc) == Failure(MalformedHeader(lines[k])) {
          assert FirstMalformedAt(lines[1..], k - 1);
          assert lines[1..][k - 1] == lines[k];
        }
      }
    }
  }

  /** Every stored name is lower case. */
  lemma {:induction false} KeysLowerCase(lines: seq<string>, acc: map<string, string>)
    requires forall k :: k in acc ==> IsLowerCase(k)
    requires ParseLines(lines, acc).Success?
    ensures forall k :: k in ParseLines(lines, acc).value ==> IsLowerCase(k)
    decreases |lines|
  {
    if |lines| > 0 && lines[0] != "" {
      var kv := SplitOnce(lines[0], ": ");
      LowerIsLowerCase(kv.value.0);
      KeysLowerCase(lines[1..], acc[Lower(kv.value.0) := kv.value.1]);
    }
  }

  /** A header line added at the end of the block sets its name, lower-cased, to its
      value verbatim, whatever came before: a later duplicate wins. */
  lemma {:induction false} LaterLineWins(lines: seq<string>, line: string, acc: map<string, string>)
    requires forall i :: 0 <= i < |lines| ==> IsHeaderLine(lines[i])
    requires IsHeaderLine(line)
    ensures var kv := SplitOnce(line, ": ").value;
            ParseLines(lines + [line], acc).Success? && ParseLines(lines, acc).Success? &&
            ParseLines(lines + [line], acc).value == ParseLines(lines, acc).value[Lower(kv.0) := kv.1]
    decreases |lines|
  {
    if |lines| == 0 {
      assert [line][1..] == [];
      assert lines + [line] == [line];
    } else {
      var kv := SplitOnce(lines[0], ": ");
      assert (lines + [line])[0] == lines[0];
      assert (lines + [line])[1..] == lines[1..] + [line];
      LaterLineWins(lines[1..], line, acc[Lower(kv.value.0) := kv.value.1]);
    }
  }

  /** `line.split(": ", 1)`: the name is what precedes the first `": "`, and the value
      keeps any later `": "`. */
  lemma HeaderSplitsAtFirstSeparator(name: string, value: string)
    requires forall i: nat :: !OccursAt(name + ":", ": ", i)
    ensures SplitOnce(name + ": " + value, ": ") == Some((name, value))
  {
    var s := name + ": " + value;
    assert s[|name|..|name| + 2] == ": ";
    forall j: nat | j < |name| ensures !OccursAt(s, ": ", j) {
      if OccursAt(s, ": ", j) {
        assert (name + ":")[j..j + 2] == s[j..j + 2];
        assert OccursAt(name + ":", ": ", j);
      }
    }
    SplitOnceAt(s, ": ", |name|);
    assert s[..|name|] == name && s[|name| + 2..] == value;
  }

  // ---------------------------------------------------------------------------
  // handle_request

  /** The `Cookie` header, or `""` when there is none. */
  function CookieHeader(headers: map<string, string>): string
  {
    if "cookie" in headers then headers["cookie"] else ""
  }

  /** The header lines and body `handle_request` prepares, before rendering. The
      header lines exclude the `"\r\n"` element the source appends to its list. */
  datatype Response = Response(sessionId: string, isNew: bool, headerLines: seq<string>, body: string)

  function ContentLength(body: string): string
  {
    "Content-Length: " + NatToDecimal(|body|)
  }

  /** A string whose first character differs from that of `p` does not start with it. */
  lemma FirstCharDiffers(s: string, p: string)
    requires |s| > 0 && |p| > 0 && s[0] != p[0]
    ensures !StartsWith(s, p)
  {
    if |p| <= |s| {
      assert s[..|p|][0] == s[0];
    }
  }

  /** The branch for a request without a session: a fresh id, announced in `Set-Cookie`. */
  function NewSession(newSessionId: string): (r: Response)
    ensures r.isNew && r.sessionId == newSessionId
    ensures "Set-Cookie: session_id=" + newSessionId in r.headerLines
    ensures ContentLength(r.body) in r.headerLines
    ensures Contains(r.body, newSessionId)
  {
    var body := "Welcome, new user! Your session ID is " + newSessionId;
    assert OccursAt(body, newSessionId, |body| - |newSessionId|);
    Response(newSessionId, true,
      ["HTTP/1.1 200 OK", "Content-Type: text/html", "Set-Cookie: session_id=" + newSessionId,
       "Connection: close", ContentLength(body)],
      body)
  }

  /** The branch for a returning user: the id is echoed in the body, no cookie is set. */
  function ReturningSession(id: string): (r: Response)
    ensures !r.isNew && r.sessionId == id
    ensures forall i :: 0 <= i < |r.headerLines| ==> !StartsWith(r.headerLines[i], "Set-Cookie")
    ensures ContentLength(r.body) in r.headerLines
    ensures Contains(r.body, id)
  {
    var body := "Welcome back, user with session ID " + id + "!";
    assert OccursAt(body, id, |body| - |id| - 1) by {
      assert body[|body| - |id| - 1..|body| - 1] == id;
    }
    var lines := ["HTTP/1.1 200 OK", "Content-Type: text/html", "Connection: close", ContentLength(body)];
    FirstCharDiffers(lines[0], "Set-Cookie");
    FirstCharDiffers(lines[1], "Set-Cookie");
    FirstCharDiffers(lines[2], "Set-Cookie");
    FirstCharDiffers(lines[3], "Set-Cookie");
    Response(id, false, lines, body)
  }

  /** The two branches of `handle_request` on the cookie header: a new session (with
      `Set-Cookie`) when `session_id` does not occur in it, the text between its first
      and second `=` otherwise. */
  function Respond(cookies: string, newSessionId: string): (r: Result<Response, RequestError>)
    ensures !Contains(cookies, "session_id") ==> r == Success(NewSession(newSessionId))
    ensures Contains(cookies, "session_id") ==>
              (r.Success? <==> |Split(cookies, "=")| >= 2) &&
              (r.Success? ==> r.value == ReturningSession(Split(cookies, "=")[1]))
    ensures r.Failure? ==> r.error == NoSessionValue(cookies)
  {
    if !Contains(cookies, "session_id") then Success(NewSession(newSessionId))
    else
      var parts := Split(cookies, "=");
      if |parts| < 2 then Failure(NoSessionValue(cookies))
      else Success(ReturningSession(parts[1]))
  }

  /** `handle_request` with the corrected rendering: parse, choose the branch, render. */
  function HandleRequest(request: string, newSessionId: string): (r: Result<string, RequestError>)
    ensures ParseHeaders(request).Failure? ==> r == Failure(ParseHeaders(request).error)
    ensures ParseHeaders(request).Success? ==>
              var c := Respond(CookieHeader(ParseHeaders(request).value), newSessionId);
              (r.Success? <==> c.Success?) && (r.Failure? ==> r.error == c.error)
  {
    match ParseHeaders(request)
    case Failure(e) => Failure(e)
    case Success(headers) =>
      match Respond(CookieHeader(headers), newSessionId)
      case Failure(e) => Failure(e)
      case Success(resp) => Success(Render(resp.headerLines, resp.body))
  }

  // ---------------------------------------------------------------------------
  // Rendering the response

  /** The response as the source builds it: `"\r\n".join(response_headers) + "\r\n" +
      response_body`, where `response_headers` ends with the element `"\r\n"`. */
  function RenderAsWritten(headerLines: seq<string>, body: string): string
  {
    Join(headerLines + [CRLF], CRLF) + CRLF + body
  }

  /** The response as HTTP frames it: the header lines, an empty line, the body. */
  function Render(headerLines: seq<string>, body: string): string
  {
    Join(headerLines, CRLF) + CRLF + CRLF + body
  }

  /** How a client splits a response: the head before the first empty line, and the
      body after it. */
  function HeadAndBody(response: string): Option<(string, string)>
  {
    SplitOnce(response, CRLF + CRLF)
  }

  /** Header lines that can be framed: non-empty and without a carriage return. */
  predicate Framable(lines: seq<string>)
  {
    |lines| >= 1 && forall i :: 0 <= i < |lines| ==> lines[i] != "" && '\r' !in lines[i]
  }

  lemma JoinStartsWithFirst(lines: seq<string>, sep: string)
    requires |lines| >= 1 && lines[0] != ""
    ensures |Join(lines, sep)| > 0 && Join(lines, sep)[0] == lines[0][0]
  {
  }

  /** No empty line starts inside a block of framable header lines, whatever follows it:
      every carriage return in the block is followed by a line feed and a non-empty line. */
  lemma {:induction false} NoBlankLineInHead(lines: seq<string>, rest: string)
    requires Framable(lines)
    ensures forall i: nat :: i < |Join(lines, CRLF)| ==> !OccursAt(Join(lines, CRLF) + rest, CRLF + CRLF, i)
    decreases |lines|
  {
    var head := Join(lines, CRLF);
    var msg := head + rest;
    var l := lines[0];
    if |lines| == 1 {
      forall i: nat | i < |head| ensures !OccursAt(msg, CRLF + CRLF, i) {
        assert msg[i] == l[i];
      }
    } else {
      var tail := Join(lines[1..], CRLF);
      JoinCons(l, lines[1..], CRLF);
      assert lines == [l] + lines[1..];
      assert head == l + CRLF + tail;
      assert msg == l + CRLF + (tail + rest);
      JoinStartsWithFirst(lines[1..], CRLF);
      NoBlankLineInHead(lines[1..], rest);
      forall i: nat | i < |head| ensures !OccursAt(msg, CRLF + CRLF, i) {
        if i < |l| {
          assert msg[i] == l[i];
        } else if i == |l| {
          assert msg[i + 2] == tail[0];
        } else if i == |l| + 1 {
          assert msg[i] == '\n';
        } else {
          var j := i - |l| - 2;
          assert msg[i..] == (tail + rest)[j..];
          assert !OccursAt(tail + rest, CRLF + CRLF, j);
        }
      }
    }
  }

  /** With framable header lines, a client finds exactly the header block and the body. */
  lemma RenderFrames(headerLines: seq<string>, body: string)
    requires Framable(headerLines)
    ensures HeadAndBody(Render(headerLines, body)) == Some((Join(headerLines, CRLF), body))
  {
    var head := Join(headerLines, CRLF);
    var msg := Render(headerLines, body);
    assert msg == head + (CRLF + CRLF + body);
    NoBlankLineInHead(headerLines, CRLF + CRLF + body);
    assert msg[|head|..|head| + 4] == CRLF + CRLF;
    SplitOnceAt(msg, CRLF + CRLF, |head|);
    assert msg[..|head|] == head && msg[|head| + 4..] == body;
  }

  /** The response as written: after the first empty line the client finds an extra
      line break in front of the body, two characters more than Content-Length. */
  lemma RenderAsWrittenShiftsBody(headerLines: seq<string>, body: string)
    requires Framable(headerLines)
    ensures RenderAsWritten(headerLines, body) == Render(headerLines, CRLF + body)
    ensures HeadAndBody(RenderAsWritten(headerLines, body)) == Some((Join(headerLines, CRLF), CRLF + body))
  {
    JoinAppend(headerLines, CRLF, CRLF);
    RenderFrames(headerLines, CRLF + body);
  }

  /** `handle_request` as written, with the extra line break before the body. */
  function HandleRequestAsWritten(request: string, newSessionId: string): (r: Result<string, RequestError>)
    ensures r.Failure? <==> HandleRequest(request, newSessionId).Failure?
    ensures r.Failure? ==> r == HandleRequest(request, newSessionId)
    ensures ParseHeaders(request).Success? ==>
              var c := Respond(CookieHeader(ParseHeaders(request).value), newSessionId);
              (r.Success? <==> c.Success?) && (r.Failure? ==> r.error == c.error)
  {
    match ParseHeaders(request)
    case Failure(e) => Failure(e)
    case Success(headers) =>
      match Respond(CookieHeader(headers), newSessionId)
      case Failure(e) => Failure(e)
      case Success(resp) => Success(RenderAsWritten(resp.headerLines, resp.body))
  }

  /** A concatenation has a carriage return only where one of its parts has. */
  lemma NoCarriageReturnInConcat(a: string, b: string)
    requires '\r' !in a && '\r' !in b
    ensures '\r' !in a + b
  {
    forall i | 0 <= i < |a + b| ensures (a + b)[i] != '\r' {
      if i < |a| {
        assert (a + b)[i] == a[i];
      } else {
        assert (a + b)[i] == b[i - |a|];
      }
    }
  }

  lemma ContentLengthFramable(body: string)
    ensures ContentLength(body) != "" && '\r' !in ContentLength(body)
  {
    var digits := NatToDecimal(|body|);
    assert forall i :: 0 <= i < |digits| ==> digits[i] != '\r';
    NoCarriageReturnInConcat("Content-Length: ", digits);
  }

  lemma NewSessionFramable(id: string)
    requires '\r' !in id
    ensures Framable(NewSession(id).headerLines)
  {
    ContentLengthFramable(NewSession(id).body);
    NoCarriageReturnInConcat("Set-Cookie: session_id=", id);
  }

  lemma ReturningSessionFramable(id: string)
    ensures Framable(ReturningSession(id).headerLines)
  {
    ContentLengthFramable(ReturningSession(id).body);
  }

  /** Both branches produce framable header lines when the session id has no carriage
      return. */
  lemma SessionLinesFramable(r: Response)
    requires r == NewSession(r.sessionId) || r == ReturningSession(r.sessionId)
    requires '\r' !in r.sessionId
    ensures Framable(r.headerLines)
  {
    if r.isNew {
      NewSessionFramable(r.sessionId);
    } else {
      ReturningSessionFramable(r.sessionId);
    }
  }

  /** A successful response frames as HTTP intends with the corrected rendering: the
      client's body is the prepared body, whose length the Content-Length line states.
      As written, the client instead finds the body behind an extra line break. */
  lemma {:induction false} ClientSeesBody(cookies: string, newSessionId: string)
    requires Respond(cookies, newSessionId).Success?
    requires '\r' !in Respond(cookies, newSessionId).value.sessionId
    ensures var resp := Respond(cookies, newSessionId).value;
            ContentLength(resp.body) in resp.headerLines &&
            HeadAndBody(Render(resp.headerLines, resp.body)) == Some((Join(resp.headerLines, CRLF), resp.body)) &&
            HeadAndBody(RenderAsWritten(resp.headerLines, resp.body)) == Some((Join(resp.headerLines, CRLF), CRLF + resp.body))
  {
    var resp := Respond(cookies, newSessionId).value;
    SessionLinesFramable(resp);
    RenderFrames(resp.headerLines, resp.body);
    RenderAsWrittenShiftsBody(resp.headerLines, resp.body);
  }

  /** A request whose headers parse gets the response its cookies choose; when that
      response's session id has no carriage return, the client reads exactly the
      prepared body, and the Content-Length line states its length. */
  lemma HandleRequestFrames(request: string, newSessionId: string)
    requires ParseHeaders(request).Success?
    ensures var r := HandleRequest(request, newSessionId);
            var c := Respond(CookieHeader(ParseHeaders(request).value), newSessionId);
            (r.Success? <==> c.Success?) &&
            (r.Failure? ==> r.error == c.error) &&
            (r.Success? && '\r' !in c.value.sessionId ==>
               ContentLength(c.value.body) in c.value.headerLines &&
               HeadAndBody(r.value) == Some((Join(c.value.headerLines, CRLF), c.value.body)))
  {
    var c := Respond(CookieHeader(ParseHeaders(request).value), newSessionId);
    if c.Success? && '\r' !in c.value.sessionId {
      ClientSeesBody(CookieHeader(ParseHeaders(request).value), newSessionId);
    }
  }

  /** The same request as the source answers it: the same success or error, and on
      success the client reads a line break followed by the prepared body. */
  lemma HandleRequestAsWrittenFrames(request: string, newSessionId: string)
    requires ParseHeaders(request).Success?
    ensures var r := HandleRequestAsWritten(request, newSessionId);
            var c := Respond(CookieHeader(ParseHeaders(request).value), newSessionId);
            (r.Success? <==> c.Success?) &&
            (r.Failure? ==> r.error == c.error) &&
            (r.Success? && '\r' !in c.value.sessionId ==>
               ContentLength(c.value.body) in c.value.headerLines &&
               HeadAndBody(r.value) == Some((Join(c.value.headerLines, CRLF), CRLF + c.value.body)))
  {
    var c := Respond(CookieHeader(ParseHeaders(request).value), newSessionId);
    if c.Success? && '\r' !in c.value.sessionId {
      ClientSeesBody(CookieHeader(ParseHeaders(request).value), newSessionId);
    }
  }
}
