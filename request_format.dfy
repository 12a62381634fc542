/**
 * The text `HTTPGetRequest` and `HTTPPostRequest` write to the socket, as the
 * list of lines they hand to `println`. Each line built with
 * `snprintf(buf, 100, ...)` keeps at most 99 characters; `println` ends
 * every line with CR LF.
 */
module RequestFormat {
  import opened Wire

  /**
   * The text on the socket after `println` of each of `lines`, in order,
   * when `before` had been written already.
   */
  function Sent(before: string, lines: seq<string>): (r: string)
    ensures before <= r
    ensures |r| >= |before| + 2 * |lines|
    decreases |lines|
  {
    if lines == [] then before else Sent(before + lines[0] + EOL, lines[1..])
  }

  /** The text of the lines alone. */
  function Printed(lines: seq<string>): (r: string)
    ensures |r| >= 2 * |lines|
    ensures lines != [] ==> lines[0] + EOL <= r
  {
    Sent([], lines)
  }

  /** Printing two runs of lines is printing the first, then the second. */
  lemma {:induction false} SentAppend(before: string, a: seq<string>, b: seq<string>)
    ensures Sent(before, a + b) == Sent(Sent(before, a), b)
    decreases |a|
  {
    if a == [] {
      assert a + b == b;
      assert Sent(before, a) == before;
    } else {
      var next := before + a[0] + EOL;
      assert (a + b)[0] == a[0];
      assert (a + b)[1..] == a[1..] + b;
      assert Sent(before, a + b) == Sent(next, a[1..] + b);
      assert Sent(before, a) == Sent(next, a[1..]);
      SentAppend(next, a[1..], b);
    }
  }

  /** What was written before stays in front: the lines only add their own text. */
  lemma {:induction false} SentAfter(before: string, lines: seq<string>)
    ensures Sent(before, lines) == before + Printed(lines)
    decreases |lines|
  {
    if lines == [] {
      assert before + [] == before;
    } else {
      var line, rest := lines[0], Printed(lines[1..]);
      SentAfter(before + line + EOL, lines[1..]);
      SentAfter([] + line + EOL, lines[1..]);
      assert [] + line == line;
      assert before + (line + EOL + rest) == (before + (line + EOL)) + rest;
      assert before + (line + EOL) == before + line + EOL;
    }
  }

  /** Three lines, printed. */
  lemma SentThree(before: string, a: string, b: string, c: string)
    ensures Sent(before, [a, b, c]) == before + a + EOL + b + EOL + c + EOL
  {
    var one := before + a + EOL;
    var two := one + b + EOL;
    assert [a, b, c][1..] == [b, c];
    assert [b, c][1..] == [c];
    assert [c][1..] == [];
    assert Sent(two, [c]) == two + c + EOL;
    assert Sent(one, [b, c]) == Sent(two, [c]);
  }

  /** Four lines, printed. */
  lemma SentFour(before: string, a: string, b: string, c: string, d: string)
    ensures Sent(before, [a, b, c, d]) == before + a + EOL + b + EOL + c + EOL + d + EOL
  {
    assert [a, b, c, d][1..] == [b, c, d];
    SentThree(before + a + EOL, b, c, d);
  }

  /** Five lines, printed. */
  lemma SentFive(before: string, a: string, b: string, c: string, d: string, e: string)
    ensures Sent(before, [a, b, c, d, e]) == before + a + EOL + b + EOL + c + EOL + d + EOL + e + EOL
  {
    assert [a, b, c, d, e][1..] == [b, c, d, e];
    SentFour(before + a + EOL, b, c, d, e);
  }

  /** One empty line, printed. */
  lemma SentEmptyLine(before: string)
    ensures Sent(before, [""]) == before + "" + EOL
  {
    assert [""][1..] == [];
  }

  /**
   * The index of the first empty line, or the number of lines when there is
   * none. The empty line ends the header section of a request.
   */
  function HeaderEnd(lines: seq<string>): (k: nat)
    ensures k <= |lines|
    ensures k < |lines| ==> lines[k] == ""
    ensures forall i :: 0 <= i < k ==> lines[i] != ""
    decreases |lines|
  {
    if lines == [] || lines[0] == "" then 0 else 1 + HeaderEnd(lines[1..])
  }

  /** The request line, `"<verb> <path> HTTP/1.1"` cut by `snprintf`. */
  function RequestLine(verb: string, path: string): (r: string)
    ensures |r| <= LINE_BUFFER - 1
    ensures r <= verb + " " + path + " HTTP/1.1"
  {
    Snprintf(verb + " " + path + " HTTP/1.1")
  }

  /** The `Host` header line, cut by `snprintf`. */
  function HostLine(host: string): (r: string)
    ensures |r| <= LINE_BUFFER - 1
    ensures "Host: " <= r <= "Host: " + host
  {
    Snprintf("Host: " + host)
  }

  const CONNECTION_CLOSE: string := "Connection: close"
  const USER_AGENT: string := "User-Agent: Arduino/1.0"
  const CONTENT_TYPE: string := "Content-Type: application/x-www-form-urlencoded;"
  /** Printed with `print`, so the length that `println` adds lands on the same line. */
  const CONTENT_LENGTH: string := "Content-Length: "

  /** The lines `HTTPGetRequest` prints once connected. */
  function GetLines(path: string, host: string): (r: seq<string>)
    ensures |r| == 4 && r[|r| - 1] == ""
  {
    [RequestLine("GET", path), HostLine(host), CONNECTION_CLOSE, ""]
  }

  /** `strlen(params)`, with 0 for a null pointer. */
  function ParamsLength(params: Option<string>): (r: nat)
    ensures r == 0 <==> params.None? || params.value == ""
    ensures params.Some? ==> r == |params.value|
  {
    if params.Some? then |params.value| else 0
  }

  /** The five header lines every POST request starts with. */
  function PostHead(path: string, host: string): (r: seq<string>)
    ensures |r| == 5
    ensures forall i :: 0 <= i < |r| ==> r[i] != ""
  {
    [RequestLine("POST", path), HostLine(host), USER_AGENT, CONNECTION_CLOSE, CONTENT_TYPE]
  }

  /** The length line, the empty line and `params`, sent only for a non-empty `params`. */
  function PostBody(params: Option<string>): (r: seq<string>)
    ensures |r| == 0 || |r| == 3
    ensures |r| == 3 <==> ParamsLength(params) > 0
  {
    if ParamsLength(params) > 0
    then [CONTENT_LENGTH + Decimal(ParamsLength(params)), "", params.value]
    else []
  }

  /** The lines `HTTPPostRequest` prints once connected. */
  function PostLines(path: string, host: string, params: Option<string>): (r: seq<string>)
    ensures |r| == 6 + |PostBody(params)|
    ensures r[..5] == PostHead(path, host) && r[|r| - 1] == ""
  {
    PostHead(path, host) + PostBody(params) + [""]
  }

  /** A header line that announces the length of the body. */
  predicate IsContentLength(line: string)
  {
    CONTENT_LENGTH <= line
  }

  /** `HeaderEnd` picks out the first empty line wherever it is. */
  lemma {:induction false} HeaderEndAt(lines: seq<string>, k: nat)
    requires k < |lines| && lines[k] == ""
    requires forall i :: 0 <= i < k ==> lines[i] != ""
    ensures HeaderEnd(lines) == k
    decreases k
  {
    if k > 0 {
      HeaderEndAt(lines[1..], k - 1);
    }
  }

  /** However long `path` and `host` are, the first two lines are not empty and are no header length. */
  lemma FixedLines(verb: string, path: string, host: string)
    requires |verb| >= 1 && verb[0] != 'C'
    ensures RequestLine(verb, path) != "" && !IsContentLength(RequestLine(verb, path))
    ensures HostLine(host) != "" && !IsContentLength(HostLine(host))
  {
    var r := RequestLine(verb, path);
    assert r[0] == verb[0];
    var h := HostLine(host);
    assert h[0] == 'H';
  }

  /**
   * A GET request is all header: its only empty line is the last one, so it
   * announces no body and sends none.
   */
  lemma GetHasNoBody(path: string, host: string)
    ensures var lines := GetLines(path, host);
      HeaderEnd(lines) == |lines| - 1
      && forall i :: 0 <= i < HeaderEnd(lines) ==> !IsContentLength(lines[i])
  {
    var lines := GetLines(path, host);
    FixedLines("GET", path, host);
    assert !IsContentLength(CONNECTION_CLOSE) by {
      assert CONNECTION_CLOSE[3] != CONTENT_LENGTH[3];
    }
    HeaderEndAt(lines, 3);
  }

  /**
   * With a path and host short enough for the line buffer, GET sends exactly
   * the request line, the Host line, "Connection: close" and an empty line.
   */
  lemma GetRequestText(path: string, host: string)
    requires |path| <= 86 && |host| <= 93
    ensures Printed(GetLines(path, host))
         == "GET " + path + " HTTP/1.1" + EOL + "Host: " + host + EOL + "Connection: close" + EOL + EOL
  {
    var request, hostLine := RequestLine("GET", path), HostLine(host);
    assert request == "GET " + path + " HTTP/1.1";
    assert hostLine == "Host: " + host;
    SentFour([], request, hostLine, CONNECTION_CLOSE, "");
    assert [] + request == request;
    var three := request + EOL + hostLine + EOL + CONNECTION_CLOSE + EOL;
    assert three + "" == three;
  }

  /** A longer path is cut: the request line keeps its first 99 characters only. */
  lemma RequestLineCut(verb: string, path: string)
    ensures var full := verb + " " + path + " HTTP/1.1";
      && RequestLine(verb, path) <= full
      && (|full| <= LINE_BUFFER - 1 ==> RequestLine(verb, path) == full)
      && (|full| > LINE_BUFFER - 1 ==> |RequestLine(verb, path)| == LINE_BUFFER - 1)
  {
  }

  /** The POST lines around the optional body part. */
  lemma PostShape(path: string, host: string, params: Option<string>)
    ensures var lines := PostLines(path, host, params);
      && (ParamsLength(params) > 0 ==>
            |lines| == 9 && lines[5] == CONTENT_LENGTH + Decimal(ParamsLength(params))
            && lines[6..] == ["", params.value, ""])
      && (ParamsLength(params) == 0 ==> |lines| == 6 && lines[5] == "")
  {
  }

  /** The five lines every POST request starts with are neither empty nor a length line. */
  lemma PostFixedLines(path: string, host: string, params: Option<string>)
    ensures var lines := PostLines(path, host, params);
      |lines| > 5 && forall i :: 0 <= i < 5 ==> lines[i] != "" && !IsContentLength(lines[i])
  {
    var lines := PostLines(path, host, params);
    FixedLines("POST", path, host);
    assert !IsContentLength(USER_AGENT) by {
      assert USER_AGENT[0] != CONTENT_LENGTH[0];
    }
    assert !IsContentLength(CONNECTION_CLOSE) by {
      assert CONNECTION_CLOSE[3] != CONTENT_LENGTH[3];
    }
    assert !IsContentLength(CONTENT_TYPE) by {
      assert CONTENT_TYPE[8] != CONTENT_LENGTH[8];
    }
    assert lines[..5] == PostHead(path, host);
  }

  /**
   * POST announces a length exactly when `params` is non-null and not empty:
   * its header section then holds one Content-Length line, whose number
   * reads back as `strlen(params)`, and after the empty line come `params`
   * and one more empty line; otherwise the header section ends with the
   * last line.
   */
  lemma PostContentLength(path: string, host: string, params: Option<string>)
    ensures var lines := PostLines(path, host, params); var k := HeaderEnd(lines);
      && ((exists i :: 0 <= i < k && IsContentLength(lines[i])) <==> params.Some? && params.value != [])
      && (forall i :: 0 <= i < k && IsContentLength(lines[i]) ==>
            ParseDecimal(lines[i][|CONTENT_LENGTH|..]) == Some(ParamsLength(params)))
      && (ParamsLength(params) > 0 ==> k < |lines| && lines[k + 1..] == [params.value, ""])
      && (ParamsLength(params) == 0 ==> k == |lines| - 1)
  {
    var lines := PostLines(path, host, params);
    PostShape(path, host, params);
    PostFixedLines(path, host, params);
    var n := ParamsLength(params);
    if n > 0 {
      var line := lines[5];
      assert line != "" && IsContentLength(line);
      HeaderEndAt(lines, 6);
      assert line[|CONTENT_LENGTH|..] == Decimal(n);
      DecimalRoundTrip(n);
    } else {
      HeaderEndAt(lines, 5);
    }
  }

  /** The five header lines every POST request starts with, printed. */
  lemma PostHeadText(path: string, host: string)
    requires |path| <= 85 && |host| <= 93
    ensures Printed(PostHead(path, host))
         == "POST " + path + " HTTP/1.1" + EOL + "Host: " + host + EOL
            + "User-Agent: Arduino/1.0" + EOL + "Connection: close" + EOL
            + "Content-Type: application/x-www-form-urlencoded;" + EOL
  {
    var request, hostLine := RequestLine("POST", path), HostLine(host);
    assert request == "POST " + path + " HTTP/1.1";
    assert hostLine == "Host: " + host;
    SentFive([], request, hostLine, USER_AGENT, CONNECTION_CLOSE, CONTENT_TYPE);
    assert [] + request == request;
  }

  /** The part of a POST request that carries `params`, printed after `before`. */
  lemma PostBodyText(before: string, params: string)
    ensures Sent(before, [CONTENT_LENGTH + Decimal(|params|), "", params])
         == before + CONTENT_LENGTH + Decimal(|params|) + EOL + EOL + params + EOL
  {
    SentThree(before, CONTENT_LENGTH + Decimal(|params|), "", params);
    RegroupLines(before, CONTENT_LENGTH, Decimal(|params|), params);
  }

  /** The text of lines `x + y`, "" and `p`, regrouped. */
  lemma RegroupLines(before: string, x: string, y: string, p: string)
    ensures before + (x + y) + EOL + "" + EOL + p + EOL == before + x + y + EOL + EOL + p + EOL
  {
    assert before + (x + y) == before + x + y;
    var first := before + x + y + EOL;
    assert first + "" == first;
  }

  /**
   * With a path and host short enough for the line buffer, the exact POST
   * text: five header lines, then, for a non-empty `params`, the length line,
   * an empty line and `params`, and last one more CR LF.
   */
  lemma PostRequestText(path: string, host: string, params: Option<string>)
    requires |path| <= 85 && |host| <= 93
    ensures Printed(PostLines(path, host, params))
         == "POST " + path + " HTTP/1.1" + EOL + "Host: " + host + EOL
            + "User-Agent: Arduino/1.0" + EOL + "Connection: close" + EOL
            + "Content-Type: application/x-www-form-urlencoded;" + EOL
            + (if ParamsLength(params) > 0
               then "Content-Length: " + Decimal(ParamsLength(params)) + EOL + EOL + params.value + EOL
               else "")
            + EOL
  {
    var head, middle := PostHead(path, host), PostBody(params);
    SentAppend([], head + middle, [""]);
    SentAppend([], head, middle);
    PostHeadText(path, host);
    PostBodyPrinted(Printed(head), params);
    var all := Sent(Printed(head), middle);
    SentEmptyLine(all);
    assert all + "" == all;
  }

  /** The optional body part of POST, printed after `before`. */
  lemma PostBodyPrinted(before: string, params: Option<string>)
    ensures Sent(before, PostBody(params))
         == before + if ParamsLength(params) > 0
                     then CONTENT_LENGTH + Decimal(ParamsLength(params)) + EOL + EOL + params.value + EOL
                     else ""
  {
    if ParamsLength(params) > 0 {
      PostBodyText(before, params.value);
    } else {
      assert before + "" == before;
    }
  }
}
