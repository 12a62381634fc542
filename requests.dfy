/**
 * The two entry points: reset the result, connect with up to `MAX_RETRIES`
 * attempts, and only when that succeeds send the request text and read the
 * answer into the result. With no connection the result keeps its reset
 * values and nothing is written to the socket.
 */
module Requests {
  import opened Wire
  import opened Transport
  import opened Connector
  import opened ResponseParser
  import opened RequestFormat

  /** `HTTPGetRequest`. */
  method HttpGetRequest(h: HttpObject, c: Client)
    requires h.Usable() && c.Valid()
    modifies h`statusCode, h`bodyLength, h.body, c`attempts, c`open, c`pos, c`received, c`sent
    ensures c.Valid()
    ensures c.attempts == old(c.attempts) + Retry(c.outcomes, old(c.attempts), MAX_RETRIES as nat).1
    ensures Retry(c.outcomes, old(c.attempts), MAX_RETRIES as nat).0 ==>
      var p := Parse(old(c.Pending()), 0, h.bufSize);
      && c.sent == old(c.sent) + Printed(GetLines(h.path, h.host))
      && h.statusCode == p.statusCode
      && h.bodyLength == |p.body|
      && h.body[..|p.body|] == p.body
      && h.body[|p.body|] == NUL
      && h.body[|p.body| + 1..] == old(h.body[|p.body| + 1..])
      && !c.open && c.Pending() == [] && c.received == old(c.received) + p.bodyStart + |p.body|
    ensures !Retry(c.outcomes, old(c.attempts), MAX_RETRIES as nat).0 ==>
      && h.statusCode == 0 && h.bodyLength == -1
      && h.body[0] == NUL && h.body[1..] == old(h.body[1..])
      && c.sent == old(c.sent) && c.pos == old(c.pos) && c.received == old(c.received)
      && c.open == old(c.open)
  {
    ghost var body := h.body[..];
    ghost var pending := c.Pending();
    InitHttpResponse(h);
    ghost var reset := h.body[..];
    var connected := ConnectWithRetry(c, MAX_RETRIES);
    if connected {
      assert c.Incoming() == pending;
      SendGetRequest(c, h.path, h.host);
      ExtractClientResponse(h, c);
      ghost var n := |Parse(pending, 0, h.bufSize).body|;
      assert reset[n + 1..] == body[n + 1..] by {
        assert reset[1..][n..] == reset[n + 1..];
        assert body[1..][n..] == body[n + 1..];
      }
    }
  }

  /** The `println` calls of `HTTPGetRequest`: the GET lines, in order. */
  method SendGetRequest(c: Client, path: string, host: string)
    modifies c`sent
    ensures c.sent == old(c.sent) + Printed(GetLines(path, host))
  {
    ghost var before := c.sent;
    var request, hostLine := RequestLine("GET", path), HostLine(host);
    c.Println(request);
    c.Println(hostLine);
    c.Println(CONNECTION_CLOSE);
    c.Println("");
    GetSent(before, request, hostLine, c.sent);
  }

  /** The four `println` calls of GET send the GET lines. */
  lemma GetSent(before: string, request: string, hostLine: string, sent: string)
    requires sent == before + request + EOL + hostLine + EOL + CONNECTION_CLOSE + EOL + "" + EOL
    ensures sent == before + Printed([request, hostLine, CONNECTION_CLOSE, ""])
  {
    SentFour(before, request, hostLine, CONNECTION_CLOSE, "");
    SentAfter(before, [request, hostLine, CONNECTION_CLOSE, ""]);
  }

  /** `HTTPPostRequest`; `params` is `None` for a null pointer. */
  method HttpPostRequest(h: HttpObject, c: Client, params: Option<string>)
    requires h.Usable() && c.Valid()
    modifies h`statusCode, h`bodyLength, h.body, c`attempts, c`open, c`pos, c`received, c`sent
    ensures c.Valid()
    ensures c.attempts == old(c.attempts) + Retry(c.outcomes, old(c.attempts), MAX_RETRIES as nat).1
    ensures Retry(c.outcomes, old(c.attempts), MAX_RETRIES as nat).0 ==>
      var p := Parse(old(c.Pending()), 0, h.bufSize);
      && c.sent == old(c.sent) + Printed(PostLines(h.path, h.host, params))
      && h.statusCode == p.statusCode
      && h.bodyLength == |p.body|
      && h.body[..|p.body|] == p.body
      && h.body[|p.body|] == NUL
      && h.body[|p.body| + 1..] == old(h.body[|p.body| + 1..])
      && !c.open && c.Pending() == [] && c.received == old(c.received) + p.bodyStart + |p.body|
    ensures !Retry(c.outcomes, old(c.attempts), MAX_RETRIES as nat).0 ==>
      && h.statusCode == 0 && h.bodyLength == -1
      && h.body[0] == NUL && h.body[1..] == old(h.body[1..])
      && c.sent == old(c.sent) && c.pos == old(c.pos) && c.received == old(c.received)
      && c.open == old(c.open)
  {
    ghost var body := h.body[..];
    ghost var pending := c.Pending();
    InitHttpResponse(h);
    ghost var reset := h.body[..];
    var connected := ConnectWithRetry(c, MAX_RETRIES);
    if connected {
      assert c.Incoming() == pending;
      SendPostRequest(c, h.path, h.host, params);
      ExtractClientResponse(h, c);
      ghost var n := |Parse(pending, 0, h.bufSize).body|;
      assert reset[n + 1..] == body[n + 1..] by {
        assert reset[1..][n..] == reset[n + 1..];
        assert body[1..][n..] == body[n + 1..];
      }
    }
  }

  /**
   * The `print`/`println` calls of `HTTPPostRequest`: the POST lines, in
   * order; the length line and `params` only when `params` is a non-empty
   * text.
   */
  method SendPostRequest(c: Client, path: string, host: string, params: Option<string>)
    modifies c`sent
    ensures c.sent == old(c.sent) + Printed(PostLines(path, host, params))
  {
    var len: nat := 0;
    if params.Some? {
      len := |params.value|;
    }
    ghost var before := c.sent;
    var request, hostLine := RequestLine("POST", path), HostLine(host);
    c.Println(request);
    c.Println(hostLine);
    c.Println(USER_AGENT);
    c.Println(CONNECTION_CLOSE);
    c.Println(CONTENT_TYPE);
    ghost var headSent := c.sent;
    ghost var middle := if len > 0 then [CONTENT_LENGTH + Decimal(len), "", params.value] else [];
    if len > 0 {
      c.Print(CONTENT_LENGTH);
      c.Println(Decimal(len));
      c.Println("");
      c.Println(params.value);
      PostBodySent(CONTENT_LENGTH, Decimal(len), params.value, headSent, c.sent);
    }
    ghost var bodySent := c.sent;
    c.Println("");
    PostSent(request, hostLine, USER_AGENT, CONNECTION_CLOSE, CONTENT_TYPE, middle, before, headSent, bodySent, c.sent);
  }

  /**
   * The `println` calls of POST send the POST lines: five header lines, the
   * optional body part `middle`, and the closing empty line.
   */
  lemma PostSent(a: string, b: string, c: string, d: string, e: string, middle: seq<string>,
                 before: string, headSent: string, bodySent: string, sent: string)
    requires headSent == before + a + EOL + b + EOL + c + EOL + d + EOL + e + EOL
    requires bodySent == Sent(headSent, middle)
    requires sent == bodySent + "" + EOL
    ensures sent == before + Printed([a, b, c, d, e] + middle + [""])
  {
    var head := [a, b, c, d, e];
    SentFive(before, a, b, c, d, e);
    SentAppend(before, head, middle);
    SentEmptyLine(bodySent);
    SentAppend(before, head + middle, [""]);
    SentAfter(before, head + middle + [""]);
  }

  /** The body part of POST: `print` of the length label, then three `println` calls. */
  lemma PostBodySent(prefix: string, digits: string, params: string, headSent: string, bodySent: string)
    requires bodySent == headSent + prefix + digits + EOL + "" + EOL + params + EOL
    ensures bodySent == Sent(headSent, [prefix + digits, "", params])
  {
    SentThree(headSent, prefix + digits, "", params);
    assert headSent + (prefix + digits) == headSent + prefix + digits;
  }
}
