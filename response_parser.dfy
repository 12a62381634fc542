/**
 * The response side of a request: the `HTTPObject` record the caller owns,
 * its reset, and the three stages `extract_client_response` runs over one
 * connection (status code, header skip, body capture) before closing it.
 * Each stage reads the connection one byte at a time, left to right, and
 * each is tied to a function of the bytes it found waiting: `Parse` is the
 * composition of the three.
 */
module ResponseParser {
  import opened Wire
  import opened Transport
  import opened StatusLine
  import opened HeaderScan

  /** The `HTTPObject` record: where to send the request and where the answer goes. */
  class HttpObject {
    const host: string
    const path: string
    /** The caller's buffer for the body; `bufSize` of it may be used. */
    const body: array<byte>
    const bufSize: nat
    /** A 16-bit `unsigned int` on the target; 0 until a status code is read. */
    var statusCode: nat
    /** A 16-bit `int`; -1 means no request reached the server. */
    var bodyLength: int

    constructor (host: string, path: string, body: array<byte>, bufSize: nat)
      ensures this.host == host && this.path == path
      ensures this.body == body && this.bufSize == bufSize
      ensures statusCode == 0 && bodyLength == -1
    {
      this.host, this.path := host, path;
      this.body, this.bufSize := body, bufSize;
      statusCode, bodyLength := 0, -1;
    }

    /**
     * What a request expects of the record: room for at least one byte (the
     * terminating NUL), a buffer as large as `bufSize` says, and a body
     * length that fits the 16-bit `int` field.
     */
    ghost predicate Usable()
    {
      1 <= bufSize <= body.Length && bufSize <= 0x8000
    }
  }

  /** `init_HTTPResponse`: the "no request made" state. */
  method InitHttpResponse(h: HttpObject)
    requires h.body.Length >= 1
    modifies h`statusCode, h`bodyLength, h.body
    ensures h.statusCode == 0 && h.bodyLength == -1
    ensures h.body[0] == NUL && h.body[1..] == old(h.body[1..])
  {
    h.bodyLength := -1;
    h.body[0] := NUL;
    h.statusCode := 0;
  }

  /**
   * `extract_status_code`: reads the first twelve bytes, or as many as
   * arrive, adding each digit at offsets 9 to 11 into `statusCode` with the
   * weight the inner loop computes.
   */
  method ExtractStatusCode(h: HttpObject, c: Client)
    requires c.Valid() && h.statusCode < 0x1_0000
    modifies h`statusCode, c`pos, c`received
    ensures c.Valid() && h.statusCode < 0x1_0000
    ensures var s := old(c.Incoming()); var k := Min(STATUS_PREFIX, |s|);
      && h.statusCode == StatusAfter(old(h.statusCode), s[..k])
      && c.Incoming() == s[k..] && c.pos == old(c.pos) + k
      && c.received == old(c.received) + k
  {
    ghost var s := c.Incoming();
    var j: nat := 0;
    while j <= STATUS_CODE_END_INDEX && c.Connected()
      invariant c.Valid()
      invariant j <= STATUS_PREFIX && j <= |s|
      invariant c.Incoming() == s[j..] && c.pos == old(c.pos) + j
      invariant c.received == old(c.received) + j
      invariant h.statusCode == StatusAfter(old(h.statusCode), s[..j])
      decreases STATUS_PREFIX - j
    {
      var b := c.Read();
      assert s[..j + 1][..j] == s[..j] && s[j] == b;
      if j < STATUS_CODE_START_INDEX {
        j := j + 1;
      } else if STATUS_CODE_START_INDEX <= j <= STATUS_CODE_END_INDEX {
        var multiplier := Weight(j);
        StatusStep(old(h.statusCode), s, j, multiplier);
        h.statusCode := Wrap16(h.statusCode + (SignedChar(b) - '0' as int) * multiplier);
        j := j + 1;
      }
    }
  }

  /**
   * The inner loop of `extract_status_code`: the place value of the digit at
   * offset `j`, 100 for offset 9 down to 1 for offset 11.
   */
  method Weight(j: nat) returns (multiplier: nat)
    requires STATUS_CODE_START_INDEX <= j <= STATUS_CODE_END_INDEX
    ensures multiplier == Pow10(STATUS_CODE_END_INDEX - j)
  {
    multiplier := 1;
    var k := 1;
    while k <= 2 - (j - STATUS_CODE_START_INDEX)
      invariant 1 <= k <= 3 - (j - STATUS_CODE_START_INDEX)
      invariant multiplier == Pow10(k - 1)
    {
      multiplier := multiplier * 10;
      k := k + 1;
    }
  }

  /**
   * `skip_http_headers`: feeds bytes to the matcher until it reports the end
   * of the headers or the connection runs dry. The counter is local to this
   * scan and starts at 0.
   */
  method SkipHttpHeaders(c: Client)
    requires c.Valid()
    modifies c`pos, c`received
    ensures c.Valid()
    ensures var s := old(c.Incoming()); var n := SkipHeaders(s, 0).0;
      && c.Incoming() == s[n..] && c.pos == old(c.pos) + n
      && c.received == old(c.received) + n
      && (SkipHeaders(s, 0).1 ==> 4 <= n && s[n - 4..n] == CRLF)
  {
    ghost var s := c.Incoming();
    ghost var total := SkipHeaders(s, 0);
    ghost var read: nat := 0;
    var j: nat := 0;
    var allHeadersRead := false;
    while !allHeadersRead && c.Connected()
      invariant c.Valid()
      invariant read <= |s| && c.Incoming() == s[read..] && c.pos == old(c.pos) + read
      invariant c.received == old(c.received) + read
      invariant !allHeadersRead ==> j < |CRLF| && read + SkipHeaders(s[read..], j).0 == total.0
      invariant !allHeadersRead ==> SkipHeaders(s[read..], j).1 == total.1
      invariant allHeadersRead ==> read == total.0 && total.1
      decreases |s| - read
    {
      ghost var rest := s[read..];
      var b := c.Read();
      SkipHeadersStep(rest, j);
      assert rest[1..] == s[read + 1..];
      var step := FinishedReadingHeaders(j, b);
      j, allHeadersRead := step.0, step.1;
      read := read + 1;
    }
    SkipStopsAfterTerminator(s);
  }

  /**
   * `extract_body`: copies `n = min(bytes that arrive, bufSize - 1)` bytes
   * into the buffer, writes the NUL after them and records `n`. Nothing at or
   * beyond `bufSize` is written; a longer body is cut at `bufSize - 1`.
   */
  method ExtractBody(h: HttpObject, c: Client)
    requires c.Valid() && h.Usable()
    modifies h`bodyLength, h.body, c`pos, c`received
    ensures c.Valid()
    ensures var s := old(c.Incoming()); var n := Min(|s|, h.bufSize - 1);
      && h.bodyLength == n
      && h.body[..n] == s[..n]
      && h.body[n] == NUL
      && h.body[n + 1..] == old(h.body[n + 1..])
      && c.Incoming() == s[n..] && c.pos == old(c.pos) + n
      && c.received == old(c.received) + n
  {
    ghost var s := c.Incoming();
    var bodyIdx: nat := 0;
    while bodyIdx < h.bufSize - 1 && c.Connected()
      invariant c.Valid()
      invariant bodyIdx <= h.bufSize - 1 && bodyIdx <= |s|
      invariant c.Incoming() == s[bodyIdx..] && c.pos == old(c.pos) + bodyIdx
      invariant c.received == old(c.received) + bodyIdx
      invariant h.body[..bodyIdx] == s[..bodyIdx]
      invariant h.body[bodyIdx..] == old(h.body[bodyIdx..])
    {
      var b := c.Read();
      h.body[bodyIdx] := b;
      bodyIdx := bodyIdx + 1;
    }
    h.body[bodyIdx] := NUL;
    h.bodyLength := bodyIdx;
  }

  /** What the three stages leave: the status code, where the body began, and the body kept. */
  datatype Parsed = Parsed(statusCode: nat, bodyStart: nat, body: seq<byte>)

  /**
   * The stages composed over the bytes `s` the connection delivers, with
   * `statusCode` starting at `code` and a buffer of `bufSize` bytes.
   */
  function Parse(s: seq<byte>, code: nat, bufSize: nat): (p: Parsed)
    requires bufSize >= 1
    ensures p.bodyStart + |p.body| <= |s|
  {
    var k := Min(STATUS_PREFIX, |s|);
    var start := k + SkipHeaders(s[k..], 0).0;
    Parsed(StatusAfter(code, s[..k]), start, s[start..start + Min(|s| - start, bufSize - 1)])
  }

  /**
   * The stages one after the other: the status stage leaves `afterStatus`
   * unread, the header scan over it leaves `rest`, and the body stage keeps
   * the first bytes of `rest`; together they do what `Parse` says.
   */
  lemma StagesCompose(s: seq<byte>, code: nat, bufSize: nat, afterStatus: seq<byte>, rest: seq<byte>)
    requires bufSize >= 1
    requires afterStatus == s[Min(STATUS_PREFIX, |s|)..]
    requires rest == afterStatus[SkipHeaders(afterStatus, 0).0..]
    ensures var p := Parse(s, code, bufSize); var n := Min(|rest|, bufSize - 1);
      && p.statusCode == StatusAfter(code, s[..Min(STATUS_PREFIX, |s|)])
      && p.bodyStart == Min(STATUS_PREFIX, |s|) + SkipHeaders(afterStatus, 0).0
      && |p.body| == n && rest[..n] == p.body
  {
    var p := Parse(s, code, bufSize);
    assert rest == s[p.bodyStart..];
  }

  /** `Parse` stage by stage, in the terms the stage methods report. */
  lemma ParseStages(s: seq<byte>, code: nat, bufSize: nat)
    requires bufSize >= 1
    ensures var p := Parse(s, code, bufSize); var k := Min(STATUS_PREFIX, |s|);
      && p.statusCode == StatusAfter(code, s[..k])
      && p.bodyStart == k + SkipHeaders(s[k..], 0).0 <= |s|
      && |p.body| == Min(|s| - p.bodyStart, bufSize - 1)
      && p.body == s[p.bodyStart..][..|p.body|]
  {
  }

  /**
   * `extract_client_response`: status, then headers, then body, on one
   * connection, which is stopped afterwards however far the stages got.
   * Every byte is read at most once and in order, and whatever the stages
   * left unread is dropped when the link is stopped.
   */
  method ExtractClientResponse(h: HttpObject, c: Client)
    requires c.Valid() && h.Usable() && h.statusCode < 0x1_0000
    modifies h`statusCode, h`bodyLength, h.body, c`pos, c`received, c`open
    ensures c.Valid() && !c.open && c.Pending() == [] && h.statusCode < 0x1_0000
    ensures var p := Parse(old(c.Incoming()), old(h.statusCode), h.bufSize);
      && h.statusCode == p.statusCode
      && h.bodyLength == |p.body|
      && h.body[..|p.body|] == p.body
      && h.body[|p.body|] == NUL
      && h.body[|p.body| + 1..] == old(h.body[|p.body| + 1..])
      && c.received == old(c.received) + p.bodyStart + |p.body|
  {
    ghost var s, code := c.Incoming(), h.statusCode;
    ghost var k := Min(STATUS_PREFIX, |s|);
    ExtractStatusCode(h, c);
    ghost var afterStatus := c.Incoming();
    SkipHttpHeaders(c);
    ghost var rest := c.Incoming();
    ExtractBody(h, c);
    StagesCompose(s, code, h.bufSize, afterStatus, rest);
    c.Stop();
  }

  // ---------------------------------------------------------------------
  // What the composition promises.

  /**
   * The body kept is the run of bytes right after the end of the headers,
   * cut to `bufSize - 1` bytes; the headers end either with CR LF CR LF,
   * found no earlier than the twelve status bytes, or with the stream.
   */
  lemma ParseBody(s: seq<byte>, code: nat, bufSize: nat)
    requires bufSize >= 1
    ensures var p := Parse(s, code, bufSize);
      && Min(STATUS_PREFIX, |s|) <= p.bodyStart <= |s|
      && |p.body| <= bufSize - 1
      && (|s| - p.bodyStart >= bufSize - 1 ==> |p.body| == bufSize - 1)
      && (|s| - p.bodyStart < bufSize - 1 ==> p.bodyStart + |p.body| == |s|)
      && p.body == s[p.bodyStart..p.bodyStart + |p.body|]
      && (p.bodyStart == |s| || (p.bodyStart >= STATUS_PREFIX + 4 && s[p.bodyStart - 4..p.bodyStart] == CRLF))
  {
    var k := Min(STATUS_PREFIX, |s|);
    var t := s[k..];
    SkipStopsAfterTerminator(t);
    var (n, found) := SkipHeaders(t, 0);
    if found {
      assert t[n - 4..n] == s[k + n - 4..k + n];
    }
  }

  /** With digits at offsets 9 to 11 the reset parser reports their decimal value, in 0..999. */
  lemma ParseStatus(s: seq<byte>, bufSize: nat)
    requires bufSize >= 1
    requires DigitsAt(s[..Min(STATUS_PREFIX, |s|)])
    ensures Parse(s, 0, bufSize).statusCode == DigitSum(s[..Min(STATUS_PREFIX, |s|)]) <= 999
  {
    StatusOfDigits(s[..Min(STATUS_PREFIX, |s|)]);
  }

  /** The terminator sits at offset `i` of `t`. */
  predicate TerminatorAt(t: seq<byte>, i: nat)
  {
    i + |CRLF| <= |t| && t[i..i + |CRLF|] == CRLF
  }

  /**
   * A well-formed response: twelve status bytes with digits at 9 to 11,
   * header text in which CR LF CR LF does not occur before its real end and
   * which does not end in a CR, then CR LF CR LF and the body. The parser
   * reports the status digits and the first `bufSize - 1` bytes of the body.
   */
  lemma ParseWellFormed(head: seq<byte>, headers: seq<byte>, body: seq<byte>, bufSize: nat)
    requires bufSize >= 1
    requires |head| == STATUS_PREFIX && DigitsAt(head)
    requires forall i :: 0 <= i < |headers| ==> !TerminatorAt(headers + CRLF, i)
    requires headers != [] ==> headers[|headers| - 1] != CR
    ensures Parse(head + headers + CRLF + body, 0, bufSize)
         == Parsed(DigitSum(head), STATUS_PREFIX + |headers| + 4, body[..Min(|body|, bufSize - 1)])
  {
    var s := head + headers + CRLF + body;
    var rest := headers + CRLF + body;
    assert s == head + rest;
    SplitAt(head, rest);
    HeadersEndAtTerminator(headers, body);
    StatusOfDigits(head);
    var start := STATUS_PREFIX + |headers| + 4;
    SplitAt(head + headers + CRLF, body);
    var m := Min(|body|, bufSize - 1);
    SliceOfSuffix(s, start, m);
    ParseStages(s, 0, bufSize);
    assert Min(STATUS_PREFIX, |s|) == STATUS_PREFIX && Min(|s| - start, bufSize - 1) == m;
  }

  /**
   * The header scan over well-formed header text, the terminator and a body
   * stops right after the terminator.
   */
  lemma HeadersEndAtTerminator(headers: seq<byte>, body: seq<byte>)
    requires forall i :: 0 <= i < |headers| ==> !TerminatorAt(headers + CRLF, i)
    requires headers != [] ==> headers[|headers| - 1] != CR
    ensures SkipHeaders(headers + CRLF + body, 0) == (|headers| + 4, true)
  {
    var t := headers + CRLF + body;
    var q := |headers|;
    SplitAt(headers + CRLF, body);
    SplitAt(headers, CRLF);
    assert t[q..q + 4] == CRLF;
    SkipFindsTerminator(t, q);
    SkipStopsAfterTerminator(t);
    forall i | 0 <= i < q
      ensures !TerminatorAt(t, i)
    {
      assert t[i..i + 4] == (headers + CRLF)[i..i + 4];
      assert !TerminatorAt(headers + CRLF, i);
    }
    var n := SkipHeaders(t, 0).0;
    assert TerminatorAt(t, n - 4);
  }

  /** A concatenation cut where its two parts meet. */
  lemma SplitAt(x: seq<byte>, y: seq<byte>)
    ensures (x + y)[..|x|] == x && (x + y)[|x|..] == y
  {
  }

  /** A slice of `s` read as a prefix of the suffix it starts. */
  lemma SliceOfSuffix(s: seq<byte>, i: nat, m: nat)
    requires i + m <= |s|
    ensures s[i..i + m] == s[i..][..m]
  {
  }

  /**
   * Header text in which every CR is followed, two bytes on, by a byte other
   * than CR holds no terminator before its end.
   */
  lemma NoEarlyTerminator(headers: seq<byte>)
    requires forall i :: 0 <= i < |headers| && headers[i] == CR ==> i + 2 < |headers| && headers[i + 2] != CR
    ensures forall i :: 0 <= i < |headers| ==> !TerminatorAt(headers + CRLF, i)
  {
    forall i | 0 <= i < |headers|
      ensures !TerminatorAt(headers + CRLF, i)
    {
      var t := headers + CRLF;
      assert t[i] == headers[i];
      if headers[i] == CR {
        assert t[i + 2] == headers[i + 2];
      }
    }
  }

  /** The header text of the example below holds no early terminator. */
  lemma Example404Headers(headers: seq<byte>)
    requires headers == Ascii(" Not Found\r\nX: y")
    ensures forall i :: 0 <= i < |headers| ==> !TerminatorAt(headers + CRLF, i)
    ensures headers[|headers| - 1] != CR
  {
    assert headers == [32, 78, 111, 116, 32, 70, 111, 117, 110, 100, 13, 10, 88, 58, 32, 121];
    NoEarlyTerminator(headers);
  }

  /** The answer "HTTP/1.1 404 Not Found", one header, and the body "HELLO". */
  lemma ParseExample404(bufSize: nat)
    requires bufSize >= 6
    ensures Parse(Ascii("HTTP/1.1 404 Not Found\r\nX: y\r\n\r\nHELLO"), 0, bufSize) == Parsed(404, 32, Ascii("HELLO"))
  {
    var response := Ascii("HTTP/1.1 404 Not Found\r\nX: y\r\n\r\nHELLO");
    var head := Ascii("HTTP/1.1 404");
    var headers := Ascii(" Not Found\r\nX: y");
    var body := Ascii("HELLO");
    assert body[..Min(|body|, bufSize - 1)] == body by {
      assert |body| == 5;
    }
    assert response == head + headers + CRLF + body by {
      var text := "HTTP/1.1 404 Not Found\r\nX: y\r\n\r\nHELLO";
      assert text == "HTTP/1.1 404" + " Not Found\r\nX: y" + "\r\n\r\n" + "HELLO";
      AsciiAppend("HTTP/1.1 404" + " Not Found\r\nX: y" + "\r\n\r\n", "HELLO");
      AsciiAppend("HTTP/1.1 404" + " Not Found\r\nX: y", "\r\n\r\n");
      AsciiAppend("HTTP/1.1 404", " Not Found\r\nX: y");
      assert Ascii("\r\n\r\n") == CRLF;
    }
    assert head[9] == 52 && head[10] == 48 && head[11] == 52;
    assert DigitsAt(head) && DigitSum(head) == 404;
    Example404Headers(headers);
    ParseWellFormed(head, headers, body, bufSize);
  }
}
