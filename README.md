# ArduinoRequests, modelled in Dafny

ArduinoRequests is a tiny HTTP/1.1 client for an Arduino Uno with an Ethernet
shield. `HTTPGetRequest` and `HTTPPostRequest` reset the caller's `HTTPObject`
record and connect with up to `MAX_RETRIES` (5) attempts. Once connected, they
write the request text with `println` and then read the answer one byte at a
time in three stages:

- the status code, taken from the digits at offsets 9 to 11;
- the headers, skipped up to the CR LF CR LF that ends them;
- the body, copied into the caller's buffer up to `bufSize - 1` bytes and
  followed by a NUL.

The link is then closed.

The model keeps the program's shape:

- `HTTPObject` is a class. Its `statusCode` and `bodyLength` fields and its
  `body` array are updated in place.
- The socket is a `Client` class. It holds the bytes the server answers with,
  how far they have been read, how many bytes reads have delivered, the text
  written so far, an open flag, and the outcome of each `connect()` call.
- Every stage is a method with its source loop. Each method is proved against
  a function of the bytes it found waiting:
  - `Retry` for the connector;
  - `StatusAfter` for the status code;
  - `FinishedReadingHeaders` and `SkipHeaders` for the header scan;
  - `Parse` for the three stages together;
  - `Printed` of the request lines for what is written.
- Lemmas then state what those functions promise:
  - the retry rule;
  - the decimal value of the status digits;
  - the meaning of the match counter;
  - soundness of the header scan, completeness for a terminator not
    preceded by CR, and the terminator it misses after a CR;
  - the bounds and truncation of the body;
  - the exact GET and POST texts;
  - that a POST announces a length exactly when there are parameters, and
    that the printed length reads back as `strlen(params)`.

Modules, leaf first:

- `Wire`: bytes, the signed AVR `char`, 16-bit wrap-around, `snprintf` into
  the 100-byte line buffer, and decimal printing.
- `Transport`: the socket.
- `Connector`: `connect_with_retry`.
- `StatusLine` and `HeaderScan`: the arithmetic of the status code and the
  terminator matcher.
- `ResponseParser`: the record, its reset and the three stages.
- `RequestFormat`: the request lines.
- `Requests`: the two entry points.

One deliberate deviation from the code: the matcher's counter in
`finished_reading_headers` is local to one header scan and starts at 0 there.
In the code it is a `static` variable that carries over from one request to
the next.

## Model

| member | source | states |
|---|---|---|
| `Wire.SignedChar` | Requests.cpp:154 | a byte read into the signed 8-bit `char` has a value in -128..127 that agrees with the byte modulo 256 |
| `Wire.DigitValue` | Requests.cpp:173-174 | for an ASCII digit, `c - '0'` is the digit's value, below 10 |
| `Wire.Wrap16` | Requests.h:24 | the reduction into the 16-bit `unsigned int` is below 65536, congruent to its argument, and the identity on values that fit |
| `Wire.Snprintf` | Requests.cpp:33-38 | a line formatted into the 100-byte buffer keeps the first min(length, 99) characters of the text |
| `Wire.Decimal` | Requests.cpp:74 | the printed length is a non-empty run of decimal digits with no leading zero |
| `Wire.CharDigit` | Requests.cpp:74 | reading a digit character back gives the only digit that prints as it |
| `Wire.DecimalRoundTrip` | Requests.cpp:73-74 | a receiver parsing the printed number gets the number back |
| `Transport.ConnectSucceeds` | Requests.cpp:98 | the `!= 0` test of a `connect()` call's result; calls beyond the outcome list fail |
| `Transport.Client.constructor` | Requests.h:28-29 | a fresh socket has made no attempt, read nothing, sent nothing and is down |
| `Transport.Client.Connected` | Requests.cpp:142 | `connected()` holds exactly when the link is up and bytes are left to read |
| `Transport.Client.Connect` | Requests.cpp:98 | one attempt is counted; its outcome is that attempt's entry of the outcome list, and success brings the link up |
| `Transport.Client.Read` | Requests.cpp:143-144 | a read delivers the next unread byte, consumes exactly it, and counts one byte delivered |
| `Transport.Client.Print` | Requests.cpp:73 | `print` appends its text to what was sent |
| `Transport.Client.Println` | Requests.cpp:39 | `println` appends its text and CR LF to what was sent |
| `Transport.Client.Stop` | Requests.cpp:207 | `stop()` takes the link down and drops the bytes it did not deliver, so a later connection gets none of them |
| `Connector.Retry` | Requests.cpp:94-102 | never more attempts than allowed |
| `Connector.RetryRule` | Requests.cpp:94-102 | success exactly when one of the `max` allowed attempts succeeds; then the attempt made last is the first that succeeds, and all earlier ones failed; on failure all `max` attempts are made |
| `Connector.RetryNone` | Requests.cpp:97 | with `max` = 0 nothing is tried and 0 is returned |
| `Connector.ConnectWithRetry` | Requests.cpp:94-102 | the result and the number of `connect()` calls are those of `Retry`, and the link is up exactly when it was or the call succeeded |
| `ResponseParser.HttpObject.constructor` | Requests.h:19-26 | a record keeps host, path, buffer and size as given; the C struct has no constructor, and its start state (body length -1) is a convenience of the model that every request's reset overwrites |
| `ResponseParser.InitHttpResponse` | Requests.cpp:104-112 | status code 0, body length -1, NUL at `body[0]`, and the rest of the buffer untouched |
| `StatusLine.Term` | Requests.cpp:174 | the amount `(c - '0') * multiplier` added for a byte: between 0 and 9 times the place value for a digit, outside that range for any other byte |
| `StatusLine.StatusAfter` | Requests.cpp:158-179 | bytes before offset 9 leave the code as it was; once a status byte is read, the code fits 16 bits |
| `StatusLine.StatusStep` | Requests.cpp:166-175 | proof helper, the definition of `StatusAfter` unfolded for the loop: reading a status byte adds `(c - '0')` times its place value, wrapped to 16 bits |
| `StatusLine.StatusOfDigits` | Requests.cpp:150-179 | with ASCII digits at the status offsets, the reset code becomes their decimal value, in 0..999, and a stream cut short keeps the partial sum of the digits that arrived |
| `StatusLine.StatusCodeValue` | Requests.cpp:167 | twelve bytes ending in three digits give 100·d9 + 10·d10 + d11, at most 999 |
| `StatusLine.StatusExampleOk` | Requests.cpp:160-161 | "HTTP/1.1 200 OK" gives 200 |
| `StatusLine.StatusExampleLeadingZero` | Requests.cpp:167-174 | "050" gives 50: a leading zero is accepted |
| `StatusLine.StatusExampleBounds` | Requests.cpp:167-174 | "000" gives 0 and "999" gives 999 |
| `StatusLine.StatusExamplePartial` | Requests.cpp:158 | a stream that ends after the first digit "4" leaves 400 |
| `StatusLine.StatusWrapExample` | Requests.cpp:174 | a space where the first digit belongs makes `c - '0'` negative, and the 16-bit code wraps to 63936 |
| `ResponseParser.Weight` | Requests.cpp:169-172 | the inner loop leaves the place value 10^(11 - j) of offset j |
| `ResponseParser.ExtractStatusCode` | Requests.cpp:150-179 | reads min(12, bytes waiting) bytes, exactly those, and leaves the code `StatusAfter` gives for them; a code within the 16 bits of `unsigned int` stays within them |
| `HeaderScan.FinishedReadingHeaders` | Requests.cpp:116-133 | a byte equal to the next terminator byte moves the counter on by one, any other byte resets it to 0, and 1 is returned exactly when the counter reaches 4 |
| `HeaderScan.StepKeepsMatched` | Requests.cpp:116-133 | the step keeps the counter's meaning (the last k bytes read are the first k terminator bytes), so a return of 1 means CR LF CR LF was just read |
| `HeaderScan.SkipHeaders` | Requests.cpp:138-148 | the scan reads no more than the stream holds, all of it when it finds no terminator, and at least one byte when it does |
| `HeaderScan.SkipHeadersStep` | Requests.cpp:142-146 | proof helper, the definition of `SkipHeaders` unfolded for the loop: the scan is the step on the first byte, then the scan of the rest unless the step found the end |
| `HeaderScan.SkipSound` | Requests.cpp:138-148 | when the scan stops early, the bytes read so far end in CR LF CR LF |
| `HeaderScan.SkipStopsAfterTerminator` | Requests.cpp:138-148 | a scan from counter 0 that stops has read at least four bytes, and the last four are CR LF CR LF |
| `HeaderScan.SkipFindsFrom` | Requests.cpp:123-131 | a terminator not preceded by CR is found by the time its last byte is read, when the counter arrives at it holding 0 or 2 |
| `HeaderScan.SkipFindsTerminator` | Requests.cpp:138-148 | a scan from counter 0 finds every CR LF CR LF not preceded by CR, no later than its last byte |
| `HeaderScan.SkipMissesAfterCR` | Requests.cpp:123-126 | the reset does not test the mismatching byte again, so CR CR LF CR LF goes unseen and the scan runs to the end of the stream |
| `HeaderScan.SkipPlainText` | Requests.cpp:123-126 | header text without CR or LF is read through with the counter back at 0 |
| `ResponseParser.SkipHttpHeaders` | Requests.cpp:138-148 | reads exactly the bytes `SkipHeaders` counts, leaves the rest unread, and has just read CR LF CR LF when it found the end |
| `ResponseParser.ExtractBody` | Requests.cpp:181-193 | with n = min(bytes waiting, bufSize - 1): the first n buffer bytes are the next n bytes of the stream, `body[n]` is NUL, `bodyLength` is n, nothing from n + 1 on is written, and exactly n bytes are read |
| `ResponseParser.Parse` | Requests.cpp:199-204 | the three stages never take more bytes than the stream holds |
| `ResponseParser.ParseStages` | Requests.cpp:199-204 | proof helper, the definition of `Parse` written out: the composition stage by stage: status from the first min(12, length) bytes, then the header scan, then at most `bufSize - 1` body bytes |
| `ResponseParser.StagesCompose` | Requests.cpp:201-203 | proof helper, the definition of `Parse` in the terms the stage methods report: the status stage, then the header scan over what it left, then the body stage over what that left, together do what `Parse` says |
| `ResponseParser.ExtractClientResponse` | Requests.cpp:199-208 | after the three stages the record holds `Parse` of the waiting bytes, the buffer beyond the NUL is untouched, exactly status + header + body bytes are delivered in order, the link is down, and nothing of this answer is left to read; the status code stays within 16 bits |
| `ResponseParser.ParseBody` | Requests.cpp:181-193 | the body starts after the twelve status bytes, at the end of the stream or right after CR LF CR LF; it is the run of bytes there, cut to `bufSize - 1`, and all of what is left when that is shorter |
| `ResponseParser.ParseStatus` | Requests.cpp:150-179 | with digits at the status offsets the reset parser reports their decimal value, in 0..999 |
| `ResponseParser.ParseWellFormed` | Requests.cpp:199-204 | a well-formed answer (status line, header text with no earlier terminator and not ending in CR, CR LF CR LF, body) gives the status digits, a body start right after the terminator, and the first `bufSize - 1` body bytes |
| `ResponseParser.HeadersEndAtTerminator` | Requests.cpp:138-148 | over well-formed header text, the terminator and a body, the scan stops right after the terminator |
| `ResponseParser.NoEarlyTerminator` | Requests.cpp:120-129 | header text in which every CR is followed two bytes on by a byte other than CR holds no terminator before its end |
| `ResponseParser.Example404Headers` | Requests.cpp:120-129 | " Not Found\r\nX: y" holds no early terminator and does not end in CR |
| `ResponseParser.ParseExample404` | Requests.cpp:199-204 | "HTTP/1.1 404 Not Found\r\nX: y\r\n\r\nHELLO" with `bufSize` >= 6 gives status 404, body start 32 and body "HELLO" |
| `RequestFormat.Sent` | Requests.cpp:39-44 | the text on the socket after `println` of each line in turn keeps what was there in front and grows by at least CR LF per line; `SentAfter` states exactly what it adds |
| `RequestFormat.Printed` | Requests.cpp:39-44 | the printed lines start with the first line and its CR LF, and take at least CR LF per line |
| `RequestFormat.RequestLine` | Requests.cpp:38 | the request line `snprintf` builds (here and at line 62) is a prefix of "<verb> <path> HTTP/1.1" of at most 99 characters; `RequestLineCut` says which prefix |
| `RequestFormat.HostLine` | Requests.cpp:41 | the Host line (here and at line 65) is a prefix of "Host: <host>" of at most 99 characters that keeps "Host: " |
| `RequestFormat.GetLines` | Requests.cpp:38-44 | GET prints four lines, the last of them empty; `GetRequestText` and `GetHasNoBody` state the text and that no body is announced |
| `RequestFormat.ParamsLength` | Requests.cpp:55-58 | `strlen(params)` guarded by the null check: 0 exactly for a null or empty `params`, otherwise its length |
| `RequestFormat.PostHead` | Requests.cpp:62-70 | the five lines every POST starts with, none of them empty |
| `RequestFormat.PostBody` | Requests.cpp:72-77 | the optional part has three lines exactly when `strlen(params)` is positive, and none otherwise |
| `RequestFormat.PostLines` | Requests.cpp:62-78 | POST prints the five head lines, the optional part and a final empty line; `PostShape`, `PostContentLength` and `PostRequestText` state their contents |
| `RequestFormat.SentAppend` | Requests.cpp:39-44 | printing two runs of lines is printing the first, then the second |
| `RequestFormat.SentAfter` | Requests.cpp:39-44 | printing lines after earlier text keeps that text in front and adds only the lines' own text |
| `RequestFormat.SentThree` | Requests.cpp:74-76 | three lines print as each line followed by CR LF |
| `RequestFormat.SentFour` | Requests.cpp:39-44 | four lines print as each line followed by CR LF |
| `RequestFormat.SentFive` | Requests.cpp:63-70 | five lines print as each line followed by CR LF |
| `RequestFormat.SentEmptyLine` | Requests.cpp:78 | `println()` prints CR LF alone |
| `RequestFormat.HeaderEnd` | Requests.cpp:44 | the index of the first empty line (the end of the request's header section), or the number of lines when there is none |
| `RequestFormat.HeaderEndAt` | Requests.cpp:44 | an empty line with no empty line before it is the end of the header section |
| `RequestFormat.FixedLines` | Requests.cpp:38-41 | however long the path and host, the request line and the Host line are neither empty nor a length line |
| `RequestFormat.GetHasNoBody` | Requests.cpp:38-44 | the only empty line of a GET is its last, and its header section announces no length |
| `RequestFormat.GetRequestText` | Requests.cpp:38-44 | with a path and host that fit the buffer, GET writes exactly "GET <path> HTTP/1.1", "Host: <host>", "Connection: close" and an empty line, each ended by CR LF |
| `RequestFormat.RequestLineCut` | Requests.cpp:38 | the request line is a prefix of the full text: all of it when it fits in 99 characters, otherwise exactly 99 |
| `RequestFormat.PostShape` | Requests.cpp:62-78 | with parameters, POST has nine lines: the length line, an empty line, the parameters and a closing empty line; without them, six lines ending in the empty line |
| `RequestFormat.PostFixedLines` | Requests.cpp:62-70 | the five lines every POST starts with are neither empty nor a length line |
| `RequestFormat.PostContentLength` | Requests.cpp:57-78 | a POST's header section holds a Content-Length line exactly when `params` is non-null and non-empty; its number reads back as `strlen(params)`; the parameters and one more empty line follow the blank line; otherwise the header section ends at the last line |
| `RequestFormat.PostHeadText` | Requests.cpp:62-70 | the five fixed POST lines, printed, with a path and host that fit the buffer |
| `RequestFormat.PostBodyText` | Requests.cpp:72-77 | the length label, the length and CR LF, a blank line, then the parameters and CR LF |
| `RequestFormat.PostBodyPrinted` | Requests.cpp:72-77 | the optional part of a POST prints that text when there are parameters and nothing otherwise |
| `RequestFormat.PostRequestText` | Requests.cpp:62-78 | with a path and host that fit the buffer, the exact POST text: the five header lines; for non-empty `params`, "Content-Length: <strlen>", a blank line and the parameters; then one more CR LF |
| `Requests.SendGetRequest` | Requests.cpp:38-44 | the four `println` calls of GET append exactly the printed GET lines to what was sent |
| `Requests.GetSent` | Requests.cpp:39-44 | the text of the four `println` calls is the printed GET lines |
| `Requests.HttpGetRequest` | Requests.cpp:30-48 | a GET that connects sends the GET lines and leaves the record holding `Parse` of the answer, with only the bytes `Parse` took delivered, and the link down with the rest of the answer dropped; one that cannot connect leaves the reset record, sends nothing, reads nothing and leaves the link as it was; either way the `connect()` calls are those of `Retry` with 5 attempts |
| `Requests.SendPostRequest` | Requests.cpp:54-78 | the `print`/`println` calls of POST append exactly the printed POST lines to what was sent |
| `Requests.PostSent` | Requests.cpp:62-78 | the five header lines, the optional part and `println()` together print the POST lines |
| `Requests.PostBodySent` | Requests.cpp:72-77 | `print` of the length label followed by three `println` calls prints the three lines of the body part |
| `Requests.HttpPostRequest` | Requests.cpp:51-82 | as for GET, with the POST lines for the given `params` (`None` for a null pointer) |

## Left out

- `init_ethernet`, `HTTPConfig`'s MAC address, IP address and `failSpeed`, and
  the `ConnectionTimeout` values (Requests.cpp:21-27, Requests.h:13-17,
  Requests.h:30-32). These configure the network hardware; the connect
  outcomes are a fixed list on the socket instead.
- Polling `available()`. A read returns the next byte of the answer, and the
  link dropping is the answer running out. Timing and liveness are not
  modelled.
- `flush()` is not modelled. `stop()` clears the open flag and drops the
  unread bytes.
- A `Client` holds one answer from the server. A later request on the same
  object can connect, but it receives nothing, because the first request's
  `stop()` dropped what was left. A server answering again on a new
  connection is not modelled.
- The `static` match counter of `finished_reading_headers` (Requests.cpp:121),
  which survives from one request to the next. After a scan that found the
  end it stays at 4, and the next call reads `CRLF[4]` outside the array. That
  is undefined behaviour, so the model uses a counter local to each scan that
  starts at 0.
- `bufSize` = 0, where `bufSize - 1` wraps around, and a `bodyLength` too
  large for the 16-bit `int`. `HttpObject.Usable` excludes both by asking for
  1 <= `bufSize` <= 32768, and a buffer of at least `bufSize` bytes.
- The record's `host`, `path`, `body` and `bufSize` are constants of the
  model. The library never writes them.
- C strings are modelled as the characters before their NUL. Path, host and
  parameters are taken to contain no NUL, so `strlen(params)` is the length of
  the text. They are also taken to hold one byte per character: a Dafny
  `char` can lie above 255, and for such text the 99-character cut of
  `Snprintf` and the count of `ParamsLength` are not the byte counts of
  `snprintf` and `strlen`.
- The `EthernetClient` is passed by value to the helper functions. All copies
  share one socket, so the model passes one `Client` object to every stage.
- `snprintf` and `println` are modelled only by what the request text needs:
  cutting to 99 characters, CR LF line ends, and a `size_t` printed in base
  10.
- `RequestFormat.GetRequestText`: states the exact text only for a path of at
  most 86 characters and a host of at most 93, where nothing is cut.
  `RequestLineCut` covers longer lines.
- `RequestFormat.PostRequestText`: likewise, states the text only for a path
  of at most 85 characters and a host of at most 93.
