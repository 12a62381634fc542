/**
 * The header-boundary scanner: `finished_reading_headers` as a one-byte step
 * of a match counter against CR LF CR LF, and the scan `skip_http_headers`
 * drives with it. The counter restarts at 0 on a mismatch without testing the
 * mismatching byte again, exactly as the code does.
 */
module HeaderScan {
  import opened Wire

  /** CR LF CR LF: the empty line that ends the header section. */
  const CRLF: seq<byte> := [CR, LF, CR, LF]

  /**
   * One call of `finished_reading_headers`: from the counter `j` before the
   * call and the byte `c`, the counter after the call and the value returned
   * (true for 1). A byte that extends the match moves the counter on by one;
   * any other byte sends it back to 0.
   */
  function FinishedReadingHeaders(j: nat, c: byte): (r: (nat, bool))
    requires j < |CRLF|
    ensures r.1 <==> r.0 == |CRLF|
    ensures r.0 == j + 1 <==> c == CRLF[j]
    ensures r.0 != j + 1 ==> r.0 == 0
  {
    var next := if c == CRLF[j] then j + 1 else 0;
    (next, next == |CRLF|)
  }

  /** A counter of `k` means: the last `k` bytes read are the first `k` bytes of CRLF. */
  ghost predicate Matched(seen: seq<byte>, k: nat)
  {
    k <= |seen| && k <= |CRLF| && seen[|seen| - k..] == CRLF[..k]
  }

  /** The last four bytes of `seen` are CR LF CR LF. */
  ghost predicate EndsWithCRLF(seen: seq<byte>)
  {
    |seen| >= |CRLF| && seen[|seen| - |CRLF|..] == CRLF
  }

  /** The step keeps the counter's meaning; so a return of 1 means CR LF CR LF was just read. */
  lemma StepKeepsMatched(seen: seq<byte>, j: nat, c: byte)
    requires j < |CRLF| && Matched(seen, j)
    ensures Matched(seen + [c], FinishedReadingHeaders(j, c).0)
    ensures FinishedReadingHeaders(j, c).1 ==> EndsWithCRLF(seen + [c])
  {
    var next := FinishedReadingHeaders(j, c).0;
    var t := seen + [c];
    if next == j + 1 {
      assert t[|t| - next..] == seen[|seen| - j..] + [c];
      assert CRLF[..next] == CRLF[..j] + [CRLF[j]];
    }
  }

  /**
   * `skip_http_headers` over the bytes `s` still to come, with the counter at
   * `j`: how many bytes it reads and whether it saw the counter reach 4
   * (false means the stream ran out first).
   */
  function SkipHeaders(s: seq<byte>, j: nat): (r: (nat, bool))
    requires j < |CRLF|
    ensures r.0 <= |s|
    ensures !r.1 ==> r.0 == |s|
    ensures r.1 ==> r.0 >= 1
    decreases |s|
  {
    if s == [] then (0, false)
    else
      var (next, done) := FinishedReadingHeaders(j, s[0]);
      if done then (1, true)
      else
        var (n, found) := SkipHeaders(s[1..], next);
        (n + 1, found)
  }

  /** One byte of the scan: the step, then the scan of the rest unless the step found the end. */
  lemma SkipHeadersStep(s: seq<byte>, j: nat)
    requires j < |CRLF| && s != []
    ensures var (next, done) := FinishedReadingHeaders(j, s[0]);
      SkipHeaders(s, j) == if done then (1, true) else (1 + SkipHeaders(s[1..], next).0, SkipHeaders(s[1..], next).1)
  {
  }

  /**
   * Soundness: when the scan stops before the stream runs out, the bytes read
   * so far (after those already `seen` behind the counter) end in CR LF CR LF.
   */
  lemma {:induction false} SkipSound(seen: seq<byte>, s: seq<byte>, j: nat)
    requires j < |CRLF| && Matched(seen, j)
    ensures SkipHeaders(s, j).1 ==> EndsWithCRLF(seen + s[..SkipHeaders(s, j).0])
    decreases |s|
  {
    if s != [] {
      StepKeepsMatched(seen, j, s[0]);
      var (next, done) := FinishedReadingHeaders(j, s[0]);
      if done {
        assert s[..1] == [s[0]];
      } else {
        SkipSound(seen + [s[0]], s[1..], next);
        var n := SkipHeaders(s[1..], next).0;
        assert (seen + [s[0]]) + s[1..][..n] == seen + s[..n + 1];
      }
    }
  }

  /** A scan started with the counter at 0 that stops has read at least the four terminator bytes, and they come last. */
  lemma SkipStopsAfterTerminator(s: seq<byte>)
    ensures var (n, found) := SkipHeaders(s, 0);
      found ==> 4 <= n && s[n - 4..n] == CRLF
  {
    SkipSound([], s, 0);
    var n := SkipHeaders(s, 0).0;
    assert [] + s[..n] == s[..n];
  }

  /**
   * Completeness, the general step: a terminator at offset `q` is found by
   * the time its last byte is read, provided the counter arrives at `q`
   * holding 0 or 2 (never 1 or 3, where the code's restart loses a CR).
   */
  lemma {:induction false} SkipFindsFrom(s: seq<byte>, j: nat, q: nat)
    requires j < |CRLF| && q + 4 <= |s| && s[q..q + 4] == CRLF
    requires q == 0 ==> j == 0 || j == 2
    requires q > 0 ==> s[q - 1] != CR
    ensures SkipHeaders(s, j).1 && SkipHeaders(s, j).0 <= q + 4
    decreases q
  {
    var (next, done) := FinishedReadingHeaders(j, s[0]);
    if q == 0 {
      assert s[0] == CR && s[1] == LF && s[2] == CR && s[3] == LF;
      var s1 := s[1..];
      var s2 := s1[1..];
      var s3 := s2[1..];
      assert s1[0] == LF && s2[0] == CR && s3[0] == LF;
      assert SkipHeaders(s3, 3) == (1, true);
      assert SkipHeaders(s1, 3) == (1, true);
      if j != 2 {
        assert SkipHeaders(s2, 2) == (2, true);
        assert SkipHeaders(s1, 1) == (3, true);
      }
    } else if !done {
      if q == 1 {
        assert s[0] != CR;
        assert next == 0 || next == 2;
      }
      var t := s[1..];
      assert t[q - 1..q + 3] == s[q..q + 4] by {
        assert s[q] == t[q - 1] && s[q + 1] == t[q] && s[q + 2] == t[q + 1] && s[q + 3] == t[q + 2];
      }
      assert q - 1 > 0 ==> t[q - 2] != CR;
      SkipFindsFrom(s[1..], next, q - 1);
    }
  }

  /**
   * Completeness: a scan started with the counter at 0 finds every
   * CR LF CR LF that is not preceded by a CR, by the time its last byte is
   * read. In a well-formed response the end of the header section is such an
   * occurrence.
   */
  lemma SkipFindsTerminator(s: seq<byte>, q: nat)
    requires q + 4 <= |s| && s[q..q + 4] == CRLF
    requires q > 0 ==> s[q - 1] != CR
    ensures SkipHeaders(s, 0).1 && SkipHeaders(s, 0).0 <= q + 4
  {
    SkipFindsFrom(s, 0, q);
  }

  /**
   * As written, the restart does not test the mismatching byte against CR,
   * so the terminator in CR CR LF CR LF goes unseen and the scan runs to the
   * end of the stream.
   */
  lemma SkipMissesAfterCR()
    ensures SkipHeaders([CR, CR, LF, CR, LF], 0) == (5, false)
  {
    var s: seq<byte> := [CR, CR, LF, CR, LF];
    assert s[1..] == [CR, LF, CR, LF];
    assert s[1..][1..] == [LF, CR, LF];
    assert s[1..][1..][1..] == [CR, LF];
    assert s[1..][1..][1..][1..] == [LF];
    assert s[1..][1..][1..][1..][1..] == [];
    assert SkipHeaders([LF], 2) == (1, false);
    assert SkipHeaders([CR, LF], 0) == (2, false);
    assert SkipHeaders([LF, CR, LF], 0) == (3, false);
    assert SkipHeaders([CR, LF, CR, LF], 1) == (4, false);
  }

  /**
   * Header text without CR or LF never advances the match: the scan over it
   * comes back to the start of the next CR or LF with the counter at 0.
   */
  lemma {:induction false} SkipPlainText(s: seq<byte>, j: nat, k: nat)
    requires j < |CRLF| && 0 < k <= |s|
    requires forall i :: 0 <= i < k ==> s[i] != CR && s[i] != LF
    ensures SkipHeaders(s, j) == (k + SkipHeaders(s[k..], 0).0, SkipHeaders(s[k..], 0).1)
    decreases k
  {
    assert FinishedReadingHeaders(j, s[0]) == (0, false);
    if k > 1 {
      SkipPlainText(s[1..], 0, k - 1);
      assert s[1..][k - 1..] == s[k..];
    }
  }
}
