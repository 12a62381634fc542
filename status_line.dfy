/**
 * The arithmetic of `extract_status_code`: the status code is read from the
 * fixed offsets 9 to 11 of the response ("HTTP/1.1 200 OK"), each byte adding
 * `(c - '0') * 10^(11 - j)` to the 16-bit `statusCode`.
 */
module StatusLine {
  import opened Wire

  const STATUS_CODE_START_INDEX: nat := 9
  const STATUS_CODE_END_INDEX: nat := 11
  /** Bytes of the response the extractor reads at most. */
  const STATUS_PREFIX: nat := STATUS_CODE_END_INDEX + 1

  function Pow10(e: nat): (r: nat)
    ensures r >= 1
  {
    if e == 0 then 1 else 10 * Pow10(e - 1)
  }

  /**
   * The amount added for byte `b` read at offset `j` of the status range,
   * before the reduction to 16 bits. Bytes that are not digits make
   * `c - '0'` negative or larger than 9, and the sum wraps.
   */
  function Term(j: nat, b: byte): (r: int)
    requires STATUS_CODE_START_INDEX <= j <= STATUS_CODE_END_INDEX
    ensures IsDigit(b) ==> 0 <= r <= 9 * Pow10(STATUS_CODE_END_INDEX - j)
    ensures !IsDigit(b) ==> r < 0 || r > 9 * Pow10(STATUS_CODE_END_INDEX - j)
  {
    (SignedChar(b) - '0' as int) * Pow10(STATUS_CODE_END_INDEX - j)
  }

  /**
   * `statusCode` after the extractor has read `head`, the first bytes of the
   * response, when it started out as `code`.
   */
  function StatusAfter(code: nat, head: seq<byte>): (r: nat)
    ensures |head| <= STATUS_CODE_START_INDEX ==> r == code
    ensures |head| > STATUS_CODE_START_INDEX ==> r < 0x1_0000
    decreases |head|
  {
    if |head| == 0 then code
    else
      var j := |head| - 1;
      var prev := StatusAfter(code, head[..j]);
      if j < STATUS_CODE_START_INDEX || j > STATUS_CODE_END_INDEX then prev
      else Wrap16(prev + Term(j, head[j]))
  }

  /**
   * One byte at a status offset read: adding the digit times the weight the
   * inner loop computed gives the extractor's code for one byte more.
   */
  lemma StatusStep(code: nat, s: seq<byte>, j: nat, multiplier: nat)
    requires STATUS_CODE_START_INDEX <= j <= STATUS_CODE_END_INDEX && j < |s|
    requires multiplier == Pow10(STATUS_CODE_END_INDEX - j)
    ensures StatusAfter(code, s[..j + 1])
         == Wrap16(StatusAfter(code, s[..j]) + (SignedChar(s[j]) - '0' as int) * multiplier)
  {
    assert s[..j + 1][..j] == s[..j];
  }

  /** The status bytes present in `head` are ASCII digits. */
  predicate DigitsAt(head: seq<byte>)
  {
    forall j :: STATUS_CODE_START_INDEX <= j < |head| && j <= STATUS_CODE_END_INDEX ==> IsDigit(head[j])
  }

  /**
   * The decimal value of the status digits `head` holds, each weighted by
   * its place: 100, 10, 1 for offsets 9, 10, 11; a missing digit adds
   * nothing.
   */
  function DigitSum(head: seq<byte>): nat
    requires DigitsAt(head)
  {
    (if |head| > 9 then 100 * DigitValue(head[9]) else 0)
    + (if |head| > 10 then 10 * DigitValue(head[10]) else 0)
    + (if |head| > 11 then DigitValue(head[11]) else 0)
  }

  /**
   * With ASCII digits at the status offsets the extractor, started from the
   * reset value 0, computes their decimal value (leading zeros allowed), and
   * nothing wraps: the code lies in 0..999. A response that ends before
   * offset 11 leaves the partial sum of the digits that did arrive.
   */
  lemma {:induction false} StatusOfDigits(head: seq<byte>)
    requires |head| <= STATUS_PREFIX && DigitsAt(head)
    ensures StatusAfter(0, head) == DigitSum(head) <= 999
    decreases |head|
  {
    if |head| > STATUS_CODE_START_INDEX {
      var j := |head| - 1;
      var prev := head[..j];
      assert DigitsAt(prev);
      StatusOfDigits(prev);
      var d := DigitValue(head[j]);
      var w := Pow10(STATUS_CODE_END_INDEX - j);
      assert w == if j == 9 then 100 else if j == 10 then 10 else 1 by {
        assert Pow10(0) == 1 && Pow10(1) == 10 && Pow10(2) == 100;
      }
      assert Term(j, head[j]) == d * w;
      assert DigitSum(head) == DigitSum(prev) + d * w;
    }
  }

  /** Twelve bytes whose last three are digits give the three-digit code. */
  lemma StatusCodeValue(head: seq<byte>)
    requires |head| == STATUS_PREFIX && DigitsAt(head)
    ensures StatusAfter(0, head) == 100 * DigitValue(head[9]) + 10 * DigitValue(head[10]) + DigitValue(head[11])
    ensures StatusAfter(0, head) <= 999
  {
    StatusOfDigits(head);
  }

  /** "HTTP/1.1 200 OK": the extractor reads "HTTP/1.1 200" and finds 200. */
  lemma StatusExampleOk()
    ensures StatusAfter(0, Ascii("HTTP/1.1 200 OK")[..12]) == 200
  {
    var head := Ascii("HTTP/1.1 200 OK")[..12];
    assert head[9] == 50 && head[10] == 48 && head[11] == 48;
    StatusCodeValue(head);
  }

  /** A leading zero is accepted: "050" is 50. */
  lemma StatusExampleLeadingZero()
    ensures StatusAfter(0, Ascii("HTTP/1.1 050")) == 50
  {
    var head := Ascii("HTTP/1.1 050");
    assert head[9] == 48 && head[10] == 53 && head[11] == 48;
    StatusCodeValue(head);
  }

  /** The extreme codes "000" and "999". */
  lemma StatusExampleBounds()
    ensures StatusAfter(0, Ascii("HTTP/1.1 000")) == 0
    ensures StatusAfter(0, Ascii("HTTP/1.1 999")) == 999
  {
    var low := Ascii("HTTP/1.1 000");
    assert low[9] == 48 && low[10] == 48 && low[11] == 48;
    StatusCodeValue(low);
    var high := Ascii("HTTP/1.1 999");
    assert high[9] == 57 && high[10] == 57 && high[11] == 57;
    StatusCodeValue(high);
  }

  /** A response cut off after the first digit keeps the partial sum. */
  lemma StatusExamplePartial()
    ensures StatusAfter(0, Ascii("HTTP/1.1 4")) == 400
  {
    var head := Ascii("HTTP/1.1 4");
    assert head[9] == 52;
    StatusOfDigits(head);
  }

  /**
   * A space where the first digit should be: `' ' - '0'` is -16, times 100,
   * and the 16-bit sum wraps to 65536 - 1600.
   */
  lemma StatusWrapExample()
    ensures StatusAfter(0, Ascii("HTTP/1.1  00")) == 63936
  {
    var head := Ascii("HTTP/1.1  00");
    assert Pow10(0) == 1 && Pow10(1) == 10 && Pow10(2) == 100;
    assert StatusAfter(0, head[..9]) == 0;
    assert head[..10][..9] == head[..9];
    assert StatusAfter(0, head[..10]) == 63936;
    assert head[..11][..10] == head[..10];
    assert StatusAfter(0, head[..11]) == 63936;
    assert head[..11] == head[..|head| - 1];
  }
}
