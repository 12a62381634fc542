/**
 * Bytes and characters as the sketch sees them on an AVR target, and the two
 * pieces of text formatting the requests rely on: `snprintf` into a 100-byte
 * line buffer and `Print::println` of an unsigned number.
 */
module Wire {

  /** One 8-bit `char` as it travels on the wire. */
  newtype byte = x: int | 0 <= x < 256

  datatype Option<T> = None | Some(value: T)

  const CR: byte := 13
  const LF: byte := 10
  const NUL: byte := 0

  function Min(a: int, b: int): int
  {
    if a <= b then a else b
  }

  /** The value of a byte read into a `char`, which avr-gcc treats as signed. */
  function SignedChar(b: byte): (v: int)
    ensures -128 <= v < 128
    ensures v % 256 == b as int
  {
    if b < 128 then b as int else b as int - 256
  }

  predicate IsDigit(b: byte)
  {
    '0' as int <= b as int <= '9' as int
  }

  function DigitValue(b: byte): (d: nat)
    requires IsDigit(b)
    ensures d < 10 && d == SignedChar(b) - '0' as int
  {
    b as int - '0' as int
  }

  /** Reduction into the 16-bit `unsigned int` of the target. */
  function Wrap16(x: int): (r: nat)
    ensures r < 0x1_0000
    ensures (x - r) % 0x1_0000 == 0
    ensures 0 <= x < 0x1_0000 ==> r == x
  {
    x % 0x1_0000
  }

  /** The bytes of a text, one per character; an ASCII character is its own code. */
  function Ascii(s: string): (r: seq<byte>)
    ensures |r| == |s|
    ensures forall i :: 0 <= i < |s| ==> r[i] as int == s[i] as int % 256
  {
    seq(|s|, i requires 0 <= i < |s| => (s[i] as int % 256) as byte)
  }

  /** The bytes of two texts one after the other. */
  lemma AsciiAppend(a: string, b: string)
    ensures Ascii(a + b) == Ascii(a) + Ascii(b)
  {
    assert forall i :: 0 <= i < |a + b| ==> (a + b)[i] == if i < |a| then a[i] else b[i - |a|];
  }

  // ---------------------------------------------------------------------
  // snprintf(buf, 100, ...): at most 99 characters survive, then the NUL.

  /** Size of the line buffer both request functions format into. */
  const LINE_BUFFER: nat := 100

  /** What `println(buf)` sends after `snprintf(buf, LINE_BUFFER, ...)` produced `s`. */
  function Snprintf(s: string): (r: string)
    ensures |r| == Min(|s|, LINE_BUFFER - 1)
    ensures r <= s
  {
    s[..Min(|s|, LINE_BUFFER - 1)]
  }

  // ---------------------------------------------------------------------
  // Print::println: the text, then CR LF; a number in base 10, most
  // significant digit first.

  /** What `println` sends after its argument. */
  const EOL: string := "\r\n"

  predicate IsDigitChar(c: char)
  {
    '0' <= c <= '9'
  }

  function DigitChar(d: nat): (c: char)
    requires d < 10
    ensures IsDigitChar(c)
  {
    ('0' as int + d) as char
  }

  function CharDigit(c: char): (d: nat)
    requires IsDigitChar(c)
    ensures d < 10
    ensures forall e :: 0 <= e < 10 && DigitChar(e) == c ==> d == e
  {
    c as int - '0' as int
  }

  /** The decimal text of `n`: digits only, and no leading zero. */
  function Decimal(n: nat): (s: string)
    ensures |s| >= 1
    ensures forall i :: 0 <= i < |s| ==> IsDigitChar(s[i])
    ensures s[0] == '0' ==> n == 0
    decreases n
  {
    if n < 10 then [DigitChar(n)] else Decimal(n / 10) + [DigitChar(n % 10)]
  }

  /** Reads a decimal number back; None unless `s` is a non-empty run of digits. */
  function ParseDecimal(s: string): (r: Option<nat>)
    decreases |s|
  {
    if s == [] || !IsDigitChar(s[|s| - 1]) then None
    else if |s| == 1 then Some(CharDigit(s[0]))
    else match ParseDecimal(s[..|s| - 1])
      case None => None
      case Some(v) => Some(10 * v + CharDigit(s[|s| - 1]))
  }

  /** A receiver reading the printed number gets the number back. */
  lemma {:induction false} DecimalRoundTrip(n: nat)
    ensures ParseDecimal(Decimal(n)) == Some(n)
    decreases n
  {
    if n >= 10 {
      var s := Decimal(n);
      assert s[..|s| - 1] == Decimal(n / 10);
      assert s[|s| - 1] == DigitChar(n % 10);
      DecimalRoundTrip(n / 10);
    }
  }
}
