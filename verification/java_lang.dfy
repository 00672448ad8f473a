/** The few pieces of the Java platform the lock and the limiter rely on:
    fixed-width `int`/`long` arithmetic as `AtomicInteger` and `long`
    perform it, `StringUtils.isBlank`, and `String.valueOf(long)`. */
module JavaLang {
  import opened Wrappers

  const IntMin: int := -0x8000_0000
  const IntMax: int := 0x7fff_ffff
  const LongMin: int := -0x8000_0000_0000_0000
  const LongMax: int := 0x7fff_ffff_ffff_ffff

  /** A Java `int`. */
  type Int32 = x: int | -0x8000_0000 <= x <= 0x7fff_ffff

  /** A Java `long`. */
  type Int64 = x: int | -0x8000_0000_0000_0000 <= x <= 0x7fff_ffff_ffff_ffff

  /** Two's-complement truncation of an exact integer to 32 bits. */
  function WrapInt(x: int): (r: Int32)
    ensures IntMin <= x <= IntMax ==> r == x
    ensures IntMax < x <= IntMax + 0x1_0000_0000 ==> r == x - 0x1_0000_0000
    ensures IntMin - 0x1_0000_0000 <= x < IntMin ==> r == x + 0x1_0000_0000
  {
    (x - IntMin) % 0x1_0000_0000 + IntMin
  }

  /** Two's-complement truncation of an exact integer to 64 bits. */
  function WrapLong(x: int): (r: Int64)
    ensures LongMin <= x <= LongMax ==> r == x
    ensures LongMax < x <= LongMax + 0x1_0000_0000_0000_0000 ==> r == x - 0x1_0000_0000_0000_0000
    ensures LongMin - 0x1_0000_0000_0000_0000 <= x < LongMin ==> r == x + 0x1_0000_0000_0000_0000
  {
    (x - LongMin) % 0x1_0000_0000_0000_0000 + LongMin
  }

  /** `AtomicInteger.incrementAndGet`: one up, wrapping from the largest int to the smallest. */
  function IncrementAndGet(x: Int32): (r: Int32)
    ensures x < IntMax ==> r == x + 1
    ensures x == IntMax ==> r == IntMin
  {
    WrapInt(x + 1)
  }

  /** `AtomicInteger.decrementAndGet`: one down, wrapping from the smallest int to the largest. */
  function DecrementAndGet(x: Int32): (r: Int32)
    ensures x > IntMin ==> r == x - 1
    ensures x == IntMin ==> r == IntMax
  {
    WrapInt(x - 1)
  }

  /** `AtomicInteger.addAndGet`: the exact sum when it fits, otherwise wrapped once. */
  function AddAndGet(x: Int32, delta: Int32): (r: Int32)
    ensures IntMin <= x + delta <= IntMax ==> r == x + delta
    ensures x + delta > IntMax ==> r == x + delta - 0x1_0000_0000
    ensures x + delta < IntMin ==> r == x + delta + 0x1_0000_0000
  {
    WrapInt(x + delta)
  }

  /** `a + b` on two Java `long`s. */
  function AddLong(a: Int64, b: Int64): (r: Int64)
    ensures LongMin <= a + b <= LongMax ==> r == a + b
    ensures a + b > LongMax ==> r == a + b - 0x1_0000_0000_0000_0000
    ensures a + b < LongMin ==> r == a + b + 0x1_0000_0000_0000_0000
  {
    WrapLong(a + b)
  }

  /** `Character.isWhitespace`: the Unicode space, line and paragraph
      separators other than the three no-break spaces, plus the ASCII
      control characters tab, line feed, vertical tab, form feed, carriage
      return and the four information separators U+001C..U+001F. */
  function IsWhitespace(c: char): (r: bool)
    ensures c == ' ' || c == '\t' || c == '\n' || c == '\r' ==> r
    ensures c == '\U{00A0}' || c == '\U{2007}' || c == '\U{202F}' ==> !r
    ensures '!' <= c <= '~' ==> !r
  {
    var n := c as int;
    || 0x09 <= n <= 0x0D
    || 0x1C <= n <= 0x20
    || n == 0x1680
    || 0x2000 <= n <= 0x2006
    || 0x2008 <= n <= 0x200A
    || n == 0x2028 || n == 0x2029
    || n == 0x205F
    || n == 0x3000
  }

  /** `StringUtils.isBlank`: null, empty, or whitespace only. */
  function IsBlank(s: Option<string>): (r: bool)
    ensures s == Some("") ==> r
    ensures !r <==> s.Some? && exists i :: 0 <= i < |s.value| && !IsWhitespace(s.value[i])
  {
    s.None? || forall i :: 0 <= i < |s.value| ==> IsWhitespace(s.value[i])
  }

  /** The scan `StringUtils.isBlank` performs: the length test, then
      `Character.isWhitespace(cs.charAt(i))` for each index in turn,
      returning false at the first character that is not whitespace. */
  method ScanIsBlank(s: Option<string>) returns (r: bool)
    ensures r == IsBlank(s)
  {
    if s.None? || |s.value| == 0 {
      return true;
    }
    var i := 0;
    while i < |s.value|
      invariant 0 <= i <= |s.value|
      invariant forall k :: 0 <= k < i ==> IsWhitespace(s.value[k])
    {
      if !IsWhitespace(s.value[i]) {
        return false;
      }
      i := i + 1;
    }
    return true;
  }

  predicate IsDigit(c: char)
  {
    '0' <= c <= '9'
  }

  function DigitChar(d: int): (c: char)
    requires 0 <= d < 10
    ensures IsDigit(c)
  {
    (48 + d) as char
  }

  function DigitValue(c: char): (d: nat)
    requires IsDigit(c)
    ensures d < 10
  {
    c as int - 48
  }

  /** The decimal digits of a natural number, without leading zeros. */
  function Digits(n: nat): (s: string)
    ensures |s| > 0
    ensures forall i :: 0 <= i < |s| ==> IsDigit(s[i])
    ensures s[0] != '0' || n == 0
    decreases n
  {
    if n < 10 then [DigitChar(n)] else Digits(n / 10) + [DigitChar(n % 10)]
  }

  /** `String.valueOf(long)`: a minus sign for negatives, then the digits. */
  function DecimalString(n: int): (s: string)
    ensures |s| > 0
    ensures s[0] == '-' <==> n < 0
    ensures n < 0 ==> |s| > 1 && s[1] != '0' && forall i :: 1 <= i < |s| ==> IsDigit(s[i])
    ensures n >= 0 ==> (s[0] != '0' || s == "0") && forall i :: 0 <= i < |s| ==> IsDigit(s[i])
  {
    if n < 0 then "-" + Digits(-n) else Digits(n)
  }

  /** The value of a string of decimal digits, most significant first. */
  function ParseDigits(s: string): nat
    requires forall i :: 0 <= i < |s| ==> IsDigit(s[i])
    decreases |s|
  {
    if |s| == 0 then 0 else 10 * ParseDigits(s[..|s| - 1]) + DigitValue(s[|s| - 1])
  }

  /** An optional minus sign followed by decimal digits. */
  predicate IsDecimalText(s: string)
  {
    && |s| > 0
    && (s[0] == '-' ==> forall i :: 1 <= i < |s| ==> IsDigit(s[i]))
    && (s[0] != '-' ==> forall i :: 0 <= i < |s| ==> IsDigit(s[i]))
  }

  /** The inverse of `DecimalString`. */
  function ParseDecimal(s: string): int
    requires IsDecimalText(s)
  {
    if s[0] == '-' then -(ParseDigits(s[1..]) as int) else ParseDigits(s)
  }

  lemma {:induction false} ParseDigitsOfDigits(n: nat)
    ensures ParseDigits(Digits(n)) == n
    decreases n
  {
    if n >= 10 {
      var s := Digits(n);
      assert s[..|s| - 1] == Digits(n / 10);
      ParseDigitsOfDigits(n / 10);
    }
  }

  /** Reading back the decimal text of a number gives the number. */
  lemma DecimalRoundTrip(n: int)
    ensures IsDecimalText(DecimalString(n))
    ensures ParseDecimal(DecimalString(n)) == n
  {
    var s := DecimalString(n);
    if n < 0 {
      assert s[1..] == Digits(-n);
      ParseDigitsOfDigits(-n);
    } else {
      ParseDigitsOfDigits(n);
    }
  }

  /** Distinct numbers have distinct decimal texts. */
  lemma DecimalInjective(a: int, b: int)
    requires DecimalString(a) == DecimalString(b)
    ensures a == b
  {
    DecimalRoundTrip(a);
    DecimalRoundTrip(b);
  }
}
