/**
 * The amount field of a simple request: concert_simple_request prints its
 * `unsigned int` amount with `%08u` into a 9-byte buffer (concert.c:180-181).
 */
module Amount {
  import opened Protocol

  /** An `unsigned int` of the C implementation: 32 bits. */
  type Uint32 = x: int | 0 <= x < 0x1_0000_0000

  function Pow10(k: nat): (p: nat)
    ensures p >= 1
  {
    if k == 0 then 1 else 10 * Pow10(k - 1)
  }

  function DigitChar(d: nat): (c: char)
    requires d < 10
    ensures IsDigit(c)
  {
    ('0' as int + d) as char
  }

  /** The decimal digits of n without leading zeros ("0" for zero), as `%u` prints them. */
  function Decimal(n: nat): (s: string)
    ensures |s| >= 1 && AllDigits(s)
  {
    if n < 10 then [DigitChar(n)] else Decimal(n / 10) + [DigitChar(n % 10)]
  }

  /** The number a string of decimal digits denotes. */
  function Value(s: string): nat
    requires AllDigits(s)
  {
    if s == [] then 0 else Value(s[..|s| - 1]) * 10 + (s[|s| - 1] as int - '0' as int)
  }

  function Zeros(k: nat): (s: string)
    ensures |s| == k && AllDigits(s)
  {
    seq(k, _ => '0')
  }

  /** The text `%08u` produces: the digits of n, left-padded with '0' to eight characters. */
  function Printed(n: nat): (s: string)
    ensures |s| >= 8 && AllDigits(s)
  {
    var d := Decimal(n);
    if |d| < 8 then Zeros(8 - |d|) + d else d
  }

  /**
   * The amount field: snprintf into a 9-byte buffer keeps the first eight
   * characters of the printed text and a NUL. Whatever the amount, the
   * result is eight digits, so it always passes the amount check.
   */
  function FormatAmount(amount: Uint32): (s: CStr)
    ensures |s| == 8 && AllDigits(s)
  {
    Printed(amount)[..8]
  }

  /** Reading back the digits of n gives n. */
  lemma {:induction false} ValueOfDecimal(n: nat)
    ensures Value(Decimal(n)) == n
  {
    if n >= 10 {
      var s, c := Decimal(n / 10), DigitChar(n % 10);
      assert (s + [c])[..|s|] == s;
      ValueOfDecimal(n / 10);
    }
  }

  /** Leading zeros do not change the value. */
  lemma {:induction false} ValueOfPadded(k: nat, s: string)
    requires AllDigits(s)
    ensures Value(Zeros(k) + s) == Value(s)
    decreases |s|, k
  {
    if s == [] {
      assert Zeros(k) + s == Zeros(k);
      if k > 0 {
        assert Zeros(k)[..k - 1] == Zeros(k - 1) + [];
        ValueOfPadded(k - 1, []);
      }
    } else {
      var init := s[..|s| - 1];
      assert (Zeros(k) + s)[..|Zeros(k) + s| - 1] == Zeros(k) + init;
      ValueOfPadded(k, init);
    }
  }

  /** n has at most k digits exactly when n < 10^k. */
  lemma {:induction false} DecimalLength(n: nat, k: nat)
    requires k >= 1
    ensures |Decimal(n)| <= k <==> n < Pow10(k)
  {
    if n >= 10 {
      if k == 1 {
        assert |Decimal(n)| >= 2 by {
          assert |Decimal(n)| == |Decimal(n / 10)| + 1;
        }
      } else {
        DecimalLength(n / 10, k - 1);
      }
    }
  }

  /** An amount below 10^8 is printed as its eight-digit zero-padded decimal form, which reads back as the amount. */
  lemma FormatSmallAmount(amount: Uint32)
    requires amount < Pow10(8)
    ensures |Decimal(amount)| <= 8
    ensures FormatAmount(amount) == Zeros(8 - |Decimal(amount)|) + Decimal(amount)
    ensures Value(FormatAmount(amount)) == amount
  {
    DecimalLength(amount, 8);
    ValueOfDecimal(amount);
    ValueOfPadded(8 - |Decimal(amount)|, Decimal(amount));
  }

  /** A larger amount keeps only its first eight digits: the rest do not fit the buffer. */
  lemma FormatLargeAmount(amount: Uint32)
    requires amount >= Pow10(8)
    ensures |Decimal(amount)| > 8
    ensures FormatAmount(amount) == Decimal(amount)[..8]
  {
    DecimalLength(amount, 8);
  }

  /** The amount of the request scenario: 12599 cents becomes "00012599". */
  lemma FormatExample()
    ensures FormatAmount(12599) == "00012599"
  {
    assert Decimal(1) == "1";
    assert Decimal(12) == "12";
    assert Decimal(125) == "125";
    assert Decimal(1259) == "1259";
    assert Decimal(12599) == "12599";
  }
}
