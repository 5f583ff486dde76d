/** Decimal numerals: what `std::to_string` and `operator<<` print, and what `std::from_chars` reads. */
module Digits {
  import opened Wrappers

  const INT64_MAX: int := 0x7FFF_FFFF_FFFF_FFFF
  const INT64_MIN: int := -0x8000_0000_0000_0000

  predicate FitsInt64(n: int) {
    INT64_MIN <= n <= INT64_MAX
  }

  predicate IsDigit(c: char) {
    '0' <= c <= '9'
  }

  predicate AllDigits(s: string) {
    forall i :: 0 <= i < |s| ==> IsDigit(s[i])
  }

  function DigitOf(d: nat): (c: char)
    requires d < 10
    ensures IsDigit(c)
  {
    '0' + d as char
  }

  function ValueOfDigit(c: char): nat
    requires IsDigit(c)
  {
    c as nat - '0' as nat
  }

  /** The decimal numeral of n, without leading zeros. */
  function Render(n: nat): (s: string)
    ensures |s| > 0 && AllDigits(s)
  {
    if n < 10 then [DigitOf(n)] else Render(n / 10) + [DigitOf(n % 10)]
  }

  function RenderInt(n: int): string {
    if n < 0 then "-" + Render(-n) else Render(n)
  }

  /** The number a run of digits stands for; leading zeros are allowed. */
  function Value(s: string): nat
    requires AllDigits(s)
  {
    if s == "" then 0 else 10 * Value(s[..|s| - 1]) + ValueOfDigit(s[|s| - 1])
  }

  lemma {:induction false} ValueOfRender(n: nat)
    ensures Value(Render(n)) == n
  {
    if n >= 10 {
      ValueOfRender(n / 10);
      var s := Render(n);
      assert s[..|s| - 1] == Render(n / 10);
    }
  }

  lemma RenderInjective(m: nat, n: nat)
    requires Render(m) == Render(n)
    ensures m == n
  {
    ValueOfRender(m);
    ValueOfRender(n);
  }

  /** Only zero starts with the digit zero. */
  lemma {:induction false} NoLeadingZero(n: nat)
    ensures Render(n)[0] == '0' <==> n == 0
  {
    if n >= 10 {
      NoLeadingZero(n / 10);
    }
  }

  /** from_chars into an int64: an optional minus sign and at least one digit, all of the text,
      and a value in range. */
  function FromChars(s: string): (r: Option<int>)
    ensures r.Some? ==> FitsInt64(r.value)
  {
    var body := if s != "" && s[0] == '-' then s[1..] else s;
    if body == "" || !AllDigits(body) then None
    else
      var n: int := if s[0] == '-' then 0 - Value(body) else Value(body);
      if FitsInt64(n) then Some(n) else None
  }

  /** Printing an int64 and reading it back. */
  lemma FromCharsOfRender(n: int)
    requires FitsInt64(n)
    ensures FromChars(RenderInt(n)) == Some(n)
  {
    if n < 0 {
      ValueOfRender(-n);
      assert RenderInt(n)[1..] == Render(-n);
    } else {
      ValueOfRender(n);
    }
  }

  // ------------------------------------------------------------------ by code points

  /** Numerals digit by digit. */
  lemma NumeralsByCode(n: nat, d: nat)
    requires d < 10
    ensures Render(d) == [(0x30 + d) as char]
    ensures n > 0 ==> Render(10 * n + d) == Render(n) + [(0x30 + d) as char]
    ensures n > 0 ==> RenderInt(-(n as int)) == "-" + Render(n) && RenderInt(n) == Render(n)
  {
    if n > 0 {
      assert (10 * n + d) / 10 == n && (10 * n + d) % 10 == d;
    }
  }

  /** Every numeral is read as its number if that is an int64. */
  lemma NumeralsAreRead(n: int)
    ensures FromChars(RenderInt(n))
      == if -0x8000_0000_0000_0000 <= n <= 0x7FFF_FFFF_FFFF_FFFF then Some(n) else None
  {
    hide Value, Render;
    if n < 0 {
      ValueOfRender(-n);
      assert RenderInt(n)[1..] == Render(-n);
    } else {
      ValueOfRender(n);
      assert IsDigit(Render(n)[0]);
    }
  }

  predicate IsNumeral(s: string) {
    s != "" && forall i :: 0 <= i < |s| ==> 0x30 <= s[i] as nat <= 0x39
  }

  /** Leading zeros are allowed, and nothing but digits behind an optional minus. */
  lemma OnlyNumeralsAreRead(s: string)
    ensures IsNumeral(s) ==> FromChars("0" + s) == FromChars(s) && FromChars("-0" + s) == FromChars("-" + s)
    ensures FromChars(s).Some? ==> IsNumeral(s) || (s[0] == '-' && IsNumeral(s[1..]))
  {
    if IsNumeral(s) {
      assert AllDigits(s) && IsDigit(s[0]);
      ValueOfMoreZeros(s);
      assert ("-0" + s)[1..] == "0" + s && ("-" + s)[1..] == s;
    }
  }

  lemma {:induction false} ValueOfMoreZeros(s: string)
    requires AllDigits(s)
    ensures AllDigits("0" + s) && Value("0" + s) == Value(s)
    decreases |s|
  {
    if s == "" {
      assert ("0" + s)[..0] == "";
      assert "0" + s == "0";
    } else {
      var n := |s| - 1;
      ValueOfMoreZeros(s[..n]);
      assert ("0" + s)[..|s|] == "0" + s[..n];
    }
  }
}
