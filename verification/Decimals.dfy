/** Decimal and duration constants (src/compiler/semantics/const_sema.cpp). A decimal is a number of
    units of ten to the minus scale. */
module Decimals {
  import opened Wrappers
  import opened Digits

  datatype Decimal = Decimal(units: int, scale: int)

  function Pow10(n: nat): nat {
    if n == 0 then 1 else 10 * Pow10(n - 1)
  }

  /** The quotient of C++, which drops the fraction. */
  function TruncatedQuotient(a: int, b: int): int
    requires b > 0
  {
    if a >= 0 then a / b else -((-a) / b)
  }

  // ------------------------------------------------------------------- powers of ten

  lemma {:induction false} Pow10Grows(m: nat, n: nat)
    requires m <= n
    ensures 0 < Pow10(m) <= Pow10(n)
  {
    if n > 0 {
      if m == n { Pow10Grows(m - 1, n - 1); } else { Pow10Grows(m, n - 1); }
    }
  }

  lemma LargestPower()
    ensures Pow10(18) == 1_000_000_000_000_000_000
    ensures Pow10(18) <= INT64_MAX < Pow10(19)
  {
    assert Pow10(3) == 1_000;
    assert Pow10(6) == 1_000_000;
    assert Pow10(9) == 1_000_000_000;
    assert Pow10(12) == 1_000_000_000_000;
    assert Pow10(15) == 1_000_000_000_000_000;
  }

  /** Defined exactly for the powers that fit. */
  method Pow10I64(exponent: int) returns (r: Option<int>)
    ensures r == if 0 <= exponent <= 18 then Some(Pow10(exponent)) else None
    ensures r.Some? <==> exponent >= 0 && FitsInt64(Pow10(exponent))
  {
    LargestPower();
    if exponent < 0 {
      return None;
    }
    if exponent > 18 { Pow10Grows(19, exponent); } else { Pow10Grows(exponent, 18); }
    var result := 1;
    for index := 0 to exponent
      invariant result == Pow10(index) && index <= 18
    {
      if index < 18 { Pow10Grows(index + 1, 18); }
      if result > TruncatedQuotient(INT64_MAX, 10) {
        return None;
      }
      result := result * 10;
    }
    r := Some(result);
  }

  // -------------------------------------------------------------- rendering, parsing

  function Zeros(n: nat): (s: string)
    ensures |s| == n && AllDigits(s)
  {
    seq(n, _ => '0')
  }

  /** A number printed with a field width, filled up with zeros. */
  function Padded(n: nat, width: int): (s: string)
    ensures AllDigits(s)
  {
    var digits := Render(n);
    Zeros(if width > |digits| then width - |digits| else 0) + digits
  }

  /** What a scale without a power of ten divides by is one. */
  function Divisor(scale: int): (d: nat)
    ensures d > 0
  {
    if 0 <= scale <= 18 then
      Pow10Grows(0, scale);
      Pow10(scale)
    else 1
  }

  function Magnitude(n: int): nat {
    if n < 0 then -n else n
  }

  function Quotient(n: nat, m: nat): nat
    requires m > 0
  {
    n / m
  }

  function WholePart(d: Decimal): nat {
    Quotient(Magnitude(d.units), Divisor(d.scale))
  }

  function FractionPart(d: Decimal): nat {
    Magnitude(d.units) % Divisor(d.scale)
  }

  function Written(negative: bool, whole: string, fraction: string): string {
    (if negative then "-" else "") + (whole + "." + fraction) + "d"
  }

  function RenderDecimal(d: Decimal): string {
    Written(d.units < 0, Render(WholePart(d)), Padded(FractionPart(d), d.scale))
  }

  function WithoutSuffix(text: string): string {
    if text != "" && (text[|text| - 1] == 'd' || text[|text| - 1] == 'D') then text[..|text| - 1] else text
  }

  predicate HasSign(text: string) {
    text != "" && (text[0] == '-' || text[0] == '+')
  }

  /** Where the first dot is, or the length when there is none. */
  function DotAt(text: string): (k: nat)
    ensures k <= |text| && (k < |text| ==> text[k] == '.') && '.' !in text[..k]
  {
    if text == "" || text[0] == '.' then 0
    else
      assert text[..DotAt(text[1..]) + 1] == [text[0]] + text[1..][..DotAt(text[1..])];
      DotAt(text[1..]) + 1
  }

  function ParseUnsigned(body: string, negative: bool): Option<Decimal> {
    var dot := DotAt(body);
    if dot == |body| then None
    else
      var digits := body[..dot] + body[dot + 1..];
      if !AllDigits(digits) || FromChars(digits).None? then None
      else
        var units := FromChars(digits).value;
        Some(Decimal(if negative then -units else units, |body| - dot - 1))
  }

  function ParseDecimal(text: string): Option<Decimal> {
    var t := WithoutSuffix(text);
    ParseUnsigned(if HasSign(t) then t[1..] else t, HasSign(t) && t[0] == '-')
  }

  /** All characters but the dot, if they are digits. */
  method DigitsAround(t: string, dot: nat) returns (digits: Option<string>)
    requires dot < |t|
    ensures digits == if AllDigits(t[..dot] + t[dot + 1..]) then Some(t[..dot] + t[dot + 1..]) else None
  {
    ghost var all := t[..dot] + t[dot + 1..];
    var read := "";
    for index := 0 to |t|
      invariant read == all[..if index <= dot then index else index - 1]
      invariant AllDigits(read)
    {
      if index == dot {
        continue;
      }
      assert t[index] == all[|read|];
      if !IsDigit(t[index]) {
        return None;
      }
      read := read + [t[index]];
    }
    assert read == all;
    digits := Some(read);
  }

  method ParseDecimalConst(text: string) returns (r: Option<Decimal>)
    ensures r == ParseDecimal(text)
  {
    hide FromChars, DotAt;
    if text == "" {
      assert DotAt("") == 0;
      return None;
    }
    var t := text;
    if t[|t| - 1] == 'd' || t[|t| - 1] == 'D' {
      t := t[..|t| - 1];
    }
    var negative := false;
    if t != "" && (t[0] == '-' || t[0] == '+') {
      negative := t[0] == '-';
      t := t[1..];
    }
    var dot := DotAt(t);
    if dot == |t| {
      return None;
    }
    var digits := DigitsAround(t, dot);
    if digits.None? {
      return None;
    }
    var units := FromChars(digits.value);
    if units.None? {
      return None;
    }
    r := Some(Decimal(if negative then -units.value else units.value, |t| - dot - 1));
  }

  // ---------------------------------------------------------------------- round trip

  lemma Tenfold(v: nat, p: nat)
    ensures v * (10 * p) == 10 * (v * p)
  {
  }

  lemma {:induction false} ValueOfJoined(a: string, b: string)
    requires AllDigits(a) && AllDigits(b)
    ensures AllDigits(a + b) && Value(a + b) == Value(a) * Pow10(|b|) + Value(b)
    decreases |b|
  {
    if b == "" {
      assert a + b == a;
    } else {
      var n := |b| - 1;
      ValueOfJoined(a, b[..n]);
      assert (a + b)[..|a| + n] == a + b[..n] && (a + b)[|a| + n] == b[n];
      Tenfold(Value(a), Pow10(n));
      assert Pow10(|b|) == 10 * Pow10(n);
    }
  }

  lemma {:induction false} ValueOfZeros(n: nat)
    ensures Value(Zeros(n)) == 0
  {
    if n > 0 {
      assert Zeros(n)[..n - 1] == Zeros(n - 1);
      ValueOfZeros(n - 1);
    }
  }

  lemma {:induction false} RenderedLength(n: nat, width: nat)
    requires width > 0 && n < Pow10(width)
    ensures |Render(n)| <= width
    decreases width
  {
    if n >= 10 {
      assert Pow10(width) == 10 * Pow10(width - 1);
      PowerOfNothing();
      RenderedLength(n / 10, width - 1);
    }
  }

  lemma PaddedIs(n: nat, width: int)
    ensures Value(Padded(n, width)) == n
    ensures width > 0 && n < Pow10(width) ==> |Padded(n, width)| == width
    ensures width <= 0 ==> Padded(n, width) == Render(n)
  {
    var fill := if width > |Render(n)| then width - |Render(n)| else 0;
    ValueOfZeros(fill);
    ValueOfJoined(Zeros(fill), Render(n));
    ValueOfRender(n);
    if width > 0 && n < Pow10(width) {
      RenderedLength(n, width);
    }
  }

  lemma FromCharsOfDigits(s: string)
    requires AllDigits(s) && s != ""
    ensures FromChars(s) == if Value(s) <= INT64_MAX then Some(Value(s)) else None
  {
  }

  lemma {:induction false} DotAfter(whole: string, fraction: string)
    requires AllDigits(whole)
    ensures DotAt(whole + "." + fraction) == |whole|
  {
    if whole != "" {
      assert (whole + "." + fraction)[1..] == whole[1..] + "." + fraction;
      assert IsDigit(whole[0]);
      DotAfter(whole[1..], fraction);
    }
  }

  lemma ParseBody(negative: bool, whole: string, fraction: string)
    requires AllDigits(whole) && AllDigits(fraction) && whole != ""
    ensures AllDigits(whole + fraction)
    ensures var u: int := Value(whole + fraction);
      ParseUnsigned(whole + "." + fraction, negative)
      == if u <= INT64_MAX then Some(Decimal(if negative then -u else u, |fraction|)) else None
  {
    hide FromChars, DotAt, Value;
    var body := whole + "." + fraction;
    DotAfter(whole, fraction);
    assert body[..|whole|] + body[|whole| + 1..] == whole + fraction;
    FromCharsOfDigits(whole + fraction);
  }

  /** What a written decimal is read as: the scale is the number of places. */
  lemma ParseWritten(negative: bool, whole: string, fraction: string)
    requires AllDigits(whole) && AllDigits(fraction) && whole != ""
    ensures AllDigits(whole + fraction)
    ensures var u: int := Value(whole + fraction);
      ParseDecimal(Written(negative, whole, fraction))
      == if u <= INT64_MAX then Some(Decimal(if negative then -u else u, |fraction|)) else None
  {
    hide ParseUnsigned, Value;
    var body := whole + "." + fraction;
    var t := WithoutSuffix(Written(negative, whole, fraction));
    assert t == (if negative then "-" else "") + body;
    assert IsDigit(whole[0]) && body[0] == whole[0];
    if negative {
      assert t[1..] == body;
    } else {
      assert t == body;
    }
    ParseBody(negative, whole, fraction);
  }

  /** The digits that are printed, taken together. */
  lemma PrintedDigits(d: Decimal)
    ensures var whole, fraction := Render(WholePart(d)), Padded(FractionPart(d), d.scale);
      && AllDigits(whole + fraction)
      && Value(whole + fraction) == WholePart(d) * Pow10(|fraction|) + FractionPart(d)
  {
    hide WholePart, FractionPart, Padded, Value, Render;
    ValueOfRender(WholePart(d));
    PaddedIs(FractionPart(d), d.scale);
    ValueOfJoined(Render(WholePart(d)), Padded(FractionPart(d), d.scale));
  }

  /** How a decimal comes back, told by the digits that are printed. */
  lemma Rereading(d: Decimal)
    requires FitsInt64(d.units)
    ensures var fraction := Padded(FractionPart(d), d.scale);
      var u: int := WholePart(d) * Pow10(|fraction|) + FractionPart(d);
      ParseDecimal(RenderDecimal(d))
      == if u <= INT64_MAX then Some(Decimal(if d.units < 0 then -u else u, |fraction|)) else None
  {
    hide WholePart, FractionPart, Padded, Value, Render, ParseDecimal, Written;
    PrintedDigits(d);
    ParseWritten(d.units < 0, Render(WholePart(d)), Padded(FractionPart(d), d.scale));
  }

  lemma Parts(d: Decimal)
    ensures WholePart(d) * Divisor(d.scale) + FractionPart(d) == Magnitude(d.units)
    ensures FractionPart(d) < Divisor(d.scale)
  {
  }

  /** Main result: exactly which decimals are read back as they were. */
  lemma RoundTrip(d: Decimal)
    requires FitsInt64(d.units)
    ensures ParseDecimal(RenderDecimal(d)) == Some(d)
      <==> (1 <= d.scale <= 18 && d.units > INT64_MIN) || (d.scale > 18 && d.units == 0)
  {
    hide WholePart, FractionPart, Padded, Render, ParseDecimal, RenderDecimal, Pow10;
    Rereading(d);
    Parts(d);
    PaddedIs(FractionPart(d), d.scale);
    var fraction := Padded(FractionPart(d), d.scale);
    if 1 <= d.scale <= 18 {
      assert |fraction| == d.scale;
    } else {
      assert Divisor(d.scale) == 1 by { PowerOfNothing(); }
      assert FractionPart(d) == 0 && WholePart(d) == Magnitude(d.units);
      if d.scale > 18 {
        NoFractionFits(d.scale, WholePart(d));
        assert |fraction| == d.scale;
      } else {
        assert fraction == Render(0);
        RenderOfZero();
      }
    }
  }

  lemma PowerOfNothing()
    ensures Pow10(0) == 1
  {
  }

  lemma RenderOfZero()
    ensures |Render(0)| == 1
  {
  }

  /** With more than eighteen places every number but zero is out of range. */
  lemma NoFractionFits(scale: nat, u: nat)
    requires scale > 18
    ensures 0 < Pow10(scale)
    ensures u * Pow10(scale) <= INT64_MAX <==> u == 0
  {
    Pow10Grows(19, scale);
    LargestPower();
    if u > 0 {
      Scaled(1, u, Pow10(scale));
    }
  }

  // ---------------------------------------------------------------------- spellings

  predicate AreDigits(s: string) {
    forall i :: 0 <= i < |s| ==> 0x30 <= s[i] as nat <= 0x39
  }

  /** One sign or none, digits around one dot, and a suffix in either case or none. */
  predicate IsSpelling(text: string, sign: string, whole: string, fraction: string, suffix: string) {
    && (sign == "" || sign == "+" || sign == "-") && (suffix == "" || suffix == "d" || suffix == "D")
    && AreDigits(whole) && AreDigits(fraction)
    && text == sign + whole + "." + fraction + suffix
  }

  lemma SuffixIsDropped(t: string, suffix: string)
    requires t != "" && t[|t| - 1] != 'd' && t[|t| - 1] != 'D'
    requires suffix == "" || suffix == "d" || suffix == "D"
    ensures WithoutSuffix(t + suffix) == t
  {
    if suffix == "" {
      assert t + suffix == t;
    } else {
      assert (t + suffix)[..|t|] == t;
    }
  }

  lemma SignIsDropped(sign: string, body: string)
    requires (sign == "" || sign == "+" || sign == "-") && !HasSign(body)
    ensures var t := sign + body;
      (if HasSign(t) then t[1..] else t) == body && (HasSign(t) && t[0] == '-' <==> sign == "-")
  {
    if sign == "" {
      assert sign + body == body;
    } else {
      assert (sign + body)[1..] == body;
    }
  }

  lemma BodyIsRead(negative: bool, whole: string, fraction: string)
    requires AllDigits(whole) && AllDigits(fraction)
    ensures var units := FromChars(whole + fraction);
      ParseUnsigned(whole + "." + fraction, negative) == if units.None? then None
        else Some(Decimal(if negative then -units.value else units.value, |fraction|))
  {
    hide FromChars, DotAt;
    var body := whole + "." + fraction;
    DotAfter(whole, fraction);
    assert body[..|whole|] + body[|whole| + 1..] == whole + fraction;
  }

  /** Every spelling of a decimal is read as all its digits, at the scale of those behind the dot. */
  lemma SpellingsAreRead(text: string, sign: string, whole: string, fraction: string, suffix: string)
    requires IsSpelling(text, sign, whole, fraction, suffix)
    ensures var units := FromChars(whole + fraction);
      ParseDecimal(text) == if units.None? then None
        else Some(Decimal(if sign == "-" then -units.value else units.value, |fraction|))
  {
    hide FromChars, ParseUnsigned, WithoutSuffix, HasSign;
    var body := whole + "." + fraction;
    LastOfBody(whole, fraction);
    assert text == (sign + body) + suffix;
    assert (sign + body)[|sign + body| - 1] == body[|body| - 1];
    SuffixIsDropped(sign + body, suffix);
    SignIsDropped(sign, body);
    BodyIsRead(sign == "-", whole, fraction);
  }

  lemma LastOfBody(whole: string, fraction: string)
    requires AllDigits(whole) && AllDigits(fraction)
    ensures var body := whole + "." + fraction;
      !HasSign(body) && body[|body| - 1] != 'd' && body[|body| - 1] != 'D'
  {
    var body := whole + "." + fraction;
    assert whole != "" ==> body[0] == whole[0] && IsDigit(whole[0]);
    assert fraction != "" ==> body[|body| - 1] == fraction[|fraction| - 1] && IsDigit(fraction[|fraction| - 1]);
  }

  lemma SuffixOf(text: string) returns (suffix: string)
    ensures text == WithoutSuffix(text) + suffix && (suffix == "" || suffix == "d" || suffix == "D")
  {
    var t := WithoutSuffix(text);
    suffix := text[|t|..];
  }

  lemma SignOf(t: string) returns (sign: string, body: string)
    ensures t == sign + body && (sign == "" || sign == "+" || sign == "-")
    ensures body == if HasSign(t) then t[1..] else t
  {
    sign := if HasSign(t) then t[..1] else "";
    body := if HasSign(t) then t[1..] else t;
  }

  /** And nothing else is read. */
  lemma OnlySpellingsAreRead(text: string) returns (sign: string, whole: string, fraction: string, suffix: string)
    requires ParseDecimal(text).Some?
    ensures IsSpelling(text, sign, whole, fraction, suffix)
  {
    hide FromChars, ParseUnsigned, WithoutSuffix, AreDigits;
    var t, body := WithoutSuffix(text), "";
    suffix := SuffixOf(text);
    sign, body := SignOf(t);
    whole, fraction := BodyParts(body, HasSign(t) && t[0] == '-');
    assert sign + (whole + "." + fraction) + suffix == sign + whole + "." + fraction + suffix;
  }

  lemma DigitsOfParts(a: string, b: string)
    requires AllDigits(a + b)
    ensures AreDigits(a) && AreDigits(b)
  {
    assert forall i :: 0 <= i < |a| ==> (a + b)[i] == a[i];
    assert forall i :: 0 <= i < |b| ==> (a + b)[|a| + i] == b[i];
  }

  lemma BodyParts(body: string, negative: bool) returns (whole: string, fraction: string)
    requires ParseUnsigned(body, negative).Some?
    ensures body == whole + "." + fraction && AreDigits(whole) && AreDigits(fraction)
  {
    hide FromChars, DotAt, AllDigits, AreDigits;
    var dot := DotAt(body);
    whole, fraction := body[..dot], body[dot + 1..];
    DigitsOfParts(whole, fraction);
    assert body[dot..] == "." + fraction;
    assert body == body[..dot] + body[dot..];
  }

  /** A decimal is printed with its sign, its whole part, as many places as its scale, and the suffix. */
  lemma DecimalsAsPrinted(d: Decimal) returns (whole: nat, fraction: string)
    requires 1 <= d.scale <= 18
    ensures RenderDecimal(d) == (if d.units < 0 then "-" else "") + Render(whole) + "." + fraction + "d"
    ensures |fraction| == d.scale && AreDigits(fraction) && AllDigits(fraction)
    ensures whole * Pow10(d.scale) + Value(fraction) == if d.units < 0 then -d.units else d.units
  {
    hide Render, Padded, Value;
    whole, fraction := WholePart(d), Padded(FractionPart(d), d.scale);
    Parts(d);
    PaddedIs(FractionPart(d), d.scale);
  }

  /** Outside these scales all units are printed before the dot, and zeros behind it. */
  lemma OtherScalesAsPrinted(d: Decimal) returns (zeros: string)
    requires d.scale < 1 || d.scale > 18
    ensures |zeros| == (if d.scale > 18 then d.scale else 1) && forall i :: 0 <= i < |zeros| ==> zeros[i] == '0'
    ensures RenderDecimal(d)
      == (if d.units < 0 then "-" + Render(-d.units) else Render(d.units)) + "." + zeros + "d"
  {
    hide Render;
    assert Divisor(d.scale) == 1 by { if d.scale == 0 { PowerOfNothing(); } }
    assert WholePart(d) == Magnitude(d.units) && FractionPart(d) == 0;
    ZeroPadded(d.scale);
    zeros := Padded(0, d.scale);
    hide Padded;
  }

  lemma ZeroPadded(width: int)
    requires width < 1 || width > 18
    ensures var zeros := Padded(0, width);
      |zeros| == (if width > 18 then width else 1) && forall i :: 0 <= i < |zeros| ==> zeros[i] == '0'
  {
    assert Render(0) == "0";
  }

  // --------------------------------------------------------------- integers as operands

  /** Guarding a product by a quotient that drops the fraction. */
  predicate ProductGuard(a: int, m: int)
    requires m > 0
  {
    (a > 0 && a > TruncatedQuotient(INT64_MAX, m)) || (a < 0 && a < TruncatedQuotient(INT64_MIN, m))
  }

  lemma GuardIsExact(a: int, m: int)
    requires m > 0
    ensures ProductGuard(a, m) <==> !FitsInt64(a * m)
  {
    QuotientBounds(INT64_MAX, m);
    QuotientBounds(-INT64_MIN, m);
    var p, q := INT64_MAX / m, (-INT64_MIN) / m;
    if a > p {
      Scaled(p + 1, a, m);
    } else if a > 0 {
      Scaled(a, p, m);
    } else if -a > q {
      Scaled(q + 1, -a, m);
    } else {
      Scaled(-a, q, m);
    }
    assert (-a) * m == -(a * m);
  }

  lemma QuotientBounds(n: int, m: int)
    requires n >= 0 && m > 0
    ensures (n / m) * m <= n < (n / m + 1) * m
  {
  }

  lemma Scaled(a: int, b: int, m: int)
    requires a <= b && m > 0
    ensures a * m <= b * m
  {
  }

  datatype Operand = DecimalText(text: string) | IntegerText(text: string) | OtherOperand

  /** A decimal of this very scale, or an integer that is exact and in range at this scale. */
  method DecimalOperandAtScale(v: Operand, scale: int) returns (r: Option<Decimal>)
    ensures v.DecimalText? ==>
      r == if ParseDecimal(v.text).Some? && ParseDecimal(v.text).value.scale == scale then ParseDecimal(v.text) else None
    ensures v.IntegerText? && FromChars(v.text).Some? && 0 <= scale <= 18 ==>
      var units := FromChars(v.text).value * Pow10(scale);
      r == if FitsInt64(units) then Some(Decimal(units, scale)) else None
    ensures v.IntegerText? && !(FromChars(v.text).Some? && 0 <= scale <= 18) ==> r == None
    ensures v.OtherOperand? ==> r == None
  {
    match v
    case DecimalText(text) =>
      var decimal := ParseDecimalConst(text);
      r := if decimal.Some? && decimal.value.scale == scale then decimal else None;
    case IntegerText(text) =>
      var integer := FromChars(text);
      var multiplier := Pow10I64(scale);
      if integer.None? || multiplier.None? {
        return None;
      }
      Pow10Grows(0, scale);
      GuardIsExact(integer.value, multiplier.value);
      if ProductGuard(integer.value, multiplier.value) {
        return None;
      }
      r := Some(Decimal(integer.value * multiplier.value, scale));
    case OtherOperand => r := None;
  }

  // ----------------------------------------------------------------------- durations

  datatype TimeUnit = Milliseconds | Seconds | Minutes | Hours

  function Spelling(u: TimeUnit): string {
    match u
    case Milliseconds => "ms"
    case Seconds => "s"
    case Minutes => "m"
    case Hours => "h"
  }

  function MillisecondsPer(u: TimeUnit): nat {
    match u
    case Milliseconds => 1
    case Seconds => 1000
    case Minutes => 60 * 1000
    case Hours => 60 * 60 * 1000
  }

  predicate EndsWith(text: string, suffix: string) {
    |text| >= |suffix| && text[|text| - |suffix|..] == suffix
  }

  function ParseDuration(text: string): Option<int> {
    if EndsWith(text, "ms") then DurationIn(text[..|text| - 2], Milliseconds)
    else if EndsWith(text, "s") then DurationIn(text[..|text| - 1], Seconds)
    else if EndsWith(text, "m") then DurationIn(text[..|text| - 1], Minutes)
    else if EndsWith(text, "h") then DurationIn(text[..|text| - 1], Hours)
    else None
  }

  function DurationIn(number: string, u: TimeUnit): Option<int> {
    var value := FromChars(number);
    if value.None? || value.value < 0 then None
    else if value.value > TruncatedQuotient(INT64_MAX, MillisecondsPer(u)) then None
    else Some(value.value * MillisecondsPer(u))
  }

  lemma LastIsDigit(n: int)
    ensures RenderInt(n) != "" && IsDigit(RenderInt(n)[|RenderInt(n)| - 1])
  {
    if n < 0 { assert RenderInt(n)[|RenderInt(n)| - 1] == Render(-n)[|Render(-n)| - 1]; }
  }

  lemma EndsWithChar(text: string, c: char)
    requires text != ""
    ensures EndsWith(text, [c]) <==> text[|text| - 1] == c
  {
    assert text[|text| - 1..] == [text[|text| - 1]];
  }

  lemma EndsWithMs(text: string)
    requires |text| >= 2
    ensures EndsWith(text, "ms") <==> text[|text| - 2] == 'm' && text[|text| - 1] == 's'
  {
    assert text[|text| - 2..] == [text[|text| - 2], text[|text| - 1]];
  }

  /** The suffixes are tried in an order that takes no unit for another. */
  lemma UnitIsFound(number: string, u: TimeUnit)
    requires number != "" && IsDigit(number[|number| - 1])
    ensures ParseDuration(number + Spelling(u)) == DurationIn(number, u)
  {
    hide DurationIn, EndsWith;
    var text := number + Spelling(u);
    assert text[..|number|] == number;
    EndsWithMs(text);
    EndsWithChar(text, 's');
    EndsWithChar(text, 'm');
    EndsWithChar(text, 'h');
  }

  /** Main result: a duration is read as its number of milliseconds, unless that does not fit. */
  lemma DurationsAreExact(n: int, u: TimeUnit)
    requires FitsInt64(n)
    ensures ParseDuration(RenderInt(n) + Spelling(u))
      == if n >= 0 && n * MillisecondsPer(u) <= INT64_MAX then Some(n * MillisecondsPer(u)) else None
  {
    hide ParseDuration, FromChars, RenderInt, Spelling;
    LastIsDigit(n);
    UnitIsFound(RenderInt(n), u);
    FromCharsOfRender(n);
    GuardIsExact(n, MillisecondsPer(u));
  }

  ghost function IfInt64(milliseconds: int): Option<int> {
    if 0 <= milliseconds <= 0x7FFF_FFFF_FFFF_FFFF then Some(milliseconds) else None
  }

  /** An hour, a minute, a second and a millisecond. */
  lemma DurationsInEachUnit(n: int)
    requires FitsInt64(n)
    ensures ParseDuration(RenderInt(n) + "h") == IfInt64(n * 3_600_000)
    ensures ParseDuration(RenderInt(n) + "m") == IfInt64(n * 60_000)
    ensures ParseDuration(RenderInt(n) + "s") == IfInt64(n * 1_000)
    ensures ParseDuration(RenderInt(n) + "ms") == IfInt64(n)
  {
    hide ParseDuration, RenderInt;
    DurationsAreExact(n, Hours);
    DurationsAreExact(n, Minutes);
    DurationsAreExact(n, Seconds);
    DurationsAreExact(n, Milliseconds);
  }

  /** There are no other units, and a duration without one is none. */
  lemma OtherUnitsAreNone(text: string)
    requires text == "" || (text[|text| - 1] != 's' && text[|text| - 1] != 'm' && text[|text| - 1] != 'h')
    ensures ParseDuration(text) == None
  {
    if text != "" {
      EndsWithChar(text, 's');
      EndsWithChar(text, 'm');
      EndsWithChar(text, 'h');
      if |text| >= 2 { EndsWithMs(text); }
    }
  }
}
