/** Unicode escapes and UTF-8 (section 7 of RFC 8259, section 3 of RFC 3629). */
module JsonUnicode {
  import opened Wrappers
  import opened Json

  ghost function Hex4(n: nat): (s: string)
    requires n < 0x10000
    ensures |s| == 4
  {
    [HexDigit(n / 0x1000), HexDigit(n / 0x100 % 0x10), HexDigit(n / 0x10 % 0x10), HexDigit(n % 0x10)]
  }

  /** The UTF-16 escape of a code point, after its backslash and u. */
  ghost function Utf16Escape(code: nat): string
    requires code <= 0x10FFFF
  {
    if code < 0x10000 then Hex4(code)
    else Hex4(0xD800 + (code - 0x10000) / 0x400) + "\\u" + Hex4(0xDC00 + (code - 0x10000) % 0x400)
  }

  lemma HexStep(t: string, p: nat, i: nat, v: nat, d: nat)
    requires d < 16 && p + i < |t| && t[p + i] == HexDigit(d) && HexPrefix(t, p, i) == Some(v)
    ensures HexPrefix(t, p, i + 1) == Some(v * 0x10 + d)
  {
    HexDigitReadsBack(d);
    hide HexValue, HexDigit;
  }

  lemma HexDigitsOf(n: nat)
    ensures n / 0x100 == n / 0x1000 * 0x10 + n / 0x100 % 0x10
    ensures n / 0x10 == n / 0x100 * 0x10 + n / 0x10 % 0x10
    ensures n == n / 0x10 * 0x10 + n % 0x10
  {
  }

  lemma Hex4Parses(t: string, p: nat, n: nat)
    requires n < 0x10000 && p + 4 <= |t| && t[p..p + 4] == Hex4(n)
    ensures ParseHex4(t, p) == Some(n)
  {
    hide HexDigit, HexPrefix;
    var s := t[p..p + 4];
    assert s[0] == t[p] && s[1] == t[p + 1] && s[2] == t[p + 2] && s[3] == t[p + 3];
    HexDigitsOf(n);
    NoHexYet(t, p);
    HexStep(t, p, 0, 0, n / 0x1000);
    HexStep(t, p, 1, n / 0x1000, n / 0x100 % 0x10);
    HexStep(t, p, 2, n / 0x100, n / 0x10 % 0x10);
    HexStep(t, p, 3, n / 0x10, n % 0x10);
  }

  lemma NoHexYet(t: string, p: nat)
    requires p <= |t|
    ensures HexPrefix(t, p, 0) == Some(0)
  {
  }

  /** Main result: every code point written as a UTF-16 escape reads back as itself, in one or two
      escapes, unless it is itself a high surrogate. */
  lemma EscapeReadsBack(t: string, p: nat, code: nat)
    requires code <= 0x10FFFF && !(0xD800 <= code <= 0xDBFF)
    requires p + |Utf16Escape(code)| <= |t| && t[p..p + |Utf16Escape(code)|] == Utf16Escape(code)
    ensures ParseUnicodeEscape(t, p) == Some(Parsed(code, p + |Utf16Escape(code)|))
  {
    if code < 0x10000 {
      Hex4Parses(t, p, code);
    } else {
      var high, low := 0xD800 + (code - 0x10000) / 0x400, 0xDC00 + (code - 0x10000) % 0x400;
      var s := Utf16Escape(code);
      assert t[p..p + 4] == s[..4] && s[..4] == Hex4(high);
      assert t[p + 6..p + 10] == s[6..10] && s[6..10] == Hex4(low);
      assert t[p + 4] == t[p..p + 10][4] && t[p + 5] == t[p..p + 10][5];
      Hex4Parses(t, p, high);
      Hex4Parses(t, p + 6, low);
      assert ParseUnicodeEscape(t, p + 6) == Some(Parsed(low, p + 10));
    }
  }

  /** UTF-8 decoding, from the bit layout of the standard. */
  ghost function DecodeUtf8(s: string): Option<nat> {
    if |s| == 1 && s[0] as nat < 0x80 then Some(s[0] as nat)
    else if |s| == 2 && 0xC0 <= s[0] as nat < 0xE0 && Continues(s[1]) then
      Some((s[0] as nat - 0xC0) * 0x40 + Payload(s[1]))
    else if |s| == 3 && 0xE0 <= s[0] as nat < 0xF0 && Continues(s[1]) && Continues(s[2]) then
      Some((s[0] as nat - 0xE0) * 0x1000 + Payload(s[1]) * 0x40 + Payload(s[2]))
    else if |s| == 4 && 0xF0 <= s[0] as nat < 0xF8 && Continues(s[1]) && Continues(s[2]) && Continues(s[3]) then
      Some((s[0] as nat - 0xF0) * 0x40000 + Payload(s[1]) * 0x1000 + Payload(s[2]) * 0x40 + Payload(s[3]))
    else None
  }

  ghost predicate Continues(c: char) {
    0x80 <= c as nat < 0xC0
  }

  ghost function Payload(c: char): nat
    requires Continues(c)
  {
    c as nat - 0x80
  }

  /** Main result: what the parser stores for a code point is its UTF-8 encoding. */
  lemma Utf8ReadsBack(code: nat)
    requires code <= 0x10FFFF
    ensures DecodeUtf8(EncodeUtf8(code)) == Some(code)
    ensures |EncodeUtf8(code)| == if code < 0x80 then 1 else if code < 0x800 then 2 else if code < 0x10000 then 3 else 4
  {
    var a, b, c, d := code / 0x40000, code / 0x1000 % 0x40, code / 0x40 % 0x40, code % 0x40;
    assert code / 0x40 == code / 0x1000 * 0x40 + c;
    assert code / 0x1000 == a * 0x40 + b;
    assert code == code / 0x40 * 0x40 + d;
  }

  /** The bytes by ranges: the lead byte has the high bits, each further byte the next six. */
  lemma Utf8ByRange(code: nat)
    ensures code < 0x80 ==> EncodeUtf8(code) == [code as char]
    ensures 0x80 <= code < 0x800 ==> EncodeUtf8(code) == [(192 + code / 64) as char, (128 + code % 64) as char]
    ensures 0x800 <= code < 0x10000 ==>
      EncodeUtf8(code) == [(224 + code / 4096) as char, (128 + code / 64 % 64) as char, (128 + code % 64) as char]
    ensures 0x10000 <= code <= 0x10FFFF ==>
      EncodeUtf8(code) == [(240 + code / 262144) as char, (128 + code / 4096 % 64) as char,
                           (128 + code / 64 % 64) as char, (128 + code % 64) as char]
  {
  }

  /** Two escapes in a row that are a surrogate pair stand for one code point above 0xFFFF. */
  lemma PairsAreJoined(t: string, p: nat, high: nat, low: nat)
    requires p + 10 <= |t| && t[p + 4] == 0x5C as char && t[p + 5] == 0x75 as char
    requires ParseHex4(t, p) == Some(high) && ParseHex4(t, p + 6) == Some(low) && 0xD800 <= high <= 0xDBFF
    ensures 0xDC00 <= low <= 0xDFFF ==>
      ParseUnicodeEscape(t, p) == Some(Parsed(65536 + 1024 * (high - 55296) + (low - 56320), p + 10))
    ensures low < 0xD800 || 0xDFFF < low ==> ParseUnicodeEscape(t, p) == None
  {
    hide ParseHex4;
    assert low < 0xD800 || 0xDBFF < low ==> ParseUnicodeEscape(t, p + 6) == Some(Parsed(low, p + 10));
  }
}
