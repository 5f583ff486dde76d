/** The JSON grammar (sections 2 to 7 of RFC 8259) as trees with their texts and meanings, and the
    parser (src/base/json/json_value.cpp) against it. A high surrogate escape must be followed by
    a low one here, which the RFC's grammar leaves open. */
module JsonGrammar {
  import opened Wrappers
  import opened Digits
  import opened Json
  import opened JsonRoundTrip

  // ----------------------------------------------------------------------- strings

  datatype CharTree = Unescaped(c: char) | Escaped(letter: char) | Unicode(hex: string) | Pair(high: string, low: string)

  /** A hex digit of either case, by its code point (section 7). */
  function HexCode(c: char): (r: Option<nat>)
    ensures r.Some? ==> r.value < 16
  {
    var n := c as nat;
    if 0x30 <= n <= 0x39 then Some(n - 0x30)
    else if 0x41 <= n <= 0x46 then Some(n - 0x41 + 10)
    else if 0x61 <= n <= 0x66 then Some(n - 0x61 + 10)
    else None
  }

  /** What the letter of a short escape stands for, by code points (section 7). */
  function EscapeCode(letter: char): Option<char> {
    var n := letter as nat;
    if n == 0x22 || n == 0x5C || n == 0x2F then Some(letter)
    else if n == 0x62 then Some(0x08 as char)
    else if n == 0x66 then Some(0x0C as char)
    else if n == 0x6E then Some(0x0A as char)
    else if n == 0x72 then Some(0x0D as char)
    else if n == 0x74 then Some(0x09 as char)
    else None
  }

  /** Space, tab, line feed and carriage return (section 2). */
  predicate IsBlankCode(c: char) {
    var n := c as nat;
    n == 0x20 || n == 0x09 || n == 0x0A || n == 0x0D
  }

  predicate IsDigitCode(c: char) {
    0x30 <= c as nat <= 0x39
  }

  /** The parser's blanks, escapes and hex digits by code points. */
  lemma TablesByCode(c: char)
    ensures IsSpace(c) <==> c as nat == 0x20 || c as nat == 0x09 || c as nat == 0x0A || c as nat == 0x0D
    ensures SimpleEscape(0x22 as char) == Some(0x22 as char) && SimpleEscape(0x5C as char) == Some(0x5C as char)
    ensures SimpleEscape(0x2F as char) == Some(0x2F as char) && SimpleEscape(0x62 as char) == Some(0x08 as char)
    ensures SimpleEscape(0x66 as char) == Some(0x0C as char) && SimpleEscape(0x6E as char) == Some(0x0A as char)
    ensures SimpleEscape(0x72 as char) == Some(0x0D as char) && SimpleEscape(0x74 as char) == Some(0x09 as char)
    ensures SimpleEscape(c).Some? ==>
      c as nat in {0x22, 0x5C, 0x2F, 0x62, 0x66, 0x6E, 0x72, 0x74}
    ensures 0x30 <= c as nat <= 0x39 ==> HexValue(c) == Some(c as nat - 0x30)
    ensures 0x41 <= c as nat <= 0x46 ==> HexValue(c) == Some(c as nat - 0x41 + 10)
    ensures 0x61 <= c as nat <= 0x66 ==> HexValue(c) == Some(c as nat - 0x61 + 10)
    ensures HexValue(c).Some? ==>
      0x30 <= c as nat <= 0x39 || 0x41 <= c as nat <= 0x46 || 0x61 <= c as nat <= 0x66
  {
  }

  /** The parser's tables are those of the grammar. */
  lemma TablesAgree()
    ensures forall c :: HexCode(c) == HexValue(c)
    ensures forall c :: EscapeCode(c) == SimpleEscape(c)
    ensures forall c :: IsBlankCode(c) <==> IsSpace(c)
    ensures forall c :: IsDigitCode(c) <==> IsDigit(c)
    ensures forall n :: IsHighSurrogate(n) <==> 0xD800 <= n <= 0xDBFF
    ensures forall n :: IsLowSurrogate(n) <==> 0xDC00 <= n <= 0xDFFF
  {
  }

  predicate IsHex4(h: string) {
    |h| == 4 && forall i :: 0 <= i < 4 ==> HexCode(h[i]).Some?
  }

  function Hex4Value(h: string): (n: nat)
    requires IsHex4(h)
    ensures n < 0x10000
  {
    ((HexCode(h[0]).value * 0x10 + HexCode(h[1]).value) * 0x10 + HexCode(h[2]).value) * 0x10 + HexCode(h[3]).value
  }

  predicate IsChar(c: CharTree) {
    match c
    case Unescaped(x) => x != '"' && x != '\\' && x as nat >= 0x20
    case Escaped(letter) => EscapeCode(letter).Some?
    case Unicode(hex) => IsHex4(hex) && !(0xD800 <= Hex4Value(hex) <= 0xDBFF)
    case Pair(high, low) =>
      IsHex4(high) && 0xD800 <= Hex4Value(high) <= 0xDBFF && IsHex4(low) && 0xDC00 <= Hex4Value(low) <= 0xDFFF
  }

  function CharText(c: CharTree): (s: string)
    ensures |s| > 0
  {
    match c
    case Unescaped(x) => [x]
    case Escaped(letter) => ['\\', letter]
    case Unicode(hex) => "\\u" + hex
    case Pair(high, low) => "\\u" + high + "\\u" + low
  }

  function CharMeans(c: CharTree): string {
    if !IsChar(c) then ""
    else
      match c
      case Unescaped(x) => [x]
      case Escaped(letter) => [EscapeCode(letter).value]
      case Unicode(hex) => EncodeUtf8(Hex4Value(hex))
      case Pair(high, low) => EncodeUtf8(0x10000 + (Hex4Value(high) - 0xD800) * 0x400 + (Hex4Value(low) - 0xDC00))
  }

  predicate IsString(s: seq<CharTree>) {
    forall i :: 0 <= i < |s| ==> IsChar(s[i])
  }

  function CharsText(s: seq<CharTree>): string {
    if s == [] then "" else CharText(s[0]) + CharsText(s[1..])
  }

  function CharsMean(s: seq<CharTree>): string {
    if s == [] then "" else CharMeans(s[0]) + CharsMean(s[1..])
  }

  function StringText(s: seq<CharTree>): string {
    "\"" + CharsText(s) + "\""
  }

  // ----------------------------------------------------------------------- numbers

  datatype Exponent = Exponent(mark: char, sign: string, digits: string)

  datatype NumberTree = NumberTree(minus: bool, whole: string, fraction: Option<string>, exponent: Option<Exponent>)

  predicate IsDigits(s: string) {
    s != "" && forall i :: 0 <= i < |s| ==> IsDigitCode(s[i])
  }

  function Numeral(s: string): int {
    if s == "" then 0 else 10 * Numeral(s[..|s| - 1]) + (s[|s| - 1] as int - 0x30)
  }

  predicate IsNumber(n: NumberTree) {
    && (n.whole == "0" || (IsDigits(n.whole) && n.whole[0] != '0'))
    && (n.fraction.Some? ==> IsDigits(n.fraction.value))
    && (n.exponent.Some? ==> IsExponent(n.exponent.value))
  }

  predicate IsExponent(e: Exponent) {
    (e.mark == 'e' || e.mark == 'E') && (e.sign == "" || e.sign == "+" || e.sign == "-") && IsDigits(e.digits)
  }

  function IntegerText(n: NumberTree): string {
    (if n.minus then "-" else "") + n.whole
  }

  function FractionText(n: NumberTree): string {
    if n.fraction.Some? then "." + n.fraction.value else ""
  }

  function ExponentText(n: NumberTree): string {
    if n.exponent.Some? then [n.exponent.value.mark] + n.exponent.value.sign + n.exponent.value.digits else ""
  }

  function NumberText(n: NumberTree): string {
    IntegerText(n) + FractionText(n) + ExponentText(n)
  }

  /** An integer that fits is one; every other number is what the floating-point conversion says. */
  function NumberMeans(n: NumberTree, fr: FloatReader): Option<JsonValue> {
    var i := if n.minus then -Numeral(n.whole) else Numeral(n.whole);
    if n.fraction.None? && n.exponent.None? && -0x8000_0000_0000_0000 <= i <= 0x7FFF_FFFF_FFFF_FFFF then Some(JInt(i))
    else
      match fr(NumberText(n))
      case None => None
      case Some(x) => Some(JFloat(x))
  }

  lemma {:induction false} NumeralIsValue(s: string)
    requires AllDigits(s)
    ensures Numeral(s) == Value(s)
  {
    if s != "" {
      NumeralIsValue(s[..|s| - 1]);
      TablesAgree();
    }
  }

  /** What the parser makes of the text of a number. */
  lemma NumberMeansItsToken(n: NumberTree, fr: FloatReader)
    requires IsNumber(n)
    ensures NumberMeans(n, fr) == TokenMeans(NumberText(n), n.fraction.None? && n.exponent.None?, fr)
  {
    if n.fraction.None? && n.exponent.None? {
      assert NumberText(n) == IntegerText(n);
      IntegerIsRead(n);
    }
  }

  lemma IntegerIsRead(n: NumberTree)
    requires IsNumber(n)
    ensures var i := if n.minus then -Numeral(n.whole) else Numeral(n.whole);
      FromChars(IntegerText(n)) == if FitsInt64(i) then Some(i) else None
  {
    hide Value;
    assert IsDigits(n.whole) && AllDigits(n.whole) by { TablesAgree(); }
    NumeralIsValue(n.whole);
    assert IsDigit(n.whole[0]);
    if n.minus {
      assert IntegerText(n)[1..] == n.whole;
    } else {
      assert IntegerText(n) == n.whole;
    }
  }

  function TokenMeans(token: string, whole: bool, fr: FloatReader): Option<JsonValue> {
    if whole && FromChars(token).Some? then Some(JInt(FromChars(token).value))
    else
      match fr(token)
      case None => None
      case Some(x) => Some(JFloat(x))
  }

  // ------------------------------------------------------------------------ values

  datatype Tree =
    | NullTree | TrueTree | FalseTree
    | StringLeaf(s: seq<CharTree>)
    | NumberLeaf(n: NumberTree)
    | EmptyArray(blank: string)
    | FullArray(items: Items)
    | EmptyObject(blank: string)
    | FullObject(members: Members)

  datatype Items = OneItem(item: Item) | MoreItems(item: Item, rest: Items)
  datatype Item = Item(before: string, value: Tree, after: string)

  datatype Members = OneMember(member: Member) | MoreMembers(member: Member, rest: Members)
  datatype Member = Member(before: string, key: seq<CharTree>, beforeColon: string, item: Item)

  predicate IsBlank(s: string) {
    forall i :: 0 <= i < |s| ==> IsBlankCode(s[i])
  }

  predicate IsTree(t: Tree) {
    match t
    case StringLeaf(s) => IsString(s)
    case NumberLeaf(n) => IsNumber(n)
    case EmptyArray(blank) => IsBlank(blank)
    case FullArray(items) => AreItems(items)
    case EmptyObject(blank) => IsBlank(blank)
    case FullObject(members) => AreMembers(members)
    case _ => true
  }

  predicate IsItem(i: Item) {
    IsBlank(i.before) && IsTree(i.value) && IsBlank(i.after)
  }

  predicate AreItems(items: Items) {
    IsItem(items.item) && (items.MoreItems? ==> AreItems(items.rest))
  }

  predicate IsMember(m: Member) {
    IsBlank(m.before) && IsString(m.key) && IsBlank(m.beforeColon) && IsItem(m.item)
  }

  predicate AreMembers(members: Members) {
    IsMember(members.member) && (members.MoreMembers? ==> AreMembers(members.rest))
  }

  function Text(t: Tree): string {
    match t
    case NullTree => "null"
    case TrueTree => "true"
    case FalseTree => "false"
    case StringLeaf(s) => StringText(s)
    case NumberLeaf(n) => NumberText(n)
    case EmptyArray(blank) => "[" + blank + "]"
    case FullArray(items) => "[" + ItemsText(items) + "]"
    case EmptyObject(blank) => "{" + blank + "}"
    case FullObject(members) => "{" + MembersText(members) + "}"
  }

  function ItemText(i: Item): string {
    i.before + Text(i.value) + i.after
  }

  function ItemsText(items: Items): string {
    ItemText(items.item) + if items.MoreItems? then "," + ItemsText(items.rest) else ""
  }

  function MemberText(m: Member): string {
    m.before + StringText(m.key) + m.beforeColon + ":" + ItemText(m.item)
  }

  function MembersText(members: Members): string {
    MemberText(members.member) + if members.MoreMembers? then "," + MembersText(members.rest) else ""
  }

  predicate DistinctKeys(fields: seq<Field>) {
    forall i, j :: 0 <= i < j < |fields| ==> fields[i].key != fields[j].key
  }

  /** None when a number has no value or an object has a key twice. */
  function Means(t: Tree, fr: FloatReader): Option<JsonValue> {
    match t
    case NullTree => Some(JNull)
    case TrueTree => Some(JBool(true))
    case FalseTree => Some(JBool(false))
    case StringLeaf(s) => Some(JString(CharsMean(s)))
    case NumberLeaf(n) => NumberMeans(n, fr)
    case EmptyArray(_) => Some(JArray([]))
    case FullArray(items) =>
      (match ItemsMean(items, fr)
       case None => None
       case Some(values) => Some(JArray(values)))
    case EmptyObject(_) => Some(JObject([]))
    case FullObject(members) =>
      (match MembersMean(members, fr)
       case None => None
       case Some(fields) => if DistinctKeys(fields) then Some(JObject(fields)) else None)
  }

  function ItemsMean(items: Items, fr: FloatReader): Option<seq<JsonValue>> {
    var first := Means(items.item.value, fr);
    var rest := if items.MoreItems? then ItemsMean(items.rest, fr) else Some([]);
    if first.None? || rest.None? then None else Some([first.value] + rest.value)
  }

  function MembersMean(members: Members, fr: FloatReader): Option<seq<Field>> {
    var first := Means(members.member.item.value, fr);
    var rest := if members.MoreMembers? then MembersMean(members.rest, fr) else Some([]);
    if first.None? || rest.None? then None
    else Some([Field(CharsMean(members.member.key), first.value)] + rest.value)
  }

  /** A document is a value with blanks around it. */
  type Document = Item

  // -------------------------------------------------------------- reading what is written

  /** What may follow a value: nothing that would go on with a number. */
  predicate Ends(t: string, p: nat) {
    p < |t| ==> !IsDigit(t[p]) && t[p] != '.' && t[p] != 'e' && t[p] != 'E'
  }

  lemma {:induction false} BlankIsSkipped(t: string, p: nat, b: string)
    requires At(t, p, b) && IsBlank(b) && (p + |b| < |t| ==> !IsSpace(t[p + |b|]))
    ensures SkipSpace(t, p) == p + |b|
    decreases |b|
  {
    if b != "" {
      assert b == b[..1] + b[1..];
      AtSplit(t, p, b[..1], b[1..]);
      AtChar(t, p, b, 0);
      BlankIsSkipped(t, p + 1, b[1..]);
    }
  }

  lemma AtSplit3(t: string, p: nat, a: string, b: string, c: string)
    requires At(t, p, a + b + c)
    ensures At(t, p, a) && At(t, p + |a|, b) && At(t, p + |a| + |b|, c)
  {
    assert a + b + c == a + (b + c);
    AtSplit(t, p, a, b + c);
    AtSplit(t, p + |a|, b, c);
  }

  lemma Hex4Reads(t: string, p: nat, h: string)
    requires At(t, p, h) && IsHex4(h)
    ensures ParseHex4(t, p) == Some(Hex4Value(h))
  {
    AtChar(t, p, h, 0);
    AtChar(t, p, h, 1);
    AtChar(t, p, h, 2);
    AtChar(t, p, h, 3);
    assert HexPrefix(t, p, 0) == Some(0);
    assert HexPrefix(t, p, 1) == Some(HexValue(h[0]).value);
    assert HexPrefix(t, p, 2) == Some(HexValue(h[0]).value * 0x10 + HexValue(h[1]).value);
    assert HexPrefix(t, p, 3) == Some((HexValue(h[0]).value * 0x10 + HexValue(h[1]).value) * 0x10 + HexValue(h[2]).value);
  }

  lemma UnicodeReads(t: string, p: nat, h: string)
    requires At(t, p, "\\u" + h) && IsHex4(h) && !IsHighSurrogate(Hex4Value(h))
    ensures ParseUnicodeEscape(t, p + 2) == Some(Parsed(Hex4Value(h), p + 6))
  {
    AtSplit(t, p, "\\u", h);
    Hex4Reads(t, p + 2, h);
  }

  lemma PairReads(t: string, p: nat, high: string, low: string)
    requires At(t, p, "\\u" + high + "\\u" + low) && IsChar(Pair(high, low))
    ensures ParseUnicodeEscape(t, p + 2)
      == Some(Parsed(0x10000 + (Hex4Value(high) - 0xD800) * 0x400 + (Hex4Value(low) - 0xDC00), p + 12))
  {
    hide ParseHex4;
    assert "\\u" + high + "\\u" + low == "\\u" + (high + ("\\u" + low));
    AtSplit(t, p, "\\u", high + ("\\u" + low));
    AtSplit(t, p + 2, high, "\\u" + low);
    Hex4Reads(t, p + 2, high);
    AtChar(t, p + 6, "\\u" + low, 0);
    AtChar(t, p + 6, "\\u" + low, 1);
    UnicodeReads(t, p + 6, low);
  }

  lemma CharReads(t: string, p: nat, c: CharTree)
    requires IsChar(c) && At(t, p, CharText(c))
    ensures p < |t| && t[p] != '"' && ParseChar(t, p) == Some(Parsed(CharMeans(c), p + |CharText(c)|))
  {
    hide ParseUnicodeEscape, EncodeUtf8;
    AtChar(t, p, CharText(c), 0);
    match c
    case Unescaped(x) =>
    case Escaped(letter) => AtChar(t, p, CharText(c), 1);
    case Unicode(hex) =>
      AtChar(t, p, CharText(c), 1);
      UnicodeReads(t, p, hex);
    case Pair(high, low) =>
      AtChar(t, p, CharText(c), 1);
      PairReads(t, p, high, low);
  }

  lemma CharsSplit(t: string, p: nat, s: seq<CharTree>, acc: string)
    requires IsString(s) && At(t, p, CharsText(s) + "\"")
    ensures s == [] ==> Sees(t, p, '"') && CharsText(s) == "" && acc + CharsMean(s) == acc
    ensures s != [] ==>
      && IsChar(s[0]) && IsString(s[1..]) && At(t, p, CharText(s[0])) && At(t, p + |CharText(s[0])|, CharsText(s[1..]) + "\"")
      && |CharsText(s)| == |CharText(s[0])| + |CharsText(s[1..])|
      && acc + CharsMean(s) == acc + CharMeans(s[0]) + CharsMean(s[1..])
  {
    hide CharText, CharMeans, IsChar;
    if s == [] {
      AtChar(t, p, "\"", 0);
    } else {
      assert CharsText(s) + "\"" == CharText(s[0]) + (CharsText(s[1..]) + "\"");
      AtSplit(t, p, CharText(s[0]), CharsText(s[1..]) + "\"");
    }
  }

  lemma {:induction false} CharsRead(t: string, p: nat, s: seq<CharTree>, acc: string)
    requires IsString(s) && At(t, p, CharsText(s) + "\"")
    ensures ParseStringRest(t, p, acc) == Some(Parsed(acc + CharsMean(s), p + |CharsText(s)| + 1))
    decreases |s|
  {
    hide ParseChar, CharText, CharsText, CharMeans, CharsMean, IsChar, IsString, At;
    CharsSplit(t, p, s, acc);
    if s != [] {
      CharReads(t, p, s[0]);
      CharsRead(t, p + |CharText(s[0])|, s[1..], acc + CharMeans(s[0]));
    }
  }

  lemma StringReads(t: string, p: nat, s: seq<CharTree>)
    requires IsString(s) && At(t, p, StringText(s))
    ensures ParseString(t, p) == Some(Parsed(CharsMean(s), p + |StringText(s)|)) && Sees(t, p, '"')
  {
    hide CharsText, CharsMean, ParseStringRest;
    assert StringText(s) == "\"" + (CharsText(s) + "\"");
    AtSplit(t, p, "\"", CharsText(s) + "\"");
    AtChar(t, p, "\"", 0);
    CharsRead(t, p + 1, s, "");
    assert "" + CharsMean(s) == CharsMean(s);
  }

  predicate NoDigitAt(t: string, p: nat) {
    p < |t| ==> !IsDigit(t[p])
  }

  lemma FirstDigit(t: string, q: nat, digits: string)
    requires At(t, q, digits) && IsDigits(digits) && NoDigitAt(t, q + |digits|)
    ensures q < |t| && IsDigit(t[q]) && DigitsEnd(t, q) == q + |digits|
  {
    hide DigitsEnd;
    AtChar(t, q, digits, 0);
    DigitsEndIs(t, q, q + |digits|);
  }

  lemma IntegerReads(t: string, p: nat, n: NumberTree)
    requires IsNumber(n) && At(t, p, IntegerText(n)) && NoDigitAt(t, p + |IntegerText(n)|)
    ensures IntegerEnd(t, p) == Some(p + |IntegerText(n)|) && (t[p] == '-' || IsDigit(t[p]))
  {
    hide DigitsEnd;
    var sign := if n.minus then "-" else "";
    AtSplit(t, p, sign, n.whole);
    var q := p + |sign|;
    if n.minus { AtChar(t, p, sign, 0); }
    AtChar(t, q, n.whole, 0);
    if n.whole != "0" {
      FirstDigit(t, q, n.whole);
    }
  }

  lemma FractionReads(t: string, p: nat, n: NumberTree)
    requires IsNumber(n) && At(t, p, FractionText(n)) && NoDigitAt(t, p + |FractionText(n)|)
    requires n.fraction.None? ==> !Sees(t, p, '.')
    ensures FractionEnd(t, p) == Some(p + |FractionText(n)|)
  {
    hide DigitsEnd, AllDigits;
    if n.fraction.Some? {
      AtSplit(t, p, ".", n.fraction.value);
      hide At;
      AtChar(t, p, ".", 0);
      FirstDigit(t, p + 1, n.fraction.value);
    }
  }

  lemma ExponentReads(t: string, p: nat, n: NumberTree)
    requires IsNumber(n) && At(t, p, ExponentText(n)) && NoDigitAt(t, p + |ExponentText(n)|)
    requires n.exponent.None? ==> !Sees(t, p, 'e') && !Sees(t, p, 'E')
    ensures ExponentEnd(t, p) == Some(p + |ExponentText(n)|)
  {
    hide DigitsEnd, AllDigits;
    if n.exponent.Some? {
      ExponentEnds(t, p, n.exponent.value);
    }
  }

  lemma ExponentEnds(t: string, p: nat, e: Exponent)
    requires IsExponent(e) && At(t, p, [e.mark] + e.sign + e.digits)
    requires NoDigitAt(t, p + 1 + |e.sign| + |e.digits|)
    ensures ExponentEnd(t, p) == Some(p + 1 + |e.sign| + |e.digits|)
  {
    hide DigitsEnd, AllDigits, At, IsDigits;
    AtSplit3(t, p, [e.mark], e.sign, e.digits);
    AtChar(t, p, [e.mark], 0);
    if e.sign != "" { AtChar(t, p + 1, e.sign, 0); }
    FirstDigit(t, p + 1 + |e.sign|, e.digits);
    NoSignIsDigit();
  }

  lemma NoSignIsDigit()
    ensures !IsDigit('+') && !IsDigit('-')
  {
  }

  lemma PartsStart(n: NumberTree)
    requires IsNumber(n)
    ensures if n.fraction.Some? then FractionText(n) != "" && FractionText(n)[0] == '.' else FractionText(n) == ""
    ensures if n.exponent.Some? then ExponentText(n) != "" && (ExponentText(n)[0] == 'e' || ExponentText(n)[0] == 'E')
            else ExponentText(n) == ""
  {
  }

  lemma NumberPlaces(t: string, p: nat, n: NumberTree)
    requires At(t, p, NumberText(n))
    ensures var i := p + |IntegerText(n)|; var f := i + |FractionText(n)|;
      && At(t, p, IntegerText(n)) && At(t, i, FractionText(n)) && At(t, f, ExponentText(n))
      && f + |ExponentText(n)| == p + |NumberText(n)|
  {
    hide IntegerText, FractionText, ExponentText, At;
    assert NumberText(n) == IntegerText(n) + (FractionText(n) + ExponentText(n));
    AtSplit(t, p, IntegerText(n), FractionText(n) + ExponentText(n));
    AtSplit(t, p + |IntegerText(n)|, FractionText(n), ExponentText(n));
  }

  /** Where the parts of a number stand, and what follows each. */
  lemma NumberSplits(t: string, p: nat, n: NumberTree)
    requires IsNumber(n) && At(t, p, NumberText(n)) && Ends(t, p + |NumberText(n)|)
    ensures var i := p + |IntegerText(n)|; var f := i + |FractionText(n)|;
      && At(t, p, IntegerText(n)) && At(t, i, FractionText(n)) && At(t, f, ExponentText(n))
      && NoDigitAt(t, i) && NoDigitAt(t, f) && NoDigitAt(t, f + |ExponentText(n)|)
      && (n.fraction.None? ==> !Sees(t, i, '.'))
      && (n.exponent.None? ==> !Sees(t, f, 'e') && !Sees(t, f, 'E'))
  {
    hide IntegerText, FractionText, ExponentText, IsNumber;
    var i := p + |IntegerText(n)|;
    var f := i + |FractionText(n)|;
    PartsStart(n);
    NumberPlaces(t, p, n);
    if n.fraction.Some? { AtChar(t, i, FractionText(n), 0); }
    if n.exponent.Some? { AtChar(t, f, ExponentText(n), 0); }
  }

  function Expected<T>(m: Option<T>, q: nat): Option<Parsed<T>> {
    match m
    case None => None
    case Some(v) => Some(Parsed(v, q))
  }

  lemma NumberUnfold(t: string, p: nat, i: nat, f: nat, e: nat, fr: FloatReader)
    requires p <= i <= f <= e <= |t|
    requires IntegerEnd(t, p) == Some(i) && FractionEnd(t, i) == Some(f) && ExponentEnd(t, f) == Some(e)
    ensures ParseNumber(t, p, fr) == Expected(TokenMeans(t[p..e], e == i, fr), e)
  {
    hide IntegerEnd, FractionEnd, ExponentEnd, FromChars;
  }

  lemma PartsRead(t: string, p: nat, n: NumberTree)
    requires IsNumber(n) && At(t, p, NumberText(n)) && Ends(t, p + |NumberText(n)|)
    ensures var i := p + |IntegerText(n)|; var f := i + |FractionText(n)|; var e := p + |NumberText(n)|;
      && i <= f <= e <= |t| && (t[p] == '-' || IsDigit(t[p]))
      && IntegerEnd(t, p) == Some(i) && FractionEnd(t, i) == Some(f) && ExponentEnd(t, f) == Some(e)
      && (e == i <==> n.fraction.None? && n.exponent.None?)
  {
    hide IntegerEnd, FractionEnd, ExponentEnd, IntegerText, FractionText, ExponentText, NumberText, IsNumber, At, Ends;
    hide NoDigitAt, Sees, IsDigit;
    NumberSplits(t, p, n);
    NumberPlaces(t, p, n);
    IntegerReads(t, p, n);
    FractionReads(t, p + |IntegerText(n)|, n);
    ExponentReads(t, p + |IntegerText(n)| + |FractionText(n)|, n);
    PartsStart(n);
    AtFits(t, p, NumberText(n));
  }

  lemma AtFits(t: string, p: nat, u: string)
    requires At(t, p, u)
    ensures p + |u| <= |t| && t[p..p + |u|] == u
  {
  }

  lemma NumberReads(t: string, p: nat, n: NumberTree, fr: FloatReader)
    requires IsNumber(n) && At(t, p, NumberText(n)) && Ends(t, p + |NumberText(n)|)
    ensures ParseNumber(t, p, fr) == Expected(NumberMeans(n, fr), p + |NumberText(n)|)
    ensures t[p] == '-' || IsDigit(t[p])
  {
    hide IntegerEnd, FractionEnd, ExponentEnd, IntegerText, FractionText, ExponentText, NumberText, IsNumber, At, Ends;
    hide TokenMeans, NumberMeans, ParseNumber, IsDigit;
    PartsRead(t, p, n);
    AtFits(t, p, NumberText(n));
    NumberMeansItsToken(n, fr);
    var i := p + |IntegerText(n)|;
    NumberUnfold(t, p, i, i + |FractionText(n)|, p + |NumberText(n)|, fr);
  }

  // ------------------------------------------------------------------- reading values

  lemma SkipsFirst(t: string, p: nat, fr: FloatReader)
    requires p <= |t|
    ensures SkipSpace(t, SkipSpace(t, p)) == SkipSpace(t, p)
    ensures ParseValue(t, SkipSpace(t, p), fr) == ParseValue(t, p, fr)
  {
    hide ParseString, ParseObject, ParseArray, ParseNumber, SeesWord;
    SkippedTwice(t, p);
  }

  lemma {:induction false} SkippedTwice(t: string, p: nat)
    requires p <= |t|
    ensures SkipSpace(t, SkipSpace(t, p)) == SkipSpace(t, p)
    ensures SkipSpace(t, p) < |t| ==> !IsSpace(t[SkipSpace(t, p)])
    decreases |t| - p
  {
    if p < |t| && IsSpace(t[p]) {
      SkippedTwice(t, p + 1);
    }
  }

  /** What a value starts with: no blank, and nothing that closes a container. */
  lemma TextStarts(t: Tree)
    requires IsTree(t)
    ensures Text(t) != "" && !IsSpace(Text(t)[0]) && Text(t)[0] != ']' && Text(t)[0] != '}'
  {
    hide ItemsText, MembersText, CharsText, AreItems, AreMembers, IsString;
    match t
    case NumberLeaf(n) => NumberStarts(n);
    case _ =>
  }

  lemma NumberStarts(n: NumberTree)
    requires IsNumber(n)
    ensures NumberText(n) != "" && (NumberText(n)[0] == '-' || IsDigit(NumberText(n)[0]))
  {
  }

  /** Inside a document a value is followed by nothing, a blank, a comma or what closes a container. */
  predicate Follows(t: string, p: nat) {
    p < |t| ==> t[p] == ',' || t[p] == ']' || t[p] == '}' || IsSpace(t[p])
  }

  lemma {:induction false} ValueReads(t: string, p: nat, v: Tree, fr: FloatReader)
    requires IsTree(v) && At(t, p, Text(v)) && Follows(t, p + |Text(v)|)
    ensures ParseValue(t, p, fr) == Expected(Means(v, fr), p + |Text(v)|)
    decreases v, 1
  {
    hide ParseArray, ParseObject, ParseString, ParseNumber, ItemsText, MembersText, ItemsMean, MembersMean, NumberText,
      NumberMeans, StringText, CharsMean, AreItems, AreMembers, IsString, IsNumber;
    TextStarts(v);
    AtChar(t, p, Text(v), 0);
    match v
    case NullTree =>
    case TrueTree =>
    case FalseTree =>
    case StringLeaf(s) => StringReads(t, p, s);
    case NumberLeaf(n) => NumberReads(t, p, n, fr);
    case EmptyArray(blank) => EmptyArrayReads(t, p, blank, fr);
    case EmptyObject(blank) => EmptyObjectReads(t, p, blank, fr);
    case FullArray(items) => ArrayReads(t, p, items, fr);
    case FullObject(members) => ObjectReads(t, p, members, fr);
  }

  lemma EmptySplits(t: string, p: nat, open: char, blank: string, close: char)
    requires IsBlank(blank) && !IsSpace(close) && At(t, p, [open] + blank + [close])
    ensures Sees(t, p, open) && SkipSpace(t, p + 1) == p + 1 + |blank| && Sees(t, p + 1 + |blank|, close)
  {
    hide At, IsBlank;
    AtSplit3(t, p, [open], blank, [close]);
    AtChar(t, p, [open], 0);
    AtChar(t, p + 1 + |blank|, [close], 0);
    BlankIsSkipped(t, p + 1, blank);
  }

  lemma EmptyArrayReads(t: string, p: nat, blank: string, fr: FloatReader)
    requires IsBlank(blank) && At(t, p, "[" + blank + "]")
    ensures Sees(t, p, '[') && ParseArray(t, p, fr) == Some(Parsed(JArray([]), p + |blank| + 2))
  {
    EmptySplits(t, p, '[', blank, ']');
  }

  lemma EmptyObjectReads(t: string, p: nat, blank: string, fr: FloatReader)
    requires IsBlank(blank) && At(t, p, "{" + blank + "}")
    ensures Sees(t, p, '{') && ParseObject(t, p, fr) == Some(Parsed(JObject([]), p + |blank| + 2))
  {
    EmptySplits(t, p, '{', blank, '}');
  }

  /** A value with the blanks around it: where it is read, and where the blank after it ends. */
  lemma {:induction false} ItemReads(t: string, p: nat, i: Item, fr: FloatReader)
    requires IsItem(i) && At(t, p, ItemText(i)) && Delimited(t, p + |ItemText(i)|)
    ensures var q := p + |i.before| + |Text(i.value)|;
      && q <= |t| && SkipSpace(t, q) == p + |ItemText(i)|
      && ParseValue(t, p, fr) == Expected(Means(i.value, fr), q)
      && SkipSpace(t, p) == p + |i.before| && !Sees(t, p + |i.before|, ']') && !Sees(t, p + |i.before|, '}')
    decreases i, 2
  {
    hide Text, Means, ParseValue, IsTree, SkipSpace, At, IsBlank;
    var q := p + |i.before| + |Text(i.value)|;
    assert At(t, p, i.before + Text(i.value) + i.after);
    AtSplit3(t, p, i.before, Text(i.value), i.after);
    TextStarts(i.value);
    AtChar(t, p + |i.before|, Text(i.value), 0);
    BlankIsSkipped(t, p, i.before);
    BlankFollows(t, q, i.after);
    ValueReads(t, p + |i.before|, i.value, fr);
    SkipsFirst(t, p, fr);
  }

  lemma BlankFollows(t: string, q: nat, b: string)
    requires At(t, q, b) && IsBlank(b) && Delimited(t, q + |b|)
    ensures q <= |t| && Follows(t, q) && SkipSpace(t, q) == q + |b|
  {
    BlankIsSkipped(t, q, b);
    if b != "" { AtChar(t, q, b, 0); }
  }

  lemma {:induction false} ArrayReads(t: string, p: nat, items: Items, fr: FloatReader)
    requires AreItems(items) && At(t, p, "[" + ItemsText(items) + "]")
    ensures Sees(t, p, '[')
    ensures ParseArray(t, p, fr) == Expected(Means(FullArray(items), fr), p + |ItemsText(items)| + 2)
    decreases items, 4
  {
    hide ParseItems, ItemsMean, AreItems, ItemsText;
    assert "[" + ItemsText(items) + "]" == "[" + (ItemsText(items) + "]");
    AtSplit(t, p, "[", ItemsText(items) + "]");
    AtChar(t, p, "[", 0);
    ItemsRead(t, p + 1, items, [], fr);
    ItemsSkipFirst(t, p + 1, [], fr);
    assert ItemsMean(items, fr).Some? ==> [] + ItemsMean(items, fr).value == ItemsMean(items, fr).value;
  }

  lemma ItemsSkipFirst(t: string, p: nat, acc: seq<JsonValue>, fr: FloatReader)
    requires p <= |t|
    ensures ParseItems(t, SkipSpace(t, p), acc, fr) == ParseItems(t, p, acc, fr)
  {
    hide ParseValue;
    SkipsFirst(t, p, fr);
  }

  function Prefixed<T>(acc: seq<T>, rest: Option<seq<T>>): Option<seq<T>> {
    match rest
    case None => None
    case Some(s) => Some(acc + s)
  }

  function ArrayOf(values: Option<seq<JsonValue>>): Option<JsonValue> {
    match values
    case None => None
    case Some(s) => Some(JArray(s))
  }

  lemma ItemsUnfold(t: string, p: nat, acc: seq<JsonValue>, fr: FloatReader, value: Option<JsonValue>, q: nat)
    requires p <= |t| && q <= |t| && ParseValue(t, p, fr) == Expected(value, q)
    ensures value.None? ==> ParseItems(t, p, acc, fr).None?
    ensures value.Some? && Sees(t, SkipSpace(t, q), ']') ==>
      ParseItems(t, p, acc, fr) == Some(Parsed(JArray(acc + [value.value]), SkipSpace(t, q) + 1))
    ensures value.Some? && Sees(t, SkipSpace(t, q), ',') ==>
      ParseItems(t, p, acc, fr) == ParseItems(t, SkipSpace(t, q) + 1, acc + [value.value], fr)
  {
    hide ParseValue, SkipSpace;
  }

  lemma {:induction false} ItemsRead(t: string, p: nat, items: Items, acc: seq<JsonValue>, fr: FloatReader)
    requires AreItems(items) && At(t, p, ItemsText(items) + "]")
    ensures ParseItems(t, p, acc, fr)
      == Expected(ArrayOf(Prefixed(acc, ItemsMean(items, fr))), p + |ItemsText(items)| + 1)
    ensures !Sees(t, SkipSpace(t, p), ']')
    decreases items, 3
  {
    hide ParseValue, ParseItems, Means, SkipSpace, IsItem, ItemText, ItemsText, ItemsMean;
    var i, end := items.item, p + |ItemText(items.item)|;
    ItemsSplit(t, p, items);
    ItemReads(t, p, i, fr);
    ItemsUnfold(t, p, acc, fr, Means(i.value, fr), p + |i.before| + |Text(i.value)|);
    ItemsMeanUnfold(items, acc, fr);
    if items.MoreItems? && Means(i.value, fr).Some? {
      ItemsRead(t, end + 1, items.rest, acc + [Means(i.value, fr).value], fr);
    }
  }

  lemma ItemsSplit(t: string, p: nat, items: Items)
    requires AreItems(items) && At(t, p, ItemsText(items) + "]")
    ensures var end := p + |ItemText(items.item)|;
      && IsItem(items.item) && At(t, p, ItemText(items.item))
      && (items.OneItem? ==> Sees(t, end, ']') && |ItemsText(items)| == |ItemText(items.item)|)
      && (items.MoreItems? ==>
            && AreItems(items.rest) && Sees(t, end, ',') && At(t, end + 1, ItemsText(items.rest) + "]")
            && |ItemsText(items)| == |ItemText(items.item)| + 1 + |ItemsText(items.rest)|)
  {
    hide ItemText, IsItem;
    var i, end := items.item, p + |ItemText(items.item)|;
    if items.OneItem? {
      AtSplit(t, p, ItemText(i), "]");
      AtChar(t, end, "]", 0);
    } else {
      var rest := ItemsText(items.rest) + "]";
      assert ItemsText(items) + "]" == ItemText(i) + ("," + rest);
      AtSplit(t, p, ItemText(i), "," + rest);
      AtSplit(t, end, ",", rest);
      AtChar(t, end, ",", 0);
    }
  }

  lemma ItemsMeanUnfold(items: Items, acc: seq<JsonValue>, fr: FloatReader)
    ensures var first := Means(items.item.value, fr);
      Prefixed(acc, ItemsMean(items, fr)) ==
        if first.None? then None
        else if items.OneItem? then Some(acc + [first.value])
        else Prefixed(acc + [first.value], ItemsMean(items.rest, fr))
  {
    hide Means;
    var first := Means(items.item.value, fr);
    if first.Some? && items.OneItem? {
      assert [first.value] + [] == [first.value];
    } else if first.Some? && ItemsMean(items.rest, fr).Some? {
      var rest := ItemsMean(items.rest, fr).value;
      assert acc + [first.value] + rest == acc + ([first.value] + rest);
    }
  }

  function FieldOf(m: Member, acc: seq<Field>, fr: FloatReader): Option<Field> {
    var value := Means(m.item.value, fr);
    if value.None? || HasKey(acc, CharsMean(m.key)) then None else Some(Field(CharsMean(m.key), value.value))
  }

  lemma MemberSplits(t: string, p: nat, m: Member)
    requires IsMember(m) && At(t, p, MemberText(m))
    ensures var k := p + |m.before|; var c := k + |StringText(m.key)| + |m.beforeColon|;
      && At(t, p, m.before) && At(t, k, StringText(m.key)) && At(t, k + |StringText(m.key)|, m.beforeColon)
      && Sees(t, c, ':') && At(t, c + 1, ItemText(m.item)) && c + 1 + |ItemText(m.item)| == p + |MemberText(m)|
  {
    hide StringText, ItemText, IsMember, At;
    var c := p + |m.before| + |StringText(m.key)| + |m.beforeColon|;
    var head := m.before + StringText(m.key) + m.beforeColon;
    assert At(t, p, head + ":" + ItemText(m.item));
    AtSplit3(t, p, head, ":", ItemText(m.item));
    AtSplit3(t, p, m.before, StringText(m.key), m.beforeColon);
    AtChar(t, c, ":", 0);
  }

  /** One field with the blanks around it: where it is read, and where the blank after it ends. */
  lemma {:induction false} MemberReads(t: string, p: nat, m: Member, acc: seq<Field>, fr: FloatReader) returns (q: nat)
    requires IsMember(m) && At(t, p, MemberText(m)) && Delimited(t, p + |MemberText(m)|)
    ensures q <= |t| && SkipSpace(t, q) == p + |MemberText(m)|
    ensures ParseField(t, p, acc, fr) == Expected(FieldOf(m, acc, fr), q)
    ensures Sees(t, SkipSpace(t, p), '"')
    decreases m, 2
  {
    hide ParseValue, ParseString, Means, CharsMean, SkipSpace, StringText, ItemText, MemberText, IsItem, IsString, At, IsBlank;
    var k := p + |m.before|;
    var e := k + |StringText(m.key)|;
    var c := e + |m.beforeColon|;
    MemberSplits(t, p, m);
    StringReads(t, k, m.key);
    BlankIsSkipped(t, p, m.before);
    BlankIsSkipped(t, e, m.beforeColon);
    ItemReads(t, c + 1, m.item, fr);
    q := c + 1 + |m.item.before| + |Text(m.item.value)|;
  }

  lemma FieldsUnfold(t: string, p: nat, acc: seq<Field>, fr: FloatReader, field: Option<Field>, q: nat)
    requires p <= |t| && q <= |t| && ParseField(t, p, acc, fr) == Expected(field, q)
    ensures field.None? ==> ParseFields(t, p, acc, fr).None?
    ensures field.Some? && Sees(t, SkipSpace(t, q), '}') ==>
      ParseFields(t, p, acc, fr) == Some(Parsed(JObject(acc + [field.value]), SkipSpace(t, q) + 1))
    ensures field.Some? && Sees(t, SkipSpace(t, q), ',') ==>
      ParseFields(t, p, acc, fr) == ParseFields(t, SkipSpace(t, q) + 1, acc + [field.value], fr)
  {
    hide ParseField, SkipSpace;
  }

  function ObjectOf(acc: seq<Field>, fields: Option<seq<Field>>): Option<JsonValue> {
    if fields.None? || !DistinctKeys(acc + fields.value) then None else Some(JObject(acc + fields.value))
  }

  lemma MembersSplit(t: string, p: nat, members: Members)
    requires AreMembers(members) && At(t, p, MembersText(members) + "}")
    ensures var end := p + |MemberText(members.member)|;
      && IsMember(members.member) && At(t, p, MemberText(members.member))
      && (members.OneMember? ==> Sees(t, end, '}') && |MembersText(members)| == |MemberText(members.member)|)
      && (members.MoreMembers? ==>
            && AreMembers(members.rest) && Sees(t, end, ',') && At(t, end + 1, MembersText(members.rest) + "}")
            && |MembersText(members)| == |MemberText(members.member)| + 1 + |MembersText(members.rest)|)
  {
    hide MemberText, IsMember;
    var m, end := members.member, p + |MemberText(members.member)|;
    if members.OneMember? {
      AtSplit(t, p, MemberText(m), "}");
      AtChar(t, end, "}", 0);
    } else {
      var rest := MembersText(members.rest) + "}";
      assert MembersText(members) + "}" == MemberText(m) + ("," + rest);
      AtSplit(t, p, MemberText(m), "," + rest);
      AtSplit(t, end, ",", rest);
      AtChar(t, end, ",", 0);
    }
  }

  lemma RepeatedKeyStays(acc: seq<Field>, f: Field, rest: seq<Field>)
    requires DistinctKeys(acc)
    ensures HasKey(acc, f.key) ==> !DistinctKeys(acc + ([f] + rest))
    ensures !HasKey(acc, f.key) ==> DistinctKeys(acc + [f])
  {
    var all := acc + ([f] + rest);
    if i :| 0 <= i < |acc| && acc[i].key == f.key {
      assert all[i] == acc[i] && all[|acc|] == f;
    }
  }

  lemma MembersMeanUnfold(members: Members, acc: seq<Field>, fr: FloatReader)
    requires DistinctKeys(acc)
    ensures var field := FieldOf(members.member, acc, fr);
      && (field.Some? ==> DistinctKeys(acc + [field.value]))
      && ObjectOf(acc, MembersMean(members, fr)) ==
        if field.None? then None
        else if members.OneMember? then Some(JObject(acc + [field.value]))
        else ObjectOf(acc + [field.value], MembersMean(members.rest, fr))
  {
    hide Means, CharsMean, DistinctKeys, HasKey;
    var value := Means(members.member.item.value, fr);
    var rest := if members.MoreMembers? then MembersMean(members.rest, fr) else Some([]);
    if value.Some? {
      var f := Field(CharsMean(members.member.key), value.value);
      RepeatedKeyStays(acc, f, if rest.Some? then rest.value else []);
      if rest.Some? {
        assert acc + [f] + rest.value == acc + ([f] + rest.value);
        assert rest.value == [] ==> acc + ([f] + rest.value) == acc + [f];
      }
    }
  }

  lemma {:induction false} FieldsRead(t: string, p: nat, members: Members, acc: seq<Field>, fr: FloatReader)
    requires AreMembers(members) && At(t, p, MembersText(members) + "}") && DistinctKeys(acc)
    ensures ParseFields(t, p, acc, fr)
      == Expected(ObjectOf(acc, MembersMean(members, fr)), p + |MembersText(members)| + 1)
    ensures Sees(t, SkipSpace(t, p), '"')
    decreases members, 3
  {
    hide ParseField, ParseFields, FieldOf, ObjectOf, SkipSpace, IsMember, MemberText, MembersText, MembersMean, DistinctKeys;
    var m, end := members.member, p + |MemberText(members.member)|;
    MembersSplit(t, p, members);
    var q := MemberReads(t, p, m, acc, fr);
    FieldsUnfold(t, p, acc, fr, FieldOf(m, acc, fr), q);
    MembersMeanUnfold(members, acc, fr);
    if members.MoreMembers? && FieldOf(m, acc, fr).Some? {
      FieldsRead(t, end + 1, members.rest, acc + [FieldOf(m, acc, fr).value], fr);
    }
  }

  lemma FieldsSkipFirst(t: string, p: nat, fr: FloatReader)
    requires p <= |t|
    ensures ParseFields(t, SkipSpace(t, p), [], fr) == ParseFields(t, p, [], fr)
  {
    hide ParseValue, ParseString, SkipSpace, HasKey;
    SkipsFirst(t, p, fr);
    assert ParseField(t, SkipSpace(t, p), [], fr) == ParseField(t, p, [], fr);
  }

  lemma {:induction false} ObjectReads(t: string, p: nat, members: Members, fr: FloatReader)
    requires AreMembers(members) && At(t, p, "{" + MembersText(members) + "}")
    ensures Sees(t, p, '{')
    ensures ParseObject(t, p, fr) == Expected(Means(FullObject(members), fr), p + |MembersText(members)| + 2)
    decreases members, 4
  {
    hide ParseFields, MembersMean, AreMembers, MembersText;
    assert "{" + MembersText(members) + "}" == "{" + (MembersText(members) + "}");
    AtSplit(t, p, "{", MembersText(members) + "}");
    AtChar(t, p, "{", 0);
    FieldsRead(t, p + 1, members, [], fr);
    FieldsSkipFirst(t, p + 1, fr);
    assert MembersMean(members, fr).Some? ==> [] + MembersMean(members, fr).value == MembersMean(members, fr).value;
  }

  /** Main result: the parser makes of every derivable text what the derivation means, and fails where
      that is nothing. */
  lemma DerivableIsParsed(d: Document, fr: FloatReader)
    requires IsItem(d)
    ensures ParseJson(ItemText(d), fr) == Means(d.value, fr)
  {
    hide ParseValue, Means, SkipSpace;
    var t := ItemText(d);
    assert At(t, 0, t);
    ItemReads(t, 0, d, fr);
    SkipsFirst(t, 0, fr);
  }

  // -------------------------------------------------------- what is read can be derived

  lemma Join(t: string, a: nat, b: nat, c: nat)
    requires a <= b <= c <= |t|
    ensures t[a..b] + t[b..c] == t[a..c]
  {
  }

  lemma OneChar(t: string, p: nat)
    requires p < |t|
    ensures t[p..p + 1] == [t[p]]
  {
  }

  lemma {:induction false} SkippedIsBlank(t: string, p: nat)
    requires p <= |t|
    ensures IsBlank(t[p..SkipSpace(t, p)])
    decreases |t| - p
  {
    if p < |t| && IsSpace(t[p]) {
      SkippedIsBlank(t, p + 1);
      Join(t, p, p + 1, SkipSpace(t, p));
    }
  }

  lemma Hex4Derives(t: string, p: nat)
    requires ParseHex4(t, p).Some?
    ensures p + 4 <= |t| && IsHex4(t[p..p + 4]) && ParseHex4(t, p) == Some(Hex4Value(t[p..p + 4]))
  {
    var h := t[p..p + 4];
    assert h[0] == t[p] && h[1] == t[p + 1] && h[2] == t[p + 2] && h[3] == t[p + 3];
    assert HexPrefix(t, p, 3).Some? && HexPrefix(t, p, 2).Some? && HexPrefix(t, p, 1).Some?;
    Hex4Reads(t, p, h);
  }

  lemma UnicodeDerives(t: string, p: nat) returns (c: CharTree)
    requires p + 2 <= |t| && t[p] == '\\' && t[p + 1] == 'u' && ParseUnicodeEscape(t, p + 2).Some?
    ensures var r := ParseUnicodeEscape(t, p + 2).value;
      && IsChar(c) && p <= r.next && t[p..r.next] == CharText(c) && CharMeans(c) == EncodeUtf8(r.value)
  {
    hide ParseHex4, EncodeUtf8, IsHex4, Hex4Value;
    Hex4Derives(t, p + 2);
    var high := t[p + 2..p + 6];
    if IsHighSurrogate(Hex4Value(high)) {
      LowSurrogateDerives(t, p + 6);
      c := Pair(high, t[p + 8..p + 12]);
    } else {
      c := Unicode(high);
    }
  }

  /** A low surrogate is no pair again, since pairs stand for larger code points. */
  lemma LowSurrogateDerives(t: string, p: nat)
    requires p + 4 <= |t| && t[p] == '\\' && t[p + 1] == 'u' && ParseUnicodeEscape(t, p + 2).Some?
    requires IsLowSurrogate(ParseUnicodeEscape(t, p + 2).value.value)
    ensures p + 6 <= |t| && IsHex4(t[p + 2..p + 6])
    ensures ParseUnicodeEscape(t, p + 2) == Some(Parsed(Hex4Value(t[p + 2..p + 6]), p + 6))
  {
    hide ParseHex4;
    Hex4Derives(t, p + 2);
  }

  lemma CharDerives(t: string, p: nat) returns (c: CharTree)
    requires p < |t| && t[p] != '"' && ParseChar(t, p).Some?
    ensures var r := ParseChar(t, p).value;
      IsChar(c) && t[p..r.next] == CharText(c) && CharMeans(c) == r.value
  {
    hide ParseUnicodeEscape, EncodeUtf8;
    if t[p] != '\\' {
      c := Unescaped(t[p]);
    } else if t[p + 1] == 'u' {
      c := UnicodeDerives(t, p);
    } else {
      c := Escaped(t[p + 1]);
    }
  }

  lemma {:induction false} CharsDerive(t: string, p: nat, acc: string) returns (s: seq<CharTree>)
    requires p <= |t| && ParseStringRest(t, p, acc).Some?
    ensures var r := ParseStringRest(t, p, acc).value;
      IsString(s) && t[p..r.next] == CharsText(s) + "\"" && r.value == acc + CharsMean(s)
    decreases |t| - p
  {
    hide ParseChar, IsChar, CharText, CharMeans;
    if t[p] == '"' {
      s := [];
      assert acc + "" == acc;
    } else {
      var r := ParseStringRest(t, p, acc).value;
      var c := CharDerives(t, p);
      var next := ParseChar(t, p).value.next;
      var rest := CharsDerive(t, next, acc + CharMeans(c));
      s := [c] + rest;
      assert s[1..] == rest;
      Join(t, p, next, r.next);
      assert CharText(c) + (CharsText(rest) + "\"") == CharsText(s) + "\"";
      assert acc + CharMeans(c) + CharsMean(rest) == acc + CharsMean(s);
    }
  }

  lemma StringDerives(t: string, p: nat) returns (s: seq<CharTree>)
    requires p <= |t| && ParseString(t, p).Some?
    ensures var r := ParseString(t, p).value;
      IsString(s) && t[p..r.next] == StringText(s) && r.value == CharsMean(s)
  {
    hide CharsText, CharsMean, ParseStringRest, IsString;
    var r := ParseString(t, p).value;
    s := CharsDerive(t, p + 1, "");
    Join(t, p, p + 1, r.next);
    OneChar(t, p);
    assert "\"" + (CharsText(s) + "\"") == StringText(s) && "" + CharsMean(s) == CharsMean(s);
  }

  lemma DigitsDerive(t: string, p: nat)
    requires p < |t| && IsDigit(t[p])
    ensures p < DigitsEnd(t, p) && IsDigits(t[p..DigitsEnd(t, p)])
  {
  }

  lemma IntegerDerives(t: string, p: nat) returns (minus: bool, whole: string)
    requires p <= |t| && IntegerEnd(t, p).Some?
    ensures var n := NumberTree(minus, whole, None, None);
      IsNumber(n) && t[p..IntegerEnd(t, p).value] == IntegerText(n)
  {
    hide DigitsEnd, AllDigits;
    minus := Sees(t, p, '-');
    var q := if minus then p + 1 else p;
    var end := IntegerEnd(t, p).value;
    whole := t[q..end];
    Join(t, p, q, end);
    OneChar(t, p);
    assert t[p..q] == if minus then "-" else "";
    assert whole[0] == t[q];
    if t[q] == '0' {
      OneChar(t, q);
      assert end == q + 1 && whole == "0";
    } else {
      DigitsDerive(t, q);
      assert IsDigits(whole);
    }
  }

  lemma FractionDerives(t: string, p: nat) returns (fraction: Option<string>)
    requires p <= |t| && FractionEnd(t, p).Some?
    ensures fraction.Some? ==> IsDigits(fraction.value)
    ensures t[p..FractionEnd(t, p).value] == if fraction.Some? then "." + fraction.value else ""
    ensures fraction.Some? <==> FractionEnd(t, p).value > p
  {
    hide DigitsEnd, AllDigits;
    if Sees(t, p, '.') {
      fraction := Some(t[p + 1..FractionEnd(t, p).value]);
      DigitsDerive(t, p + 1);
      Join(t, p, p + 1, FractionEnd(t, p).value);
    } else {
      fraction := None;
    }
  }

  lemma ExponentDerives(t: string, p: nat) returns (exponent: Option<Exponent>)
    requires p <= |t| && ExponentEnd(t, p).Some?
    ensures exponent.Some? ==> IsExponent(exponent.value)
    ensures t[p..ExponentEnd(t, p).value]
      == if exponent.Some? then [exponent.value.mark] + exponent.value.sign + exponent.value.digits else ""
    ensures exponent.Some? <==> ExponentEnd(t, p).value > p
  {
    hide DigitsEnd, AllDigits;
    if Sees(t, p, 'e') || Sees(t, p, 'E') {
      var end := ExponentEnd(t, p).value;
      var q := if Sees(t, p + 1, '+') || Sees(t, p + 1, '-') then p + 2 else p + 1;
      DigitsDerive(t, q);
      exponent := Some(Exponent(t[p], t[p + 1..q], t[q..end]));
      Join(t, p, p + 1, end);
      Join(t, p + 1, q, end);
      OneChar(t, p);
      assert [t[p]] + t[p + 1..q] + t[q..end] == [t[p]] + (t[p + 1..q] + t[q..end]);
      assert t[p + 1..q] == if q == p + 1 then "" else [t[p + 1]];
    } else {
      exponent := None;
    }
  }

  lemma NumberDerives(t: string, p: nat, fr: FloatReader) returns (n: NumberTree)
    requires p <= |t| && ParseNumber(t, p, fr).Some?
    ensures var r := ParseNumber(t, p, fr).value;
      IsNumber(n) && t[p..r.next] == NumberText(n) && NumberMeans(n, fr) == Some(r.value)
  {
    hide IntegerEnd, FractionEnd, ExponentEnd, AllDigits, IsExponent, IsDigits, NumberMeans;
    var i := IntegerEnd(t, p).value;
    var f := FractionEnd(t, i).value;
    var e := ExponentEnd(t, f).value;
    var minus, whole := IntegerDerives(t, p);
    var fraction := FractionDerives(t, i);
    var exponent := ExponentDerives(t, f);
    n := NumberTree(minus, whole, fraction, exponent);
    Join(t, p, i, f);
    Join(t, p, f, e);
    assert t[p..e] == NumberText(n);
    NumberMeansItsToken(n, fr);
  }

  lemma {:induction false} ValueDerives(t: string, p: nat, fr: FloatReader) returns (v: Tree)
    requires p <= |t| && ParseValue(t, p, fr).Some?
    ensures var r, q := ParseValue(t, p, fr).value, SkipSpace(t, p);
      q <= r.next && IsTree(v) && t[q..r.next] == Text(v) && Means(v, fr) == Some(r.value)
    decreases |t| - p, 1
  {
    hide ParseArray, ParseObject, ParseString, ParseNumber, StringText, NumberText, NumberMeans, CharsMean, IsString, IsNumber;
    var q := SkipSpace(t, p);
    if t[q] == '"' {
      var s := StringDerives(t, q);
      v := StringLeaf(s);
    } else if t[q] == '{' {
      v := ObjectDerives(t, q, fr);
    } else if t[q] == '[' {
      v := ArrayDerives(t, q, fr);
    } else if t[q] == 't' || t[q] == 'f' {
      v := if SeesWord(t, q, "true") then TrueTree else FalseTree;
    } else if t[q] == 'n' {
      v := NullTree;
    } else {
      var n := NumberDerives(t, q, fr);
      v := NumberLeaf(n);
    }
  }

  lemma {:induction false} ItemDerives(t: string, p: nat, fr: FloatReader) returns (i: Item)
    requires p <= |t| && ParseValue(t, p, fr).Some?
    ensures var r := ParseValue(t, p, fr).value;
      IsItem(i) && t[p..SkipSpace(t, r.next)] == ItemText(i) && Means(i.value, fr) == Some(r.value)
    decreases |t| - p, 2
  {
    hide ParseValue, Text, IsTree, Means, IsBlank, SkipSpace;
    var r := ParseValue(t, p, fr).value;
    var q, e := SkipSpace(t, p), SkipSpace(t, r.next);
    var v := ValueDerives(t, p, fr);
    SkippedIsBlank(t, p);
    SkippedIsBlank(t, r.next);
    Join(t, p, q, r.next);
    Join(t, p, r.next, e);
    i := Item(t[p..q], v, t[r.next..e]);
  }

  lemma MoreItemsText(i: Item, rest: Items)
    ensures ItemsText(MoreItems(i, rest)) + "]" == ItemText(i) + "," + (ItemsText(rest) + "]")
  {
    hide ItemText;
  }

  lemma MoreMembersText(m: Member, rest: Members)
    ensures MembersText(MoreMembers(m, rest)) + "}" == MemberText(m) + "," + (MembersText(rest) + "}")
  {
    hide MemberText;
  }

  lemma {:induction false} ItemsDerive(t: string, p: nat, acc: seq<JsonValue>, fr: FloatReader) returns (items: Items)
    requires p <= |t| && ParseItems(t, p, acc, fr).Some?
    ensures var r := ParseItems(t, p, acc, fr).value;
      && AreItems(items) && t[p..r.next] == ItemsText(items) + "]"
      && ArrayOf(Prefixed(acc, ItemsMean(items, fr))) == Some(r.value)
    decreases |t| - p, 3
  {
    hide ParseValue, Means, SkipSpace, IsItem, ItemText, ItemsMean;
    var r := ParseItems(t, p, acc, fr).value;
    var value := ParseValue(t, p, fr).value;
    var q := SkipSpace(t, value.next);
    var i := ItemDerives(t, p, fr);
    if Sees(t, q, ']') {
      items := OneItem(i);
      OneChar(t, q);
      Join(t, p, q, q + 1);
    } else {
      var rest := ItemsDerive(t, q + 1, acc + [value.value], fr);
      items := MoreItems(i, rest);
      OneChar(t, q);
      Join(t, p, q, q + 1);
      Join(t, p, q + 1, r.next);
      MoreItemsText(i, rest);
    }
    ItemsMeanUnfold(items, acc, fr);
  }

  lemma {:induction false} ArrayDerives(t: string, p: nat, fr: FloatReader) returns (v: Tree)
    requires Sees(t, p, '[') && ParseArray(t, p, fr).Some?
    ensures var r := ParseArray(t, p, fr).value;
      IsTree(v) && t[p..r.next] == Text(v) && Means(v, fr) == Some(r.value)
    decreases |t| - p, 0
  {
    hide ParseItems, ItemsMean, AreItems, ItemsText;
    var r := ParseArray(t, p, fr).value;
    var q := SkipSpace(t, p + 1);
    OneChar(t, p);
    if Sees(t, q, ']') {
      SkippedIsBlank(t, p + 1);
      v := EmptyArray(t[p + 1..q]);
      OneChar(t, q);
      Join(t, p, p + 1, q);
      Join(t, p, q, q + 1);
    } else {
      ItemsSkipFirst(t, p + 1, [], fr);
      var items := ItemsDerive(t, p + 1, [], fr);
      v := FullArray(items);
      Join(t, p, p + 1, r.next);
      assert "[" + (ItemsText(items) + "]") == Text(v);
      assert [] + ItemsMean(items, fr).value == ItemsMean(items, fr).value;
    }
  }

  lemma {:induction false} MemberDerives(t: string, p: nat, acc: seq<Field>, fr: FloatReader) returns (m: Member)
    requires p <= |t| && ParseField(t, p, acc, fr).Some?
    ensures var r := ParseField(t, p, acc, fr).value;
      IsMember(m) && t[p..SkipSpace(t, r.next)] == MemberText(m) && FieldOf(m, acc, fr) == Some(r.value)
    decreases |t| - p, 2
  {
    hide ParseValue, ParseString, Means, CharsMean, SkipSpace, StringText, ItemText, IsItem, IsString, IsBlank, HasKey;
    var r := ParseField(t, p, acc, fr).value;
    var k := SkipSpace(t, p);
    var key := ParseString(t, k).value;
    var c, e := SkipSpace(t, key.next), SkipSpace(t, r.next);
    var s := StringDerives(t, k);
    var i := ItemDerives(t, c + 1, fr);
    SkippedIsBlank(t, p);
    SkippedIsBlank(t, key.next);
    m := Member(t[p..k], s, t[key.next..c], i);
    OneChar(t, c);
    Join(t, p, k, key.next);
    Join(t, p, key.next, c);
    Join(t, p, c, c + 1);
    Join(t, p, c + 1, e);
  }

  lemma {:induction false} FieldsDerive(t: string, p: nat, acc: seq<Field>, fr: FloatReader) returns (members: Members)
    requires p <= |t| && ParseFields(t, p, acc, fr).Some? && DistinctKeys(acc)
    ensures var r := ParseFields(t, p, acc, fr).value;
      && AreMembers(members) && t[p..r.next] == MembersText(members) + "}"
      && ObjectOf(acc, MembersMean(members, fr)) == Some(r.value)
    decreases |t| - p, 3
  {
    hide ParseField, SkipSpace, IsMember, MemberText, MembersMean, DistinctKeys, FieldOf, ObjectOf;
    var r := ParseFields(t, p, acc, fr).value;
    var field := ParseField(t, p, acc, fr).value;
    var q := SkipSpace(t, field.next);
    var m := MemberDerives(t, p, acc, fr);
    MembersMeanUnfold(OneMember(m), acc, fr);
    if Sees(t, q, '}') {
      members := OneMember(m);
      OneChar(t, q);
      Join(t, p, q, q + 1);
    } else {
      var rest := FieldsDerive(t, q + 1, acc + [field.value], fr);
      members := MoreMembers(m, rest);
      OneChar(t, q);
      Join(t, p, q, q + 1);
      Join(t, p, q + 1, r.next);
      MoreMembersText(m, rest);
      MembersMeanUnfold(members, acc, fr);
    }
  }

  lemma {:induction false} ObjectDerives(t: string, p: nat, fr: FloatReader) returns (v: Tree)
    requires Sees(t, p, '{') && ParseObject(t, p, fr).Some?
    ensures var r := ParseObject(t, p, fr).value;
      IsTree(v) && t[p..r.next] == Text(v) && Means(v, fr) == Some(r.value)
    decreases |t| - p, 0
  {
    hide ParseFields, MembersMean, AreMembers, MembersText;
    var r := ParseObject(t, p, fr).value;
    var q := SkipSpace(t, p + 1);
    OneChar(t, p);
    if Sees(t, q, '}') {
      SkippedIsBlank(t, p + 1);
      v := EmptyObject(t[p + 1..q]);
      OneChar(t, q);
      Join(t, p, p + 1, q);
      Join(t, p, q, q + 1);
    } else {
      FieldsSkipFirst(t, p + 1, fr);
      var members := FieldsDerive(t, p + 1, [], fr);
      v := FullObject(members);
      Join(t, p, p + 1, r.next);
      assert "{" + (MembersText(members) + "}") == Text(v);
      assert [] + MembersMean(members, fr).value == MembersMean(members, fr).value;
    }
  }

  /** The text can be derived as a document with this meaning. */
  ghost predicate Derives(t: string, v: JsonValue, fr: FloatReader) {
    exists d: Document :: IsItem(d) && ItemText(d) == t && Means(d.value, fr) == Some(v)
  }

  /** Main result: the parser succeeds exactly on the texts that the grammar derives and that mean
      something, and its value is what they mean. */
  lemma ParsedExactlyWhenDerivable(t: string, v: JsonValue, fr: FloatReader)
    ensures ParseJson(t, fr) == Some(v) <==> Derives(t, v, fr)
  {
    hide ParseValue, Means, SkipSpace, ItemText, IsItem;
    if d: Document :| IsItem(d) && ItemText(d) == t && Means(d.value, fr) == Some(v) {
      DerivableIsParsed(d, fr);
    }
    if ParseJson(t, fr) == Some(v) {
      SkipsFirst(t, 0, fr);
      var d := ItemDerives(t, 0, fr);
      assert t[0..|t|] == t;
    }
  }

  /** No text has two meanings. */
  lemma MeaningIsUnique(d: Document, e: Document, fr: FloatReader)
    requires IsItem(d) && IsItem(e) && ItemText(d) == ItemText(e)
    ensures Means(d.value, fr) == Means(e.value, fr)
  {
    DerivableIsParsed(d, fr);
    DerivableIsParsed(e, fr);
  }
}
