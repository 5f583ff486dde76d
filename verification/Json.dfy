/** JSON values, the serializer, and the parser as functions of the text and a position
    (src/base/json/json_value.cpp). A byte is modelled as the character with that code, and the
    conversion of floating-point tokens is a parameter. */
module Json {
  import opened Wrappers
  import opened Digits

  datatype JsonValue =
    | JNull
    | JBool(boolVal: bool)
    | JInt(intVal: int)
    | JFloat(floatVal: real)
    | JString(stringVal: string)
    | JArray(items: seq<JsonValue>)
    | JObject(fields: seq<Field>)

  datatype Field = Field(key: string, value: JsonValue)

  type FloatReader = string -> Option<real>
  type FloatWriter = real -> string

  // ---------------------------------------------------------------- serializing

  function HexDigit(d: nat): char
    requires d < 16
  {
    if d < 10 then '0' + d as char else 'a' + (d - 10) as char
  }

  /** The spelling of one character inside a string value. */
  function EscapeChar(c: char): (s: string)
    ensures |s| > 0
  {
    if c == '\\' then "\\\\"
    else if c == '"' then "\\\""
    else if c == 8 as char then "\\b"
    else if c == 12 as char then "\\f"
    else if c == '\n' then "\\n"
    else if c == '\r' then "\\r"
    else if c == '\t' then "\\t"
    else if c as nat < 0x20 then "\\u00" + [HexDigit(c as nat / 16), HexDigit(c as nat % 16)]
    else [c]
  }

  /** Keys are escaped less: control characters are written as they are. */
  function EscapeKeyChar(c: char): (s: string)
    ensures |s| > 0
  {
    if c == '\\' then "\\\\" else if c == '"' then "\\\"" else [c]
  }

  function EscapeFrom(s: string, i: nat): string
    requires i <= |s|
    decreases |s| - i
  {
    if i == |s| then "" else EscapeChar(s[i]) + EscapeFrom(s, i + 1)
  }

  function EscapeKeyFrom(s: string, i: nat): string
    requires i <= |s|
    decreases |s| - i
  {
    if i == |s| then "" else EscapeKeyChar(s[i]) + EscapeKeyFrom(s, i + 1)
  }

  function QuoteString(s: string): string {
    "\"" + EscapeFrom(s, 0) + "\""
  }

  function QuoteKey(s: string): string {
    "\"" + EscapeKeyFrom(s, 0) + "\""
  }

  function Serialize(v: JsonValue, fw: FloatWriter): string
    decreases v
  {
    match v
    case JNull => "null"
    case JBool(b) => if b then "true" else "false"
    case JInt(n) => RenderInt(n)
    case JFloat(f) => fw(f)
    case JString(s) => QuoteString(s)
    case JArray(items) => "[" + SerializeItems(v, 0, fw) + "]"
    case JObject(fields) => "{" + SerializeFields(v, 0, fw) + "}"
  }

  /** The items from i on, separated by commas, with a comma before item i unless it is the first. */
  function SerializeItems(v: JsonValue, i: nat, fw: FloatWriter): string
    requires v.JArray? && i <= |v.items|
    decreases v, |v.items| - i + 1
  {
    if i == |v.items| then ""
    else (if i > 0 then "," else "") + Serialize(v.items[i], fw) + SerializeItems(v, i + 1, fw)
  }

  function SerializeFields(v: JsonValue, i: nat, fw: FloatWriter): string
    requires v.JObject? && i <= |v.fields|
    decreases v, |v.fields| - i + 1
  {
    if i == |v.fields| then ""
    else (if i > 0 then "," else "") + FieldText(v.fields[i], fw) + SerializeFields(v, i + 1, fw)
  }

  function FieldText(f: Field, fw: FloatWriter): string
    decreases f
  {
    QuoteKey(f.key) + ":" + Serialize(f.value, fw)
  }

  // -------------------------------------------------------------------- parsing

  /** A value and the position just after it. */
  datatype Parsed<+T> = Parsed(value: T, next: nat)

  predicate IsSpace(c: char) {
    c == ' ' || c == '\t' || c == '\n' || c == '\r'
  }

  function SkipSpace(t: string, p: nat): (q: nat)
    requires p <= |t|
    ensures p <= q <= |t|
    decreases |t| - p
  {
    if p < |t| && IsSpace(t[p]) then SkipSpace(t, p + 1) else p
  }

  predicate Sees(t: string, p: nat, c: char) {
    p < |t| && t[p] == c
  }

  predicate SeesWord(t: string, p: nat, w: string) {
    p + |w| <= |t| && t[p..p + |w|] == w
  }

  function DigitsEnd(t: string, p: nat): (q: nat)
    requires p <= |t|
    ensures p <= q <= |t| && AllDigits(t[p..q])
    ensures q < |t| ==> !IsDigit(t[q])
    decreases |t| - p
  {
    if p < |t| && IsDigit(t[p]) then
      var q := DigitsEnd(t, p + 1);
      assert t[p..q] == [t[p]] + t[p + 1..q];
      q
    else p
  }

  /** The integer part of a number: where it ends. */
  function IntegerEnd(t: string, p: nat): (r: Option<nat>)
    requires p <= |t|
    ensures r.Some? ==> p < r.value <= |t|
  {
    var q := if Sees(t, p, '-') then p + 1 else p;
    if q >= |t| || !IsDigit(t[q]) then None
    else if t[q] == '0' then Some(q + 1)
    else Some(DigitsEnd(t, q))
  }

  /** The optional fraction: None when a point is not followed by a digit. */
  function FractionEnd(t: string, p: nat): (r: Option<nat>)
    requires p <= |t|
    ensures r.Some? ==> p <= r.value <= |t|
  {
    if !Sees(t, p, '.') then Some(p)
    else if p + 1 >= |t| || !IsDigit(t[p + 1]) then None
    else Some(DigitsEnd(t, p + 1))
  }

  function ExponentEnd(t: string, p: nat): (r: Option<nat>)
    requires p <= |t|
    ensures r.Some? ==> p <= r.value <= |t|
  {
    if !Sees(t, p, 'e') && !Sees(t, p, 'E') then Some(p)
    else
      var q := if Sees(t, p + 1, '+') || Sees(t, p + 1, '-') then p + 2 else p + 1;
      if q >= |t| || !IsDigit(t[q]) then None else Some(DigitsEnd(t, q))
  }

  function ParseNumber(t: string, p: nat, fr: FloatReader): (r: Option<Parsed<JsonValue>>)
    requires p <= |t|
    ensures r.Some? ==> p < r.value.next <= |t|
  {
    match IntegerEnd(t, p)
    case None => None
    case Some(i) =>
      match FractionEnd(t, i)
      case None => None
      case Some(f) =>
        match ExponentEnd(t, f)
        case None => None
        case Some(e) =>
          var token := t[p..e];
          if e == i && FromChars(token).Some? then Some(Parsed(JInt(FromChars(token).value), e))
          else
            match fr(token)
            case None => None
            case Some(x) => Some(Parsed(JFloat(x), e))
  }

  function HexValue(c: char): (r: Option<nat>)
    ensures r.Some? ==> r.value < 16
  {
    if '0' <= c <= '9' then Some(c as nat - '0' as nat)
    else if 'a' <= c <= 'f' then Some(c as nat - 'a' as nat + 10)
    else if 'A' <= c <= 'F' then Some(c as nat - 'A' as nat + 10)
    else None
  }

  function Pow16(n: nat): nat {
    if n == 0 then 1 else 16 * Pow16(n - 1)
  }

  /** The value of the first n hex digits at p. */
  function HexPrefix(t: string, p: nat, n: nat): (r: Option<nat>)
    requires p + n <= |t|
    ensures r.Some? ==> r.value < Pow16(n)
  {
    if n == 0 then Some(0)
    else
      match HexPrefix(t, p, n - 1)
      case None => None
      case Some(v) =>
        match HexValue(t[p + n - 1])
        case None => None
        case Some(d) => Some(v * 0x10 + d)
  }

  lemma HexDigitReadsBack(d: nat)
    requires d < 16
    ensures HexValue(HexDigit(d)) == Some(d)
  {
  }

  function ParseHex4(t: string, p: nat): (r: Option<nat>)
    ensures r.Some? ==> p + 4 <= |t| && r.value < 0x10000
  {
    if p + 4 > |t| then None
    else
      assert Pow16(4) == 16 * (16 * (16 * (16 * Pow16(0))));
      HexPrefix(t, p, 4)
  }

  predicate IsHighSurrogate(code: nat) {
    0xD800 <= code <= 0xDBFF
  }

  predicate IsLowSurrogate(code: nat) {
    0xDC00 <= code <= 0xDFFF
  }

  /** After a backslash and u: four hex digits, or a surrogate pair written as two such escapes. */
  function ParseUnicodeEscape(t: string, p: nat): (r: Option<Parsed<nat>>)
    ensures r.Some? ==> p < r.value.next <= |t| && r.value.value <= 0x10FFFF
    decreases |t| - p
  {
    match ParseHex4(t, p)
    case None => None
    case Some(code) =>
      if IsHighSurrogate(code) then
        if p + 10 > |t| || t[p + 4] != '\\' || t[p + 5] != 'u' then None
        else
          match ParseUnicodeEscape(t, p + 6)
          case None => None
          case Some(low) =>
            if !IsLowSurrogate(low.value) then None
            else Some(Parsed(0x10000 + (code - 0xD800) * 0x400 + (low.value - 0xDC00), low.next))
      else Some(Parsed(code, p + 4))
  }

  function Byte(n: nat): char
    requires n < 0x100
  {
    n as char
  }

  function EncodeUtf8(code: nat): string {
    if code <= 0x7F then [Byte(code)]
    else if code <= 0x7FF then [Byte(0xC0 + code / 0x40), Byte(0x80 + code % 0x40)]
    else if code <= 0xFFFF then
      [Byte(0xE0 + code / 0x1000), Byte(0x80 + code / 0x40 % 0x40), Byte(0x80 + code % 0x40)]
    else if code <= 0x10FFFF then
      [Byte(0xF0 + code / 0x40000), Byte(0x80 + code / 0x1000 % 0x40), Byte(0x80 + code / 0x40 % 0x40),
       Byte(0x80 + code % 0x40)]
    else ""
  }

  /** What a one-letter escape stands for. */
  function SimpleEscape(c: char): Option<char> {
    match c
    case '"' => Some('"')
    case '\\' => Some('\\')
    case '/' => Some('/')
    case 'b' => Some(8 as char)
    case 'f' => Some(12 as char)
    case 'n' => Some('\n')
    case 'r' => Some('\r')
    case 't' => Some('\t')
    case _ => None
  }

  /** One step inside a string: the characters produced and the position after. */
  function ParseChar(t: string, p: nat): (r: Option<Parsed<string>>)
    requires p < |t|
    ensures r.Some? ==> p < r.value.next <= |t|
  {
    if t[p] == '\\' then
      if p + 1 >= |t| then None
      else if t[p + 1] == 'u' then
        match ParseUnicodeEscape(t, p + 2)
        case None => None
        case Some(code) => Some(Parsed(EncodeUtf8(code.value), code.next))
      else
        match SimpleEscape(t[p + 1])
        case None => None
        case Some(c) => Some(Parsed([c], p + 2))
    else if t[p] as nat < 0x20 then None
    else Some(Parsed([t[p]], p + 1))
  }

  /** The rest of a string after its opening quote. */
  function ParseStringRest(t: string, p: nat, acc: string): (r: Option<Parsed<string>>)
    requires p <= |t|
    ensures r.Some? ==> p < r.value.next <= |t|
    decreases |t| - p
  {
    if p >= |t| then None
    else if t[p] == '"' then Some(Parsed(acc, p + 1))
    else
      match ParseChar(t, p)
      case None => None
      case Some(c) => ParseStringRest(t, c.next, acc + c.value)
  }

  function ParseString(t: string, p: nat): (r: Option<Parsed<string>>)
    requires p <= |t|
    ensures r.Some? ==> p < r.value.next <= |t|
  {
    if Sees(t, p, '"') then ParseStringRest(t, p + 1, "") else None
  }

  predicate HasKey(fields: seq<Field>, key: string) {
    exists i :: 0 <= i < |fields| && fields[i].key == key
  }

  function ParseValue(t: string, start: nat, fr: FloatReader): (r: Option<Parsed<JsonValue>>)
    requires start <= |t|
    ensures r.Some? ==> start < r.value.next <= |t|
    decreases |t| - start, 1
  {
    var p := SkipSpace(t, start);
    if p >= |t| then None
    else if t[p] == '"' then
      match ParseString(t, p)
      case None => None
      case Some(s) => Some(Parsed(JString(s.value), s.next))
    else if t[p] == '{' then ParseObject(t, p, fr)
    else if t[p] == '[' then ParseArray(t, p, fr)
    else if t[p] == 't' || t[p] == 'f' then
      if SeesWord(t, p, "true") then Some(Parsed(JBool(true), p + 4))
      else if SeesWord(t, p, "false") then Some(Parsed(JBool(false), p + 5))
      else None
    else if t[p] == 'n' then
      if SeesWord(t, p, "null") then Some(Parsed(JNull, p + 4)) else None
    else if t[p] == '-' || IsDigit(t[p]) then ParseNumber(t, p, fr)
    else None
  }

  function ParseArray(t: string, p: nat, fr: FloatReader): (r: Option<Parsed<JsonValue>>)
    requires Sees(t, p, '[')
    ensures r.Some? ==> p < r.value.next <= |t|
    decreases |t| - p, 0
  {
    var q := SkipSpace(t, p + 1);
    if Sees(t, q, ']') then Some(Parsed(JArray([]), q + 1)) else ParseItems(t, q, [], fr)
  }

  /** An item, then a closing bracket or a comma and more items. */
  function ParseItems(t: string, p: nat, items: seq<JsonValue>, fr: FloatReader): (r: Option<Parsed<JsonValue>>)
    requires p <= |t|
    ensures r.Some? ==> p < r.value.next <= |t|
    decreases |t| - p, 2
  {
    match ParseValue(t, p, fr)
    case None => None
    case Some(item) =>
      var q := SkipSpace(t, item.next);
      if Sees(t, q, ']') then Some(Parsed(JArray(items + [item.value]), q + 1))
      else if Sees(t, q, ',') then ParseItems(t, q + 1, items + [item.value], fr)
      else None
  }

  function ParseObject(t: string, p: nat, fr: FloatReader): (r: Option<Parsed<JsonValue>>)
    requires Sees(t, p, '{')
    ensures r.Some? ==> p < r.value.next <= |t|
    decreases |t| - p, 0
  {
    var q := SkipSpace(t, p + 1);
    if Sees(t, q, '}') then Some(Parsed(JObject([]), q + 1)) else ParseFields(t, q, [], fr)
  }

  /** One field; a key seen before in the same object is an error. */
  function ParseField(t: string, start: nat, fields: seq<Field>, fr: FloatReader): (r: Option<Parsed<Field>>)
    requires start <= |t|
    ensures r.Some? ==> start < r.value.next <= |t|
    decreases |t| - start, 2
  {
    match ParseString(t, SkipSpace(t, start))
    case None => None
    case Some(key) =>
      var colon := SkipSpace(t, key.next);
      if !Sees(t, colon, ':') then None
      else
        match ParseValue(t, colon + 1, fr)
        case None => None
        case Some(value) =>
          if HasKey(fields, key.value) then None
          else Some(Parsed(Field(key.value, value.value), value.next))
  }

  function ParseFields(t: string, p: nat, fields: seq<Field>, fr: FloatReader): (r: Option<Parsed<JsonValue>>)
    requires p <= |t|
    ensures r.Some? ==> p < r.value.next <= |t|
    decreases |t| - p, 3
  {
    match ParseField(t, p, fields, fr)
    case None => None
    case Some(field) =>
      var q := SkipSpace(t, field.next);
      if Sees(t, q, '}') then Some(Parsed(JObject(fields + [field.value]), q + 1))
      else if Sees(t, q, ',') then ParseFields(t, q + 1, fields + [field.value], fr)
      else None
  }

  /** A whole document: one value, spaces around it, nothing after. */
  function ParseJson(t: string, fr: FloatReader): Option<JsonValue> {
    match ParseValue(t, SkipSpace(t, 0), fr)
    case None => None
    case Some(v) => if SkipSpace(t, v.next) == |t| then Some(v.value) else None
  }
}
