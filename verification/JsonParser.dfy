/** The recursive-descent parser and the serializer as the source runs them: a position that
    advances through the text, and a stream that is appended to. Each is proved against the
    functions of module Json. */
module JsonParser {
  import opened Wrappers
  import opened Digits
  import opened Json

  /** A method's outcome against the function it implements; after a failure the position is not used. */
  ghost predicate Agrees<T>(spec: Option<Parsed<T>>, r: Option<T>, pos: nat) {
    match spec
    case None => r.None?
    case Some(x) => r == Some(x.value) && pos == x.next
  }

  class Parser {
    const input: string
    const readFloat: FloatReader
    var pos: nat

    constructor (input: string, readFloat: FloatReader)
      ensures this.input == input && this.readFloat == readFloat && pos == 0
    {
      this.input, this.readFloat, pos := input, readFloat, 0;
    }

    predicate AtEnd()
      reads this
    {
      pos >= |input|
    }

    /** The character at the position; a NUL at the end. */
    function Peek(): char
      reads this
    {
      if AtEnd() then '\0' else input[pos]
    }

    method Consume(expected: char) returns (r: bool)
      requires pos <= |input| && expected != '\0'
      modifies this
      ensures r <==> Sees(input, old(pos), expected)
      ensures pos == if r then old(pos) + 1 else old(pos)
    {
      r := Peek() == expected;
      if r {
        pos := pos + 1;
      }
    }

    method SkipWhitespace()
      requires pos <= |input|
      modifies this
      ensures pos == SkipSpace(input, old(pos)) && pos <= |input|
    {
      while !AtEnd()
        invariant pos <= |input| && SkipSpace(input, pos) == SkipSpace(input, old(pos))
        decreases |input| - pos
      {
        if IsSpace(input[pos]) {
          pos := pos + 1;
        } else {
          break;
        }
      }
    }

    method SkipDigits()
      requires pos <= |input|
      modifies this
      ensures pos == DigitsEnd(input, old(pos)) && pos <= |input|
    {
      while !AtEnd() && IsDigit(Peek())
        invariant pos <= |input| && DigitsEnd(input, pos) == DigitsEnd(input, old(pos))
        decreases |input| - pos
      {
        pos := pos + 1;
      }
    }

    method SkipInteger() returns (ok: bool)
      requires pos <= |input|
      modifies this
      ensures pos <= |input| && ok == IntegerEnd(input, old(pos)).Some?
      ensures ok ==> IntegerEnd(input, old(pos)) == Some(pos)
    {
      if Peek() == '-' {
        pos := pos + 1;
      }
      if AtEnd() || !IsDigit(Peek()) {
        return false;
      }
      if Peek() == '0' {
        pos := pos + 1;
      } else {
        SkipDigits();
      }
      return true;
    }

    method SkipFraction() returns (ok: bool)
      requires pos <= |input|
      modifies this
      ensures pos <= |input| && ok == FractionEnd(input, old(pos)).Some?
      ensures ok ==> FractionEnd(input, old(pos)) == Some(pos)
    {
      if !AtEnd() && Peek() == '.' {
        pos := pos + 1;
        if AtEnd() || !IsDigit(Peek()) {
          return false;
        }
        SkipDigits();
      }
      return true;
    }

    method SkipExponent() returns (ok: bool)
      requires pos <= |input|
      modifies this
      ensures pos <= |input| && ok == ExponentEnd(input, old(pos)).Some?
      ensures ok ==> ExponentEnd(input, old(pos)) == Some(pos)
    {
      if !AtEnd() && (Peek() == 'e' || Peek() == 'E') {
        pos := pos + 1;
        if !AtEnd() && (Peek() == '+' || Peek() == '-') {
          pos := pos + 1;
        }
        if AtEnd() || !IsDigit(Peek()) {
          return false;
        }
        SkipDigits();
      }
      return true;
    }

    method ParseNumberToken() returns (r: Option<JsonValue>)
      requires pos <= |input|
      modifies this
      ensures pos <= |input| && Agrees(ParseNumber(input, old(pos), readFloat), r, pos)
    {
      hide IntegerEnd, FractionEnd, ExponentEnd, FromChars;
      var start := pos;
      var ok := SkipInteger();
      if !ok {
        pos := start;
        return None;
      }
      var integerEnd := pos;
      ok := SkipFraction();
      if !ok {
        pos := start;
        return None;
      }
      ok := SkipExponent();
      if !ok {
        pos := start;
        return None;
      }
      var token := input[start..pos];
      var isFloat := pos != integerEnd;
      if !isFloat {
        var n := FromChars(token);
        if n.Some? {
          return Some(JInt(n.value));
        }
      }
      var x := readFloat(token);
      if x.None? {
        pos := start;
        return None;
      }
      return Some(JFloat(x.value));
    }

    method ParseHexDigits() returns (r: Option<nat>)
      requires pos <= |input|
      modifies this
      ensures pos <= |input| && r == ParseHex4(input, old(pos))
      ensures r.Some? ==> pos == old(pos) + 4
    {
      if pos + 4 > |input| {
        return None;
      }
      var code: nat := 0;
      ghost var p := pos;
      for i := 0 to 4
        invariant pos == p + i && p + 4 <= |input|
        invariant HexPrefix(input, p, i) == Some(code)
      {
        var digit := HexValue(input[pos]);
        pos := pos + 1;
        if digit.None? {
          BadHexDigit(input, p, i, 4);
          return None;
        }
        code := code * 0x10 + digit.value;
      }
      return Some(code);
    }

    method ParseUnicode() returns (r: Option<nat>)
      requires pos <= |input|
      modifies this
      ensures pos <= |input| && Agrees(ParseUnicodeEscape(input, old(pos)), r, pos)
      decreases |input| - pos
    {
      r := ParseHexDigits();
      if r.None? {
        return None;
      }
      var code := r.value;
      if IsHighSurrogate(code) {
        if pos + 6 > |input| || input[pos] != '\\' || input[pos + 1] != 'u' {
          return None;
        }
        pos := pos + 2;
        var low := ParseUnicode();
        if low.None? || !IsLowSurrogate(low.value) {
          return None;
        }
        r := Some(0x10000 + (code - 0xD800) * 0x400 + (low.value - 0xDC00));
      }
    }

    /** One character of a string, or the escape that stands for it. */
    method ParseCharacter() returns (r: Option<string>)
      requires pos < |input|
      modifies this
      ensures pos <= |input| && Agrees(ParseChar(input, old(pos)), r, pos)
    {
      var c := input[pos];
      pos := pos + 1;
      if c == '\\' {
        if AtEnd() {
          return None;
        }
        var esc := input[pos];
        pos := pos + 1;
        if esc == 'u' {
          var code := ParseUnicode();
          r := if code.None? then None else Some(EncodeUtf8(code.value));
        } else {
          var simple := SimpleEscape(esc);
          r := if simple.None? then None else Some([simple.value]);
        }
      } else if c as nat < 0x20 {
        r := None;
      } else {
        r := Some([c]);
      }
    }

    method ParseStringToken() returns (r: Option<string>)
      requires pos <= |input|
      modifies this
      ensures pos <= |input| && Agrees(ParseString(input, old(pos)), r, pos)
    {
      hide ParseChar;
      var open := Consume('"');
      if !open {
        return None;
      }
      var result := "";
      while !AtEnd()
        invariant pos <= |input| && Sees(input, old(pos), '"')
        invariant ParseString(input, old(pos)) == ParseStringRest(input, pos, result)
        decreases |input| - pos
      {
        if input[pos] == '"' {
          pos := pos + 1;
          return Some(result);
        }
        var c := ParseCharacter();
        if c.None? {
          return None;
        }
        result := result + c.value;
      }
      return None;
    }

    method Parse() returns (r: Option<JsonValue>)
      requires pos == 0
      modifies this
      ensures r == ParseJson(input, readFloat)
    {
      SkipWhitespace();
      r := Value();
      if r.None? {
        return None;
      }
      SkipWhitespace();
      if pos != |input| {
        return None;
      }
    }

    method Value() returns (r: Option<JsonValue>)
      requires pos <= |input|
      modifies this
      ensures pos <= |input| && Agrees(ParseValue(input, old(pos), readFloat), r, pos)
      decreases |input| - pos, 1
    {
      SkipWhitespace();
      if AtEnd() {
        return None;
      }
      var c := Peek();
      if c == '"' {
        var s := ParseStringToken();
        if s.None? {
          return None;
        }
        return Some(JString(s.value));
      } else if c == '{' {
        r := Object();
      } else if c == '[' {
        r := Array();
      } else if c == 't' || c == 'f' {
        if SeesWord(input, pos, "true") {
          pos := pos + 4;
          return Some(JBool(true));
        }
        if SeesWord(input, pos, "false") {
          pos := pos + 5;
          return Some(JBool(false));
        }
        return None;
      } else if c == 'n' {
        if SeesWord(input, pos, "null") {
          pos := pos + 4;
          return Some(JNull);
        }
        return None;
      } else if c == '-' || IsDigit(c) {
        r := ParseNumberToken();
      } else {
        return None;
      }
    }

    method Array() returns (r: Option<JsonValue>)
      requires Sees(input, pos, '[')
      modifies this
      ensures pos <= |input| && Agrees(ParseArray(input, old(pos), readFloat), r, pos)
      decreases |input| - pos, 0
    {
      hide ParseValue, SkipSpace;
      var _ := Consume('[');
      SkipWhitespace();
      var done := Consume(']');
      if done {
        return Some(JArray([]));
      }
      var items: seq<JsonValue> := [];
      while true
        invariant old(pos) < pos <= |input|
        invariant ParseArray(input, old(pos), readFloat) == ParseItems(input, pos, items, readFloat)
        decreases |input| - pos
      {
        var item := Value();
        if item.None? {
          return None;
        }
        items := items + [item.value];
        SkipWhitespace();
        done := Consume(']');
        if done {
          return Some(JArray(items));
        }
        var more := Consume(',');
        if !more {
          return None;
        }
      }
    }

    method Object() returns (r: Option<JsonValue>)
      requires Sees(input, pos, '{')
      modifies this
      ensures pos <= |input| && Agrees(ParseObject(input, old(pos), readFloat), r, pos)
      decreases |input| - pos, 0
    {
      hide ParseField, SkipSpace;
      var _ := Consume('{');
      SkipWhitespace();
      var done := Consume('}');
      if done {
        return Some(JObject([]));
      }
      var fields: seq<Field> := [];
      while true
        invariant old(pos) < pos <= |input|
        invariant ParseObject(input, old(pos), readFloat) == ParseFields(input, pos, fields, readFloat)
        decreases |input| - pos
      {
        var field := FieldOf(fields);
        if field.None? {
          return None;
        }
        fields := fields + [field.value];
        SkipWhitespace();
        done := Consume('}');
        if done {
          return Some(JObject(fields));
        }
        var more := Consume(',');
        if !more {
          return None;
        }
      }
    }

    /** One round of the object loop up to and including the duplicate-key check. */
    method FieldOf(fields: seq<Field>) returns (r: Option<Field>)
      requires pos <= |input|
      modifies this
      ensures pos <= |input| && Agrees(ParseField(input, old(pos), fields, readFloat), r, pos)
      decreases |input| - pos, 2
    {
      SkipWhitespace();
      var key := ParseStringToken();
      if key.None? {
        return None;
      }
      SkipWhitespace();
      var colon := Consume(':');
      if !colon {
        return None;
      }
      var value := Value();
      if value.None? {
        return None;
      }
      var seen := Lookup(fields, key.value);
      if seen.Some? {
        return None;
      }
      return Some(Field(key.value, value.value));
    }
  }

  lemma {:induction false} BadHexDigit(t: string, p: nat, i: nat, n: nat)
    requires i < n && p + n <= |t| && HexValue(t[p + i]).None?
    ensures HexPrefix(t, p, n) == None
  {
    if i < n - 1 {
      BadHexDigit(t, p, i, n - 1);
    }
  }

  /** JsonValue::get: the value of the first field with this key. */
  method Lookup(fields: seq<Field>, key: string) returns (r: Option<JsonValue>)
    ensures r.Some? <==> HasKey(fields, key)
    ensures r.Some? ==> exists i :: 0 <= i < |fields| && fields[i] == Field(key, r.value)
                                    && forall k :: 0 <= k < i ==> fields[k].key != key
  {
    for i := 0 to |fields|
      invariant forall k :: 0 <= k < i ==> fields[k].key != key
    {
      if fields[i].key == key {
        return Some(fields[i].value);
      }
    }
    return None;
  }

  class Stream {
    var text: string

    constructor ()
      ensures text == ""
    {
      text := "";
    }
  }

  method WriteString(s: string, out: Stream)
    modifies out
    ensures out.text == old(out.text) + QuoteString(s)
  {
    hide EscapeChar;
    out.text := out.text + "\"";
    for i := 0 to |s|
      invariant out.text + EscapeFrom(s, i) == old(out.text) + "\"" + EscapeFrom(s, 0)
    {
      assert EscapeFrom(s, i) == EscapeChar(s[i]) + EscapeFrom(s, i + 1);
      out.text := out.text + EscapeChar(s[i]);
    }
    assert old(out.text) + QuoteString(s) == old(out.text) + "\"" + EscapeFrom(s, 0) + "\"";
    out.text := out.text + "\"";
  }

  method WriteKey(s: string, out: Stream)
    modifies out
    ensures out.text == old(out.text) + QuoteKey(s)
  {
    hide EscapeKeyChar;
    out.text := out.text + "\"";
    for i := 0 to |s|
      invariant out.text + EscapeKeyFrom(s, i) == old(out.text) + "\"" + EscapeKeyFrom(s, 0)
    {
      assert EscapeKeyFrom(s, i) == EscapeKeyChar(s[i]) + EscapeKeyFrom(s, i + 1);
      out.text := out.text + EscapeKeyChar(s[i]);
    }
    assert old(out.text) + QuoteKey(s) == old(out.text) + "\"" + EscapeKeyFrom(s, 0) + "\"";
    out.text := out.text + "\"";
  }

  method SerializeImpl(v: JsonValue, out: Stream, writeFloat: FloatWriter)
    modifies out
    ensures out.text == old(out.text) + Serialize(v, writeFloat)
    decreases v
  {
    match v {
      case JNull => out.text := out.text + "null";
      case JBool(b) => out.text := out.text + (if b then "true" else "false");
      case JInt(n) => out.text := out.text + RenderInt(n);
      case JFloat(f) => out.text := out.text + writeFloat(f);
      case JString(s) => WriteString(s, out);
      case JArray(_) => SerializeArray(v, out, writeFloat);
      case JObject(_) => SerializeObject(v, out, writeFloat);
    }
  }

  method SerializeArray(v: JsonValue, out: Stream, writeFloat: FloatWriter)
    requires v.JArray?
    modifies out
    ensures out.text == old(out.text) + Serialize(v, writeFloat)
    decreases v, 0
  {
    hide Serialize, SerializeItems;
    ghost var whole := old(out.text) + Serialize(v, writeFloat);
    ItemsBegin(v, out.text, writeFloat);
    out.text := out.text + "[";
    var first := true;
    for i := 0 to |v.items|
      invariant first <==> i == 0
      invariant out.text + SerializeItems(v, i, writeFloat) + "]" == whole
    {
      ItemsUnfold(v, i, out.text, writeFloat);
      if !first {
        out.text := out.text + ",";
      }
      first := false;
      SerializeImpl(v.items[i], out, writeFloat);
    }
    ItemsEnd(v, out.text, writeFloat);
    out.text := out.text + "]";
  }

  lemma ItemsBegin(v: JsonValue, pre: string, writeFloat: FloatWriter)
    requires v.JArray?
    ensures pre + Serialize(v, writeFloat) == pre + "[" + SerializeItems(v, 0, writeFloat) + "]"
  {
    hide SerializeItems;
  }

  lemma ItemsUnfold(v: JsonValue, i: nat, pre: string, writeFloat: FloatWriter)
    requires v.JArray? && i < |v.items|
    ensures pre + SerializeItems(v, i, writeFloat)
      == (if i > 0 then pre + "," else pre) + Serialize(v.items[i], writeFloat) + SerializeItems(v, i + 1, writeFloat)
  {
    hide Serialize;
  }

  lemma ItemsEnd(v: JsonValue, pre: string, writeFloat: FloatWriter)
    requires v.JArray?
    ensures pre + SerializeItems(v, |v.items|, writeFloat) == pre
  {
  }

  method SerializeObject(v: JsonValue, out: Stream, writeFloat: FloatWriter)
    requires v.JObject?
    modifies out
    ensures out.text == old(out.text) + Serialize(v, writeFloat)
    decreases v, 0
  {
    hide Serialize, SerializeFields, FieldText;
    ghost var whole := old(out.text) + Serialize(v, writeFloat);
    FieldsBegin(v, out.text, writeFloat);
    out.text := out.text + "{";
    var first := true;
    for i := 0 to |v.fields|
      invariant first <==> i == 0
      invariant out.text + SerializeFields(v, i, writeFloat) + "}" == whole
    {
      FieldsUnfold(v, i, out.text, writeFloat);
      if !first {
        out.text := out.text + ",";
      }
      first := false;
      WriteField(v.fields[i], out, writeFloat);
    }
    FieldsEnd(v, out.text, writeFloat);
    out.text := out.text + "}";
  }

  lemma FieldsBegin(v: JsonValue, pre: string, writeFloat: FloatWriter)
    requires v.JObject?
    ensures pre + Serialize(v, writeFloat) == pre + "{" + SerializeFields(v, 0, writeFloat) + "}"
  {
    hide SerializeFields;
  }

  lemma FieldsEnd(v: JsonValue, pre: string, writeFloat: FloatWriter)
    requires v.JObject?
    ensures pre + SerializeFields(v, |v.fields|, writeFloat) == pre
  {
  }

  method WriteField(f: Field, out: Stream, writeFloat: FloatWriter)
    modifies out
    ensures out.text == old(out.text) + FieldText(f, writeFloat)
    decreases f
  {
    WriteKey(f.key, out);
    out.text := out.text + ":";
    SerializeImpl(f.value, out, writeFloat);
    assert out.text == old(out.text) + QuoteKey(f.key) + ":" + Serialize(f.value, writeFloat);
  }

  lemma FieldsUnfold(v: JsonValue, i: nat, pre: string, writeFloat: FloatWriter)
    requires v.JObject? && i < |v.fields|
    ensures pre + SerializeFields(v, i, writeFloat)
      == (if i > 0 then pre + "," else pre) + FieldText(v.fields[i], writeFloat) + SerializeFields(v, i + 1, writeFloat)
  {
    hide FieldText;
  }

  method SerializeJson(v: JsonValue, writeFloat: FloatWriter) returns (s: string)
    ensures s == Serialize(v, writeFloat)
  {
    var out := new Stream();
    SerializeImpl(v, out, writeFloat);
    s := out.text;
  }
}
