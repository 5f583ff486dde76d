/** The text that the serializer (src/base/json/json_value.cpp) writes, told by what it adds for one more
    character, item or field, and its escapes told by the grammar. */
module JsonText {
  import opened Wrappers
  import opened Digits
  import opened Json
  import opened JsonGrammar

  /** The text without its closing quote or bracket. */
  function Open(text: string): string {
    if text == "" then "" else text[..|text| - 1]
  }

  /** Opened, a text takes more before its last character. */
  lemma More(front: string, body: string, more: string, last: string)
    requires |last| == 1
    ensures Open(front + body + last) == front + body
    ensures front + (body + more) + last == Open(front + body + last) + more + last
  {
    assert (front + body + last)[..|front + body|] == front + body;
    assert front + (body + more) == front + body + more;
  }

  // ------------------------------------------------------------------------ strings

  /** A character with a short escape is written by it, the slash excepted; another control character by its
      code in lower-case digits; every other one as it is. */
  lemma EscapesAreShortest(c: char, letter: char)
    ensures EscapeCode(letter) == Some(c) && c != '/' ==> EscapeChar(c) == ['\\', letter]
    ensures c as nat < 0x20 && (forall l :: EscapeCode(l) != Some(c)) ==>
      var s := EscapeChar(c);
      && |s| == 6 && s[..4] == "\\u00" && HexCode(s[4]).Some? && HexCode(s[5]).Some?
      && HexCode(s[4]).value * 0x10 + HexCode(s[5]).value == c as nat
      && !('A' <= s[4] <= 'F') && !('A' <= s[5] <= 'F')
    ensures c as nat >= 0x20 && (c == '/' || forall l :: EscapeCode(l) != Some(c)) ==> EscapeChar(c) == [c]
  {
    assert EscapeCode('"') == Some('"') && EscapeCode('\\') == Some('\\');
    assert EscapeCode('b') == Some(8 as char) && EscapeCode('f') == Some(12 as char);
    assert EscapeCode('n') == Some(10 as char) && EscapeCode('r') == Some(13 as char);
    assert EscapeCode('t') == Some(9 as char);
    if c as nat < 0x20 {
      HexDigitReadsBack(c as nat / 16);
      HexDigitReadsBack(c as nat % 16);
    }
  }

  /** In keys only the quote and the backslash are escaped. */
  lemma KeyEscapes(c: char)
    ensures EscapeKeyChar(c) == if c == '"' || c == '\\' then ['\\', c] else [c]
  {
  }

  lemma {:induction false} EscapesGrow(s: string, c: char, i: nat)
    requires i <= |s|
    ensures EscapeFrom(s + [c], i) == EscapeFrom(s, i) + EscapeChar(c)
    decreases |s| - i
  {
    hide EscapeChar;
    if i == |s| {
      assert EscapeFrom(s + [c], i + 1) == "";
    } else {
      EscapesGrow(s, c, i + 1);
    }
  }

  lemma {:induction false} KeyEscapesGrow(s: string, c: char, i: nat)
    requires i <= |s|
    ensures EscapeKeyFrom(s + [c], i) == EscapeKeyFrom(s, i) + EscapeKeyChar(c)
    decreases |s| - i
  {
    hide EscapeKeyChar;
    if i == |s| {
      assert EscapeKeyFrom(s + [c], i + 1) == "";
    } else {
      KeyEscapesGrow(s, c, i + 1);
    }
  }

  /** One more character. */
  lemma StringGrows(s: string, c: char)
    ensures QuoteString("") == QuoteKey("") == "\"\""
    ensures QuoteString(s + [c]) == Open(QuoteString(s)) + EscapeChar(c) + "\""
    ensures QuoteKey(s + [c]) == Open(QuoteKey(s)) + EscapeKeyChar(c) + "\""
  {
    hide EscapeFrom, EscapeKeyFrom, EscapeChar, EscapeKeyChar, Open;
    NoEscapes();
    EscapesGrow(s, c, 0);
    KeyEscapesGrow(s, c, 0);
    More("\"", EscapeFrom(s, 0), EscapeChar(c), "\"");
    More("\"", EscapeKeyFrom(s, 0), EscapeKeyChar(c), "\"");
  }

  lemma NoEscapes()
    ensures EscapeFrom("", 0) == "" && EscapeKeyFrom("", 0) == ""
  {
  }

  // ------------------------------------------------------------------------- values

  lemma Scalars(b: bool, n: int, x: real, s: string, fw: FloatWriter)
    ensures Serialize(JNull, fw) == "null"
    ensures Serialize(JBool(b), fw) == if b then "true" else "false"
    ensures Serialize(JInt(n), fw) == RenderInt(n)
    ensures Serialize(JFloat(x), fw) == fw(x)
    ensures Serialize(JString(s), fw) == QuoteString(s)
  {
  }

  lemma {:induction false} ItemsGrow(items: seq<JsonValue>, x: JsonValue, i: nat, fw: FloatWriter)
    requires i <= |items|
    ensures SerializeItems(JArray(items + [x]), i, fw)
      == SerializeItems(JArray(items), i, fw) + (if items == [] then "" else ",") + Serialize(x, fw)
    decreases |items| - i
  {
    if i == |items| {
      assert SerializeItems(JArray(items + [x]), i + 1, fw) == "";
    } else {
      ItemsGrow(items, x, i + 1, fw);
    }
  }

  /** One more item. */
  lemma ArrayGrows(items: seq<JsonValue>, x: JsonValue, fw: FloatWriter)
    ensures Serialize(JArray([]), fw) == "[]"
    ensures Serialize(JArray(items + [x]), fw)
      == Open(Serialize(JArray(items), fw)) + (if items == [] then "" else ",") + Serialize(x, fw) + "]"
  {
    hide SerializeItems, Open;
    ItemsGrow(items, x, 0, fw);
    NoItems(fw);
    var more := (if items == [] then "" else ",") + Serialize(x, fw);
    ArrayUnfolds(items, fw);
    ArrayUnfolds(items + [x], fw);
    hide Serialize;
    var body := SerializeItems(JArray(items), 0, fw);
    assert body + (if items == [] then "" else ",") + Serialize(x, fw) == body + more;
    More("[", body, more, "]");
    Flat(Open("[" + body + "]"), if items == [] then "" else ",", Serialize(x, fw), "", "", "]");
  }

  lemma ArrayUnfolds(items: seq<JsonValue>, fw: FloatWriter)
    ensures Serialize(JArray(items), fw) == "[" + SerializeItems(JArray(items), 0, fw) + "]"
  {
    hide SerializeItems;
  }

  lemma ObjectUnfolds(fields: seq<Field>, fw: FloatWriter)
    ensures Serialize(JObject(fields), fw) == "{" + SerializeFields(JObject(fields), 0, fw) + "}"
  {
    hide SerializeFields;
  }

  /** Concatenation does not mind brackets. */
  lemma Flat(a: string, b: string, c: string, d: string, e: string, last: string)
    ensures a + (b + c) + last == a + b + c + last
    ensures a + (b + (c + d + e)) + last == a + b + c + d + e + last
  {
    assert a + (b + c) == a + b + c;
    assert a + (b + (c + d + e)) == a + b + c + d + e;
  }

  lemma NoItems(fw: FloatWriter)
    ensures SerializeItems(JArray([]), 0, fw) == ""
    ensures SerializeFields(JObject([]), 0, fw) == ""
  {
  }

  lemma {:induction false} FieldsGrow(fields: seq<Field>, f: Field, i: nat, fw: FloatWriter)
    requires i <= |fields|
    ensures SerializeFields(JObject(fields + [f]), i, fw)
      == SerializeFields(JObject(fields), i, fw) + (if fields == [] then "" else ",") + FieldText(f, fw)
    decreases |fields| - i
  {
    if i == |fields| {
      assert SerializeFields(JObject(fields + [f]), i + 1, fw) == "";
    } else {
      FieldsGrow(fields, f, i + 1, fw);
    }
  }

  /** One more field. */
  lemma ObjectGrows(fields: seq<Field>, key: string, x: JsonValue, fw: FloatWriter)
    ensures Serialize(JObject([]), fw) == "{}"
    ensures Serialize(JObject(fields + [Field(key, x)]), fw)
      == Open(Serialize(JObject(fields), fw)) + (if fields == [] then "" else ",")
         + QuoteKey(key) + ":" + Serialize(x, fw) + "}"
  {
    hide SerializeFields, Open, QuoteKey;
    var f := Field(key, x);
    FieldsGrow(fields, f, 0, fw);
    NoItems(fw);
    ObjectUnfolds(fields, fw);
    ObjectUnfolds(fields + [f], fw);
    assert FieldText(f, fw) == QuoteKey(key) + ":" + Serialize(x, fw);
    hide Serialize, FieldText;
    var body, comma := SerializeFields(JObject(fields), 0, fw), if fields == [] then "" else ",";
    assert body + comma + FieldText(f, fw) == body + (comma + FieldText(f, fw));
    More("{", body, comma + FieldText(f, fw), "}");
    Flat(Open("{" + body + "}"), comma, QuoteKey(key), ":", Serialize(x, fw), "}");
  }
}
