/** Parsing what the serializer wrote (sections 6 and 7 of RFC 8259). */
module JsonRoundTrip {
  import opened Wrappers
  import opened Digits
  import opened Json

  /** Float-free, and every integer an int64. */
  ghost predicate Plain(v: JsonValue) {
    match v
    case JFloat(_) => false
    case JInt(n) => FitsInt64(n)
    case JArray(items) => forall i :: 0 <= i < |items| ==> Plain(items[i])
    case JObject(fields) => forall i :: 0 <= i < |fields| ==> Plain(fields[i].value)
    case _ => true
  }

  ghost predicate ControlFree(s: string) {
    forall i :: 0 <= i < |s| ==> s[i] as nat >= 0x20
  }

  /** In every object: keys without control characters, none twice. */
  ghost predicate GoodKeys(v: JsonValue) {
    match v
    case JArray(items) => forall i :: 0 <= i < |items| ==> GoodKeys(items[i])
    case JObject(fields) =>
      && (forall i :: 0 <= i < |fields| ==> ControlFree(fields[i].key) && GoodKeys(fields[i].value))
      && (forall i, j :: 0 <= i < j < |fields| ==> fields[i].key != fields[j].key)
    case _ => true
  }

  // ------------------------------------------------------- text at a position

  ghost predicate At(t: string, p: nat, s: string) {
    p + |s| <= |t| && t[p..p + |s|] == s
  }

  lemma AtSplit(t: string, p: nat, a: string, b: string)
    requires At(t, p, a + b)
    ensures At(t, p, a) && At(t, p + |a|, b)
  {
    var s := t[p..p + |a + b|];
    assert a == s[..|a|] && b == s[|a|..];
    assert t[p..p + |a|] == s[..|a|];
    assert t[p + |a|..p + |a| + |b|] == s[|a|..];
  }

  lemma AtChar(t: string, p: nat, s: string, i: nat)
    requires At(t, p, s) && i < |s|
    ensures p + i < |t| && t[p + i] == s[i]
  {
  }

  /** Inside a document a value is followed by nothing, a comma or a closing bracket. */
  ghost predicate Delimited(t: string, p: nat) {
    p == |t| || (p < |t| && (t[p] == ',' || t[p] == ']' || t[p] == '}'))
  }

  lemma NoSpace(t: string, p: nat)
    requires Delimited(t, p)
    ensures SkipSpace(t, p) == p
  {
  }

  // ------------------------------------------------------------------ integers

  lemma {:induction false} DigitsEndIs(t: string, p: nat, e: nat)
    requires p <= e <= |t| && AllDigits(t[p..e]) && (e == |t| || !IsDigit(t[e]))
    ensures DigitsEnd(t, p) == e
    decreases e - p
  {
  }

  lemma IntegerParses(t: string, p: nat, n: int, fr: FloatReader)
    requires FitsInt64(n) && At(t, p, RenderInt(n)) && Delimited(t, p + |RenderInt(n)|)
    ensures ParseNumber(t, p, fr) == Some(Parsed(JInt(n), p + |RenderInt(n)|))
  {
    hide RenderInt, FromChars, IntegerEnd;
    var e := p + |RenderInt(n)|;
    IntegerEndIs(t, p, n);
    assert FractionEnd(t, e) == Some(e) && ExponentEnd(t, e) == Some(e);
    FromCharsOfRender(n);
  }

  lemma IntegerEndIs(t: string, p: nat, n: int)
    requires At(t, p, RenderInt(n)) && Delimited(t, p + |RenderInt(n)|)
    ensures IntegerEnd(t, p) == Some(p + |RenderInt(n)|)
  {
    hide Render, DigitsEnd;
    var s, e := RenderInt(n), p + |RenderInt(n)|;
    var m: nat := if n < 0 then -n else n;
    var q := if n < 0 then p + 1 else p;
    assert t[q..e] == Render(m) by {
      assert s[q - p..] == Render(m);
      assert t[q..e] == t[p..e][q - p..];
    }
    AtChar(t, p, s, 0);
    AtChar(t, q, Render(m), 0);
    NoLeadingZero(m);
    if m != 0 {
      DigitsEndIs(t, q, e);
    } else {
      RenderZero();
    }
  }

  lemma RenderZero()
    ensures Render(0) == "0"
  {
  }

  // ------------------------------------------------------------------- strings

  lemma ControlEscapeParses(t: string, p: nat, c: char)
    requires c as nat < 0x20
    requires At(t, p, "\\u00" + [HexDigit(c as nat / 16), HexDigit(c as nat % 16)])
    ensures ParseChar(t, p) == Some(Parsed([c], p + 6))
  {
    var s := "\\u00" + [HexDigit(c as nat / 16), HexDigit(c as nat % 16)];
    assert |s| == 6 && s[0] == '\\' && s[1] == 'u' && s[2] == '0' && s[3] == '0';
    AtChar(t, p, s, 0);
    AtChar(t, p, s, 1);
    AtChar(t, p, s, 2);
    AtChar(t, p, s, 3);
    AtChar(t, p, s, 4);
    AtChar(t, p, s, 5);
    HexDigitReadsBack(c as nat / 16);
    HexDigitReadsBack(c as nat % 16);
    assert HexPrefix(t, p + 2, 0) == Some(0);
    assert HexPrefix(t, p + 2, 1) == Some(0);
    assert HexPrefix(t, p + 2, 2) == Some(0);
    assert HexPrefix(t, p + 2, 3) == Some(c as nat / 16);
    assert HexPrefix(t, p + 2, 4) == Some(c as nat);
    assert ParseHex4(t, p + 2) == Some(c as nat);
  }

  lemma EscapeParses(t: string, p: nat, c: char)
    requires At(t, p, EscapeChar(c))
    ensures p < |t| && t[p] != '"' && ParseChar(t, p) == Some(Parsed([c], p + |EscapeChar(c)|))
  {
    var s := EscapeChar(c);
    AtChar(t, p, s, 0);
    if |s| == 6 {
      ControlEscapeParses(t, p, c);
    } else if |s| == 2 {
      AtChar(t, p, s, 1);
    }
  }

  lemma StringTextSplits(t: string, p: nat, s: string, i: nat)
    requires i < |s| && At(t, p, EscapeFrom(s, i) + "\"")
    ensures At(t, p, EscapeChar(s[i]))
    ensures At(t, p + |EscapeChar(s[i])|, EscapeFrom(s, i + 1) + "\"")
    ensures |EscapeFrom(s, i)| == |EscapeChar(s[i])| + |EscapeFrom(s, i + 1)|
  {
    hide EscapeChar;
    assert EscapeFrom(s, i) + "\"" == EscapeChar(s[i]) + (EscapeFrom(s, i + 1) + "\"");
    AtSplit(t, p, EscapeChar(s[i]), EscapeFrom(s, i + 1) + "\"");
  }

  lemma {:induction false} StringRestParses(t: string, p: nat, s: string, i: nat)
    requires i <= |s| && At(t, p, EscapeFrom(s, i) + "\"")
    ensures ParseStringRest(t, p, s[..i]) == Some(Parsed(s, p + |EscapeFrom(s, i)| + 1))
    decreases |s| - i
  {
    hide EscapeChar, ParseChar;
    if i == |s| {
      AtChar(t, p, "\"", 0);
      assert s[..i] == s;
    } else {
      StringTextSplits(t, p, s, i);
      EscapeParses(t, p, s[i]);
      StringRestParses(t, p + |EscapeChar(s[i])|, s, i + 1);
      assert s[..i] + [s[i]] == s[..i + 1];
    }
  }

  lemma StringParses(t: string, p: nat, s: string)
    requires At(t, p, QuoteString(s))
    ensures ParseString(t, p) == Some(Parsed(s, p + |QuoteString(s)|))
  {
    assert QuoteString(s) == "\"" + (EscapeFrom(s, 0) + "\"");
    AtSplit(t, p, "\"", EscapeFrom(s, 0) + "\"");
    AtChar(t, p, "\"", 0);
    StringRestParses(t, p + 1, s, 0);
  }

  lemma KeyCharParses(t: string, p: nat, c: char)
    requires At(t, p, EscapeKeyChar(c))
    ensures p < |t| && t[p] != '"'
    ensures ParseChar(t, p) == if c as nat < 0x20 then None else Some(Parsed([c], p + |EscapeKeyChar(c)|))
  {
  }

  lemma KeyTextSplits(t: string, p: nat, s: string, i: nat)
    requires i < |s| && At(t, p, EscapeKeyFrom(s, i) + "\"")
    ensures At(t, p, EscapeKeyChar(s[i]))
    ensures At(t, p + |EscapeKeyChar(s[i])|, EscapeKeyFrom(s, i + 1) + "\"")
    ensures |EscapeKeyFrom(s, i)| == |EscapeKeyChar(s[i])| + |EscapeKeyFrom(s, i + 1)|
  {
    assert EscapeKeyFrom(s, i) + "\"" == EscapeKeyChar(s[i]) + (EscapeKeyFrom(s, i + 1) + "\"");
    AtSplit(t, p, EscapeKeyChar(s[i]), EscapeKeyFrom(s, i + 1) + "\"");
  }

  /** A key reads back when it is free of control characters; otherwise the string is malformed. */
  lemma {:induction false} KeyRestParses(t: string, p: nat, s: string, i: nat)
    requires i <= |s| && At(t, p, EscapeKeyFrom(s, i) + "\"")
    ensures ParseStringRest(t, p, s[..i]) ==
      if ControlFree(s[i..]) then Some(Parsed(s, p + |EscapeKeyFrom(s, i)| + 1)) else None
    decreases |s| - i
  {
    hide EscapeKeyChar, EscapeKeyFrom, ParseChar;
    if i == |s| {
      KeyTextEnds(t, p, s);
      assert s[..i] == s;
    } else {
      KeyTextSplits(t, p, s, i);
      KeyCharParses(t, p, s[i]);
      assert s[i..] == [s[i]] + s[i + 1..];
      ControlFreeCons(s[i], s[i + 1..]);
      KeyRestParses(t, p + |EscapeKeyChar(s[i])|, s, i + 1);
      assert s[..i] + [s[i]] == s[..i + 1];
    }
  }

  lemma KeyTextEnds(t: string, p: nat, s: string)
    requires At(t, p, EscapeKeyFrom(s, |s|) + "\"")
    ensures EscapeKeyFrom(s, |s|) == "" && Sees(t, p, '"')
  {
  }

  lemma ControlFreeCons(c: char, s: string)
    ensures ControlFree([c] + s) <==> c as nat >= 0x20 && ControlFree(s)
  {
    var cs := [c] + s;
    assert cs[0] == c && forall i :: 0 <= i < |s| ==> s[i] == cs[i + 1];
  }

  lemma KeyParses(t: string, p: nat, s: string)
    requires At(t, p, QuoteKey(s))
    ensures ParseString(t, p) == if ControlFree(s) then Some(Parsed(s, p + |QuoteKey(s)|)) else None
  {
    assert QuoteKey(s) == "\"" + (EscapeKeyFrom(s, 0) + "\"");
    AtSplit(t, p, "\"", EscapeKeyFrom(s, 0) + "\"");
    AtChar(t, p, "\"", 0);
    assert s[0..] == s;
    KeyRestParses(t, p + 1, s, 0);
  }

  // -------------------------------------------------------------------- values

  /** The first character of a serialized value tells its kind and is no space. */
  lemma FirstCharacter(v: JsonValue, fw: FloatWriter)
    requires !v.JFloat?
    ensures var s := Serialize(v, fw);
      |s| > 0 && !IsSpace(s[0])
      && match v
         case JNull => s[0] == 'n'
         case JBool(b) => s[0] == (if b then 't' else 'f')
         case JInt(_) => s[0] == '-' || IsDigit(s[0])
         case JString(_) => s[0] == '"'
         case JArray(_) => s[0] == '['
         case JObject(_) => s[0] == '{'
         case JFloat(_) => true
  {
  }

  /** Main result: inside any text, a serialized value reads back as itself, and the parser stops
      right after it, exactly when its keys are good; otherwise the parser rejects. */
  lemma {:induction false} ValueParses(t: string, p: nat, v: JsonValue, fr: FloatReader, fw: FloatWriter)
    requires Plain(v) && At(t, p, Serialize(v, fw)) && Delimited(t, p + |Serialize(v, fw)|)
    ensures ParseValue(t, p, fr) == if GoodKeys(v) then Some(Parsed(v, p + |Serialize(v, fw)|)) else None
    decreases v
  {
    hide QuoteString, SerializeItems, SerializeFields, ParseNumber, ParseString, ParseArray, ParseObject, RenderInt;
    FirstCharacter(v, fw);
    AtChar(t, p, Serialize(v, fw), 0);
    match v {
      case JNull =>
      case JBool(b) =>
      case JInt(n) => IntegerParses(t, p, n, fr);
      case JString(x) => StringParses(t, p, x);
      case JArray(items) => ArrayParses(t, p, v, fr, fw);
      case JObject(fields) => ObjectParses(t, p, v, fr, fw);
    }
  }

  /** What stands at the items from i on: a closing bracket, or item i after its comma. */
  lemma ItemsTextSplits(t: string, p: nat, v: JsonValue, i: nat, fw: FloatWriter)
    requires v.JArray? && i <= |v.items| && At(t, p, SerializeItems(v, i, fw) + "]")
    ensures i == |v.items| ==> Sees(t, p, ']') && SerializeItems(v, i, fw) == ""
    ensures i < |v.items| ==>
      var item, q := Serialize(v.items[i], fw), if i > 0 then p + 1 else p;
      && (i > 0 ==> Sees(t, p, ','))
      && At(t, q, item) && At(t, q + |item|, SerializeItems(v, i + 1, fw) + "]")
      && |SerializeItems(v, i, fw)| == (q - p) + |item| + |SerializeItems(v, i + 1, fw)|
  {
    hide Serialize;
    if i == |v.items| {
      AtChar(t, p, "]", 0);
    } else {
      var item, rest := Serialize(v.items[i], fw), SerializeItems(v, i + 1, fw) + "]";
      if i > 0 {
        assert SerializeItems(v, i, fw) + "]" == "," + (item + rest);
        AtSplit(t, p, ",", item + rest);
        AtChar(t, p, ",", 0);
        AtSplit(t, p + 1, item, rest);
      } else {
        assert SerializeItems(v, i, fw) + "]" == item + rest;
        AtSplit(t, p, item, rest);
      }
    }
  }

  lemma {:induction false} ArrayParses(t: string, p: nat, v: JsonValue, fr: FloatReader, fw: FloatWriter)
    requires v.JArray? && Plain(v) && At(t, p, Serialize(v, fw))
    ensures Sees(t, p, '[')
    ensures ParseArray(t, p, fr) == if GoodKeys(v) then Some(Parsed(v, p + |Serialize(v, fw)|)) else None
    decreases v, |v.items| + 2
  {
    hide ParseItems, SerializeItems;
    AtChar(t, p, Serialize(v, fw), 0);
    assert Serialize(v, fw) == "[" + (SerializeItems(v, 0, fw) + "]");
    AtSplit(t, p, "[", SerializeItems(v, 0, fw) + "]");
    ItemsTextSplits(t, p + 1, v, 0, fw);
    if v.items != [] {
      FirstCharacterAt(t, p + 1, v.items[0], fw);
      ItemsParse(t, p + 1, v, 0, fr, fw);
      assert v.items[..0] == [];
    }
  }

  lemma FirstCharacterAt(t: string, p: nat, v: JsonValue, fw: FloatWriter)
    requires Plain(v) && At(t, p, Serialize(v, fw))
    ensures p < |t| && !IsSpace(t[p]) && t[p] != ']'
  {
  }

  ghost predicate GoodFrom(v: JsonValue, i: nat)
    requires v.JArray?
  {
    forall j :: i <= j < |v.items| ==> GoodKeys(v.items[j])
  }

  lemma ItemsStep(t: string, p: nat, items: seq<JsonValue>, fr: FloatReader, next: JsonValue, q: nat)
    requires p <= |t| && ParseValue(t, p, fr) == Some(Parsed(next, q)) && q <= |t| && SkipSpace(t, q) == q
    requires Sees(t, q, ']') || Sees(t, q, ',')
    ensures ParseItems(t, p, items, fr)
      == if Sees(t, q, ']') then Some(Parsed(JArray(items + [next]), q + 1)) else ParseItems(t, q + 1, items + [next], fr)
  {
    hide ParseValue;
  }

  /** The items from i on, read with the first i already collected. */
  lemma {:induction false} ItemsParse(t: string, p: nat, v: JsonValue, i: nat, fr: FloatReader, fw: FloatWriter)
    requires v.JArray? && Plain(v) && i < |v.items|
    requires At(t, p, Serialize(v.items[i], fw))
    requires At(t, p + |Serialize(v.items[i], fw)|, SerializeItems(v, i + 1, fw) + "]")
    ensures ParseItems(t, p, v.items[..i], fr) ==
      if GoodFrom(v, i) then Some(Parsed(v, p + |Serialize(v.items[i], fw)| + |SerializeItems(v, i + 1, fw)| + 1)) else None
    decreases v, |v.items| - i + 1
  {
    hide Serialize, SerializeItems, ParseValue, ParseItems, GoodKeys, SkipSpace, GoodFrom;
    var q := p + |Serialize(v.items[i], fw)|;
    ItemsTextSplits(t, q, v, i + 1, fw);
    NoSpace(t, q);
    ValueParses(t, p, v.items[i], fr, fw);
    GoodFromNext(v, i);
    if !GoodKeys(v.items[i]) {
      NoItem(t, p, v.items[..i], fr);
    } else {
      ItemsStep(t, p, v.items[..i], fr, v.items[i], q);
      assert v.items[..i] + [v.items[i]] == v.items[..i + 1];
      if i + 1 == |v.items| {
        assert v.items[..i + 1] == v.items;
      } else {
        ItemsParse(t, q + 1, v, i + 1, fr, fw);
      }
    }
  }

  lemma NoItem(t: string, p: nat, items: seq<JsonValue>, fr: FloatReader)
    requires p <= |t| && ParseValue(t, p, fr).None?
    ensures ParseItems(t, p, items, fr).None?
  {
  }

  lemma GoodFromNext(v: JsonValue, i: nat)
    requires v.JArray? && i < |v.items|
    ensures GoodFrom(v, i) <==> GoodKeys(v.items[i]) && GoodFrom(v, i + 1)
    ensures i + 1 == |v.items| ==> GoodFrom(v, i + 1)
  {
    hide GoodKeys;
  }

  /** What stands at the fields from i on: a closing brace, or field i after its comma. */
  lemma FieldsTextSplits(t: string, p: nat, v: JsonValue, i: nat, fw: FloatWriter)
    requires v.JObject? && i <= |v.fields| && At(t, p, SerializeFields(v, i, fw) + "}")
    ensures i == |v.fields| ==> Sees(t, p, '}') && SerializeFields(v, i, fw) == ""
    ensures i < |v.fields| ==>
      var field, q := FieldText(v.fields[i], fw), if i > 0 then p + 1 else p;
      && (i > 0 ==> Sees(t, p, ','))
      && At(t, q, field) && At(t, q + |field|, SerializeFields(v, i + 1, fw) + "}")
      && |SerializeFields(v, i, fw)| == (q - p) + |field| + |SerializeFields(v, i + 1, fw)|
  {
    hide FieldText;
    if i == |v.fields| {
      AtChar(t, p, "}", 0);
    } else {
      var field, rest := FieldText(v.fields[i], fw), SerializeFields(v, i + 1, fw) + "}";
      if i > 0 {
        assert SerializeFields(v, i, fw) + "}" == "," + (field + rest);
        AtSplit(t, p, ",", field + rest);
        AtChar(t, p, ",", 0);
        AtSplit(t, p + 1, field, rest);
      } else {
        assert SerializeFields(v, i, fw) + "}" == field + rest;
        AtSplit(t, p, field, rest);
      }
    }
  }

  lemma {:induction false} ObjectParses(t: string, p: nat, v: JsonValue, fr: FloatReader, fw: FloatWriter)
    requires v.JObject? && Plain(v) && At(t, p, Serialize(v, fw))
    ensures Sees(t, p, '{')
    ensures ParseObject(t, p, fr) == if GoodKeys(v) then Some(Parsed(v, p + |Serialize(v, fw)|)) else None
    decreases v, |v.fields| + 2
  {
    hide ParseFields, SerializeFields, FieldText, GoodField, GoodKeys, QuoteKey;
    assert Serialize(v, fw) == "{" + (SerializeFields(v, 0, fw) + "}");
    AtSplit(t, p, "{", SerializeFields(v, 0, fw) + "}");
    AtChar(t, p, "{", 0);
    FieldsTextSplits(t, p + 1, v, 0, fw);
    if v.fields != [] {
      FieldTextSplits(t, p + 1, v.fields[0], fw);
      FieldsParse(t, p + 1, v, 0, fr, fw);
      assert v.fields[..0] == [];
    }
    GoodFieldsAreGoodKeys(v);
  }

  /** Field j can be added to the fields before it. */
  ghost predicate GoodField(fields: seq<Field>, j: nat)
    requires j < |fields|
  {
    ControlFree(fields[j].key) && GoodKeys(fields[j].value) && !HasKey(fields[..j], fields[j].key)
  }

  lemma GoodFieldsAreGoodKeys(v: JsonValue)
    requires v.JObject?
    ensures (forall j :: 0 <= j < |v.fields| ==> GoodField(v.fields, j)) <==> GoodKeys(v)
  {
    var fields := v.fields;
    if GoodKeys(v) {
      forall j | 0 <= j < |fields|
        ensures GoodField(fields, j)
      {
        assert forall i :: 0 <= i < j ==> fields[..j][i].key == fields[i].key;
      }
    }
    if forall j :: 0 <= j < |fields| ==> GoodField(fields, j) {
      forall i, j | 0 <= i < j < |fields|
        ensures fields[i].key != fields[j].key
      {
        assert GoodField(fields, j) && fields[..j][i] == fields[i];
      }
      forall i | 0 <= i < |fields|
        ensures ControlFree(fields[i].key) && GoodKeys(fields[i].value)
      {
        assert GoodField(fields, i);
      }
    }
  }

  lemma FieldTextSplits(t: string, p: nat, f: Field, fw: FloatWriter)
    requires At(t, p, FieldText(f, fw))
    ensures var key, val := QuoteKey(f.key), Serialize(f.value, fw);
      && At(t, p, key) && Sees(t, p, '"') && Sees(t, p + |key|, ':') && At(t, p + |key| + 1, val)
      && |FieldText(f, fw)| == |key| + 1 + |val|
  {
    hide Serialize;
    var key, val := QuoteKey(f.key), Serialize(f.value, fw);
    assert FieldText(f, fw) == key + (":" + val);
    AtSplit(t, p, key, ":" + val);
    AtSplit(t, p + |key|, ":", val);
    AtChar(t, p, key, 0);
    AtChar(t, p + |key|, ":", 0);
  }

  lemma {:induction false} FieldParses(t: string, p: nat, v: JsonValue, i: nat, fr: FloatReader, fw: FloatWriter)
    requires v.JObject? && Plain(v) && i < |v.fields|
    requires At(t, p, FieldText(v.fields[i], fw)) && Delimited(t, p + |FieldText(v.fields[i], fw)|)
    ensures ParseField(t, p, v.fields[..i], fr) ==
      if GoodField(v.fields, i) then Some(Parsed(v.fields[i], p + |FieldText(v.fields[i], fw)|)) else None
    decreases v, 0
  {
    hide Serialize, QuoteKey, ParseString, ParseValue, FieldText, GoodKeys, ControlFree;
    var f := v.fields[i];
    FieldTextSplits(t, p, f, fw);
    KeyParses(t, p, f.key);
    if ControlFree(f.key) {
      ValueParses(t, p + |QuoteKey(f.key)| + 1, f.value, fr, fw);
    }
  }

  lemma {:induction false} FieldsParse(t: string, p: nat, v: JsonValue, i: nat, fr: FloatReader, fw: FloatWriter)
    requires v.JObject? && Plain(v) && i < |v.fields|
    requires At(t, p, FieldText(v.fields[i], fw))
    requires At(t, p + |FieldText(v.fields[i], fw)|, SerializeFields(v, i + 1, fw) + "}")
    ensures ParseFields(t, p, v.fields[..i], fr) ==
      if forall j :: i <= j < |v.fields| ==> GoodField(v.fields, j)
      then Some(Parsed(v, p + |FieldText(v.fields[i], fw)| + |SerializeFields(v, i + 1, fw)| + 1)) else None
    decreases v, |v.fields| - i + 1
  {
    hide FieldText, SerializeFields, ParseField, GoodField, SkipSpace;
    var q := p + |FieldText(v.fields[i], fw)|;
    FieldsTextSplits(t, q, v, i + 1, fw);
    NoSpace(t, q);
    FieldParses(t, p, v, i, fr, fw);
    assert v.fields[..i] + [v.fields[i]] == v.fields[..i + 1];
    if i + 1 == |v.fields| {
      assert v.fields[..i + 1] == v.fields;
    } else if GoodField(v.fields, i) {
      FieldsParse(t, q + 1, v, i + 1, fr, fw);
    }
  }

  /** Main result: parsing a serialized float-free value gives it back exactly when its keys are good. */
  lemma RoundTrip(v: JsonValue, fr: FloatReader, fw: FloatWriter)
    requires Plain(v)
    ensures ParseJson(Serialize(v, fw), fr) == if GoodKeys(v) then Some(v) else None
  {
    hide Serialize, ParseValue, GoodKeys;
    var t := Serialize(v, fw);
    FirstCharacter(v, fw);
    assert t[0..0 + |t|] == t;
    ValueParses(t, 0, v, fr, fw);
  }

  /** Hence printing is injective: different values with good keys never print alike. */
  lemma SerializeInjective(v: JsonValue, w: JsonValue, fr: FloatReader, fw: FloatWriter)
    requires Plain(v) && Plain(w) && GoodKeys(v) && Serialize(v, fw) == Serialize(w, fw)
    ensures v == w
  {
    RoundTrip(v, fr, fw);
    RoundTrip(w, fr, fw);
  }
}
