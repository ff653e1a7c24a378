/** The round trip of whole values, arrays and objects included. */
module JsonValues {
  import opened Bytes
  import opened Json
  import opened JsonToken
  import opened JsonRun
  import opened JsonRoundTrip

  // ---------- steps between values ----------

  lemma SkipSpace(t: Tok)
    requires Valid(t) && t.top.state == EatWs
    ensures Step(t, ' ') == More(t)
  {
    Again(t, ' ');
    hide Step;
  }

  /** White space is over: the character goes to the saved state. */
  lemma Wake(t: Tok, c: char)
    requires Valid(t) && t.top.state == EatWs && !IsSpace(c) && c != '/'
    ensures Valid(Go(t, t.top.saved)) && Step(t, c) == Step(Go(t, t.top.saved), c)
  {
    Again(t, c);
    TurnKeeps(t, c);
    hide Step;
  }

  /** A level between values: white space, then `saved`. */
  function Between(below: seq<Level>, saved: St, current: Json, field: Option<Text>, s: Scratch): Tok {
    Tok(below, Level(EatWs, saved, current, field), s)
  }

  lemma Opened(t: Tok, c: char) returns (u: Tok)
    requires Ready(t) && (c == '[' || c == '{')
    ensures Step(t, c) == More(u) && Valid(u)
    ensures c == '[' ==> u == Between(t.below, InArray, JArray([]), None, t.scratch)
    ensures c == '{' ==> u == Between(t.below, FieldStart, JObject([]), None, t.scratch)
  {
    StartStep(t, c);
    u := Step(t, c).t;
    hide Step;
  }

  /** The end of an array or object. */
  lemma Closed(t: Tok, c: char)
    requires Valid(t) && t.top.state == EatWs
    requires if c == ']' then t.top.saved == InArray || t.top.saved == ArraySep
             else c == '}' && (t.top.saved == FieldStart || t.top.saved == ObjectSep)
    ensures Step(t, c) == More(Then(t, Finish)) && Valid(Then(t, Finish))
  {
    var g := Go(t, t.top.saved);
    NoSpace(c);
    hide *;
    Wake(t, c);
    ClosingTurn(t, c);
    Again(g, c);
    assert Valid(Step(t, c).t);
  }

  lemma ClosingTurn(t: Tok, c: char)
    requires Valid(t) && t.top.state == EatWs && Valid(Go(t, t.top.saved))
    requires if c == ']' then t.top.saved == InArray || t.top.saved == ArraySep
             else c == '}' && (t.top.saved == FieldStart || t.top.saved == ObjectSep)
    ensures Turn(Go(t, t.top.saved), c) == More(Then(t, Finish))
  {
    hide Valid, StartValue, NullStep, BooleanStep, NumberStep, StringStep, FieldStep, EscapeStep, HexDigit, CommentStep;
    hide WhiteStep, Push;
  }

  /** The parent while its child is read. */
  function Child(t: Tok, waiting: St): Tok {
    Tok(t.below + [t.top.(state := waiting)], RESET, t.scratch)
  }

  /** The first character of a child goes to a new level. */
  lemma ChildStart(t: Tok, waiting: St, c: char)
    requires Valid(t) && t.top.state == EatWs && |t.below| < 31 && !IsSpace(c) && c != '/' && c != ']'
    requires (t.top.saved == InArray && waiting == ArrayAdd) || (t.top.saved == ObjectValue && waiting == ObjectValueAdd)
    ensures Ready(Child(t, waiting)) && Step(t, c) == Step(Child(t, waiting), c)
  {
    Wake(t, c);
    var g := Go(t, t.top.saved);
    Again(g, c);
    TurnKeeps(g, c);
    hide Step;
    assert Turn(g, c) == Redo(Child(t, waiting));
  }

  /** What follows a child's value, other than white space, goes to the parent. */
  lemma ChildEnd(t: Tok, c: char)
    requires Valid(t) && t.top.state == EatWs && t.top.saved == Finish && t.below != [] && !IsSpace(c) && c != '/'
    ensures Valid(Pop(t)) && Step(t, c) == Step(Pop(t), c)
  {
    Wake(t, c);
    var g := Go(t, Finish);
    Again(g, c);
    TurnKeeps(g, c);
    hide Step;
    assert Turn(g, c) == Redo(Pop(t));
  }

  lemma Separator(t: Tok, c: char)
    requires Valid(t) && t.top.state == EatWs && c == ',' && (t.top.saved == ArraySep || t.top.saved == ObjectSep)
    ensures var u := Then(t, if t.top.saved == ArraySep then InArray else FieldStart); Valid(u) && Step(t, c) == More(u)
  {
    var g, w := Go(t, t.top.saved), if t.top.saved == ArraySep then InArray else FieldStart;
    NoSpace(c);
    hide *;
    Wake(t, c);
    SeparatorTurn(t, c);
    Again(g, c);
    assert Valid(Step(t, c).t);
  }

  lemma NoSpace(c: char)
    requires c in {',', ']', '}'}
    ensures !IsSpace(c) && c != '/'
  {
  }

  lemma SeparatorTurn(t: Tok, c: char)
    requires Valid(t) && t.top.state == EatWs && Valid(Go(t, t.top.saved)) && c == ','
    requires t.top.saved == ArraySep || t.top.saved == ObjectSep
    ensures Turn(Go(t, t.top.saved), c) == More(Then(t, if t.top.saved == ArraySep then InArray else FieldStart))
  {
    hide Valid, StartValue, NullStep, BooleanStep, NumberStep, StringStep, FieldStep, EscapeStep, HexDigit, CommentStep;
    hide WhiteStep, Push;
  }

  // ---------- an item ----------

  lemma SameFirst(t: Tok, u: Tok, s: Text)
    requires Valid(t) && Valid(u) && s != [] && Step(t, s[0]) == Step(u, s[0])
    ensures Feed(t, s) == Feed(u, s)
  {
    hide Step, Valid;
  }

  /** No value begins with white space, a comment, or a bracket that closes. */
  lemma FirstChar(v: Json)
    requires Plain(v)
    ensures var p := Print(v); p != [] && !IsSpace(p[0]) && p[0] != '/' && p[0] != ']'
  {
    match v
    case JInt(i) => DigitsAreDigits(if i < 0 then -i else i);
    case _ =>
  }

  lemma Unpack(t: Tok, text: Text, c: char, v: Json, s: Scratch)
    requires Yields(t, text, c, v, s)
    ensures Valid(t) && Valid(Done(t, v, s)) && Feed(t, text + [c]) == Step(Done(t, v, s), c)
  {
  }

  /** The text of a child and a comma: the value is in, the next one may come. */
  lemma ItemComma(t: Tok, acc: seq<Json>, v: Json, text: Text, s: Scratch)
    requires Valid(t) && t.top == Level(EatWs, InArray, JArray(acc), None) && |t.below| < 31
    requires text != [] && !IsSpace(text[0]) && text[0] != '/' && text[0] != ']'
    requires Yields(Child(t, ArrayAdd), text, ',', v, s)
    ensures var u := Between(t.below, InArray, JArray(acc + [v]), None, s);
            Valid(u) && Feed(t, text + [',']) == More(u)
  {
    hide Step, Valid, Feed, Yields;
    ChildStart(t, ArrayAdd, text[0]);
    var k := Child(t, ArrayAdd);
    var d := Done(k, v, s);
    Unpack(k, text, ',', v, s);
    SameFirst(t, k, text + [',']);
    ChildEnd(d, ',');
    Separator(Pop(d), ',');
    assert k.below[..|k.below| - 1] == t.below;
  }

  lemma ItemLast(t: Tok, acc: seq<Json>, v: Json, text: Text, s: Scratch)
    requires Valid(t) && t.top == Level(EatWs, InArray, JArray(acc), None) && |t.below| < 31
    requires text != [] && !IsSpace(text[0]) && text[0] != '/' && text[0] != ']'
    requires Yields(Child(t, ArrayAdd), text, ' ', v, s)
    ensures var u := Between(t.below, Finish, JArray(acc + [v]), None, s);
            Valid(u) && Feed(t, text + " ]") == More(u)
  {
    hide Step, Valid, Feed, Yields;
    ChildStart(t, ArrayAdd, text[0]);
    var k := Child(t, ArrayAdd);
    var d := Done(k, v, s);
    Unpack(k, text, ' ', v, s);
    SameFirst(t, k, text + [' ']);
    SkipSpace(d);
    ChildEnd(d, ']');
    Closed(Pop(d), ']');
    assert k.below[..|k.below| - 1] == t.below;
    FeedAppend(t, text + [' '], [']']);
    FeedOne(d, ']');
    assert text + [' '] + [']'] == text + " ]";
  }

  // ---------- a field ----------

  /** A quote where a key may stand. */
  lemma KeyStart(t: Tok) returns (u: Tok)
    requires Valid(t) && t.top.state == EatWs && t.top.saved == FieldStart
    ensures Step(t, '"') == More(u) && Quoting(u, []) && u.below == t.below && u.top == t.top.(state := InField)
  {
    hide StartValue, NullStep, BooleanStep, NumberStep, StringStep, FieldStep, EscapeStep, HexDigit, CommentStep;
    Wake(t, '"');
    Again(Go(t, FieldStart), '"');
    u := Step(t, '"').t;
    hide Step;
  }

  lemma KeyEnd(t: Tok, key: Text)
    requires Quoting(t, key) && t.top.state == InField && NUL !in key
    ensures var u := t.(top := t.top.(state := EatWs, saved := FieldEnd, field := Some(key)));
            Valid(u) && Step(t, '"') == More(u)
  {
    hide StartValue, NullStep, BooleanStep, NumberStep, StringStep, StructureStep, EscapeStep, HexDigit, CommentStep;
    NoNul(key);
    Again(t, '"');
    assert Valid(Step(t, '"').t);
    hide Step, CString;
  }

  lemma Colon(t: Tok)
    requires Valid(t) && t.top.state == EatWs && t.top.saved == FieldEnd
    ensures var u := Then(t, ObjectValue); Valid(u) && Step(t, ':') == More(u)
  {
    hide StartValue, NullStep, BooleanStep, NumberStep, StringStep, FieldStep, EscapeStep, HexDigit, CommentStep;
    Wake(t, ':');
    Again(Go(t, FieldEnd), ':');
    assert Valid(Step(t, ':').t);
    hide Step;
  }

  /** The text of a key, from the space before it to the space after the colon. */
  lemma KeyText(t: Tok, fields: seq<(Text, Json)>, key: Text) returns (u: Tok)
    requires Valid(t) && t.top == Level(EatWs, FieldStart, JObject(fields), None) && NUL !in key
    ensures Feed(t, " \"" + Escape(key) + "\": ") == More(u) && Valid(u)
    ensures u == Between(t.below, ObjectValue, JObject(fields), Some(key), u.scratch)
  {
    hide Step, Valid, Feed;
    SkipSpace(t);
    var a := KeyStart(t);
    var b := EscapedText(a, [], key);
    assert [] + key == key;
    KeyEnd(b, key);
    var c := b.(top := b.top.(state := EatWs, saved := FieldEnd, field := Some(key)));
    Colon(c);
    u := Then(c, ObjectValue);
    SkipSpace(u);
    QuotingValid(a, []);
    QuotingValid(b, key);
    hide Quoting;
    FeedOne(u, ' ');
    FeedCons(c, ':', u, " ");
    FeedCons(b, '"', c, ": ");
    FeedAppend(a, Escape(key), "\": ");
    FeedCons(t, '"', a, Escape(key) + "\": ");
    FeedCons(t, ' ', t, "\"" + (Escape(key) + "\": "));
    KeyParts(Escape(key));
  }

  lemma KeyParts(e: Text)
    ensures " " + ("\"" + (e + "\": ")) == " \"" + e + "\": "
    ensures ['"'] + ": " == "\": " && [':'] + " " == ": " && ['"'] + (e + "\": ") == "\"" + (e + "\": ")
  {
  }

  lemma FieldComma(t: Tok, acc: seq<(Text, Json)>, key: Text, v: Json, text: Text, s: Scratch)
    requires Valid(t) && t.top == Level(EatWs, ObjectValue, JObject(acc), Some(key)) && |t.below| < 31
    requires text != [] && !IsSpace(text[0]) && text[0] != '/' && text[0] != ']'
    requires Yields(Child(t, ObjectValueAdd), text, ',', v, s)
    ensures var u := Between(t.below, FieldStart, JObject(Put(acc, key, v)), None, s);
            Valid(u) && Feed(t, text + [',']) == More(u)
  {
    hide Step, Valid, Feed, Yields, Put;
    ChildStart(t, ObjectValueAdd, text[0]);
    var k := Child(t, ObjectValueAdd);
    var d := Done(k, v, s);
    Unpack(k, text, ',', v, s);
    SameFirst(t, k, text + [',']);
    ChildEnd(d, ',');
    Separator(Pop(d), ',');
    assert k.below[..|k.below| - 1] == t.below;
  }

  lemma FieldLast(t: Tok, acc: seq<(Text, Json)>, key: Text, v: Json, text: Text, s: Scratch)
    requires Valid(t) && t.top == Level(EatWs, ObjectValue, JObject(acc), Some(key)) && |t.below| < 31
    requires text != [] && !IsSpace(text[0]) && text[0] != '/' && text[0] != ']'
    requires Yields(Child(t, ObjectValueAdd), text, ' ', v, s)
    ensures var u := Between(t.below, Finish, JObject(Put(acc, key, v)), None, s);
            Valid(u) && Feed(t, text + " }") == More(u)
  {
    hide Step, Valid, Feed, Yields, Put;
    ChildStart(t, ObjectValueAdd, text[0]);
    var k := Child(t, ObjectValueAdd);
    var d := Done(k, v, s);
    Unpack(k, text, ' ', v, s);
    SameFirst(t, k, text + [' ']);
    SkipSpace(d);
    ChildEnd(d, '}');
    Closed(Pop(d), '}');
    assert k.below[..|k.below| - 1] == t.below;
    FeedAppend(t, text + [' '], ['}']);
    FeedOne(d, '}');
    assert text + [' '] + ['}'] == text + " }";
  }

  lemma {:induction false} NewKey(fields: seq<(Text, Json)>, key: Text)
    requires forall i :: 0 <= i < |fields| ==> fields[i].0 != key
    ensures Without(fields, key) == fields
    decreases |fields|
  {
    if fields != [] { NewKey(fields[1..], key); }
  }

  lemma PutNext(fields: seq<(Text, Json)>, n: nat)
    requires UniqueKeys(fields) && n < |fields|
    ensures Put(fields[..n], fields[n].0, fields[n].1) == fields[..n + 1]
  {
    NewKey(fields[..n], fields[n].0);
  }

  // ---------- values ----------

  /** The value fits below the levels there are. */
  predicate Fits(t: Tok, v: Json) { |t.below| + Nest(v) <= 31 }

  predicate Good(v: Json) { Plain(v) && Clean(v) }

  /** The text of a value, followed by a character that cannot go on a number, leaves the value complete. */
  lemma {:induction false} ValueText(t: Tok, v: Json, c: char) returns (s: Scratch)
    requires Ready(t) && Good(v) && Fits(t, v) && !IsNumberChar(c)
    ensures Yields(t, Print(v), c, v, s)
    decreases v
  {
    match v
    case JNull => s := LiteralText(t, "null", c);
    case JBool(b) => s := LiteralText(t, if b then "true" else "false", c);
    case JInt(i) => s := NumberText(t, i, c);
    case JString(x) => s := StringText(t, x, c);
    case JArray(items) =>
      s := ArrayText(t, v);
      DoneThen(t, Print(v), v, s, c);
    case JObject(fields) =>
      s := ObjectText(t, v);
      DoneThen(t, Print(v), v, s, c);
  }

  lemma DoneThen(t: Tok, text: Text, v: Json, s: Scratch, c: char)
    requires Valid(t) && Valid(Done(t, v, s)) && Feed(t, text) == More(Done(t, v, s))
    ensures Yields(t, text, c, v, s)
  {
    hide Step, Valid, Feed;
    FeedThen(t, text, Done(t, v, s), c);
  }

  /** The texts, taken apart. */
  lemma PrintArray(v: Json)
    requires Plain(v) && v.JArray?
    ensures Print(v) == if v.items == [] then ['['] + ([' '] + [']']) else ['['] + ([' '] + PrintItems(v, 0))
  {
    if v.items != [] { assert ['['] + ([' '] + PrintItems(v, 0)) == "[ " + PrintItems(v, 0); }
  }

  lemma PrintItem(v: Json, n: nat)
    requires Plain(v) && v.JArray? && n < |v.items|
    ensures PrintItems(v, n) ==
              if n + 1 < |v.items| then (Print(v.items[n]) + [',']) + ([' '] + PrintItems(v, n + 1))
              else Print(v.items[n]) + " ]"
  {
    if n + 1 < |v.items| {
      var p, r := Print(v.items[n]), PrintItems(v, n + 1);
      assert (p + [',']) + ([' '] + r) == p + (", " + r);
    }
  }

  lemma PrintObject(v: Json)
    requires Plain(v) && v.JObject?
    ensures Print(v) == if v.fields == [] then ['{'] + ([' '] + ['}']) else ['{'] + PrintFields(v, 0)
  {
  }

  lemma PrintField(v: Json, n: nat)
    requires Plain(v) && v.JObject? && n < |v.fields|
    ensures PrintFields(v, n) ==
              (" \"" + Escape(v.fields[n].0) + "\": ") +
              if n + 1 < |v.fields| then (Print(v.fields[n].1) + [',']) + PrintFields(v, n + 1)
              else Print(v.fields[n].1) + " }"
  {
    var e, p := " \"" + Escape(v.fields[n].0) + "\": ", Print(v.fields[n].1);
    if n + 1 < |v.fields| {
      var r := PrintFields(v, n + 1);
      assert e + p + ("," + r) == e + ((p + [',']) + r);
    } else {
      assert e + p + " }" == e + (p + " }");
    }
  }

  /** What the parts of a value are like. */
  lemma ItemGood(v: Json, n: nat)
    requires Good(v) && v.JArray? && n < |v.items|
    ensures Good(v.items[n]) && Nest(v.items[n]) < Nest(v)
  {
    NestIs(v);
  }

  lemma FieldGood(v: Json, n: nat)
    requires Good(v) && v.JObject? && n < |v.fields|
    ensures Good(v.fields[n].1) && NUL !in v.fields[n].0 && Nest(v.fields[n].1) < Nest(v) && UniqueKeys(v.fields)
  {
    NestIs(v);
  }

  lemma ArrayText(t: Tok, v: Json) returns (s: Scratch)
    requires Ready(t) && Good(v) && v.JArray? && Fits(t, v)
    ensures Valid(Done(t, v, s)) && Feed(t, Print(v)) == More(Done(t, v, s))
    decreases v, |v.items| + 1
  {
    hide Step, Valid, Feed, Nest, PrintItems, Print, Plain, Clean;
    PrintArray(v);
    var u := Opened(t, '[');
    SkipSpace(u);
    if v.items == [] {
      Closed(u, ']');
      s := u.scratch;
      FeedOne(u, ']');
      FeedCons(u, ' ', u, [']']);
      FeedCons(t, '[', u, [' '] + [']']);
    } else {
      s := ItemsText(u, v, 0);
      FeedCons(u, ' ', u, PrintItems(v, 0));
      FeedCons(t, '[', u, [' '] + PrintItems(v, 0));
    }
  }

  lemma NestIs(v: Json)
    ensures v.JArray? ==> forall i :: 0 <= i < |v.items| ==> Nest(v.items[i]) < Nest(v)
    ensures v.JObject? ==> forall i :: 0 <= i < |v.fields| ==> Nest(v.fields[i].1) < Nest(v)
  {
    if v.JArray? {
      forall i | 0 <= i < |v.items| ensures Nest(v.items[i]) < Nest(v) { NestItem(v, |v.items|, i); }
    }
    if v.JObject? {
      forall i | 0 <= i < |v.fields| ensures Nest(v.fields[i].1) < Nest(v) { NestField(v, |v.fields|, i); }
    }
  }

  lemma ItemsText(t: Tok, v: Json, n: nat) returns (s: Scratch)
    requires Valid(t) && Good(v) && v.JArray? && Fits(t, v) && n < |v.items|
    requires t.top == Level(EatWs, InArray, JArray(v.items[..n]), None)
    ensures Valid(Done(t, v, s)) && Feed(t, PrintItems(v, n)) == More(Done(t, v, s))
    decreases v, |v.items| - n
  {
    hide Step, Valid, Feed, Nest, PrintItems, Print, Yields, Plain, Clean;
    ItemGood(v, n);
    hide Good;
    var x := v.items[n];
    FirstChar(x);
    PrintItem(v, n);
    var p := Print(x);
    ChildStart(t, ArrayAdd, p[0]);
    var k := Child(t, ArrayAdd);
    assert v.items[..n] + [x] == v.items[..n + 1];
    if n + 1 < |v.items| {
      var s1 := ValueText(k, x, ',');
      ItemComma(t, v.items[..n], x, p, s1);
      var u := Between(t.below, InArray, JArray(v.items[..n + 1]), None, s1);
      SkipSpace(u);
      s := ItemsText(u, v, n + 1);
      FeedCons(u, ' ', u, PrintItems(v, n + 1));
      FeedAppend(t, p + [','], [' '] + PrintItems(v, n + 1));
    } else {
      s := ValueText(k, x, ' ');
      ItemLast(t, v.items[..n], x, p, s);
      assert v.items[..n + 1] == v.items;
    }
  }

  lemma ObjectText(t: Tok, v: Json) returns (s: Scratch)
    requires Ready(t) && Good(v) && v.JObject? && Fits(t, v)
    ensures Valid(Done(t, v, s)) && Feed(t, Print(v)) == More(Done(t, v, s))
    decreases v, |v.fields| + 1
  {
    hide Step, Valid, Feed, Nest, PrintFields, Print, Plain, Clean;
    PrintObject(v);
    var u := Opened(t, '{');
    if v.fields == [] {
      SkipSpace(u);
      Closed(u, '}');
      s := u.scratch;
      FeedOne(u, '}');
      FeedCons(u, ' ', u, ['}']);
      FeedCons(t, '{', u, [' '] + ['}']);
    } else {
      s := FieldsText(u, v, 0);
      FeedCons(t, '{', u, PrintFields(v, 0));
    }
  }

  lemma FieldsText(t: Tok, v: Json, n: nat) returns (s: Scratch)
    requires Valid(t) && Good(v) && v.JObject? && Fits(t, v) && n < |v.fields|
    requires t.top == Level(EatWs, FieldStart, JObject(v.fields[..n]), None)
    ensures Valid(Done(t, v, s)) && Feed(t, PrintFields(v, n)) == More(Done(t, v, s))
    decreases v, |v.fields| - n
  {
    hide Step, Valid, Feed, Nest, PrintFields, Print, Yields, Plain, Clean, Put, Escape;
    FieldGood(v, n);
    hide Good;
    var key, x := v.fields[n].0, v.fields[n].1;
    FirstChar(x);
    PutNext(v.fields, n);
    PrintField(v, n);
    var p, e := Print(x), " \"" + Escape(key) + "\": ";
    var w := KeyText(t, v.fields[..n], key);
    ChildStart(w, ObjectValueAdd, p[0]);
    var k := Child(w, ObjectValueAdd);
    if n + 1 < |v.fields| {
      var s1 := ValueText(k, x, ',');
      FieldComma(w, v.fields[..n], key, x, p, s1);
      var u := Between(t.below, FieldStart, JObject(v.fields[..n + 1]), None, s1);
      s := FieldsText(u, v, n + 1);
      FeedAppend(w, p + [','], PrintFields(v, n + 1));
      FeedAppend(t, e, p + [','] + PrintFields(v, n + 1));
    } else {
      s := ValueText(k, x, ' ');
      FieldLast(w, v.fields[..n], key, x, p, s);
      FeedAppend(t, e, p + " }");
      assert v.fields[..n + 1] == v.fields;
    }
  }
}
