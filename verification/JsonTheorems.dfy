/** Print and parse: exactly the values nested no deeper than the tokener's stack come back. */
module JsonTheorems {
  import opened Bytes
  import opened Json
  import opened JsonToken
  import opened JsonRun
  import opened JsonRoundTrip
  import opened JsonValues
  import JsonPrinter
  import JsonTokener

  /** A tokener that is new or has been reset. */
  predicate Rested(t: Tok) { Ready(t) && t.below == [] }

  /** json_tokener_parse_ex on a whole string: the text up to its NUL. */
  function Parse(t: Tok, text: Text): (r: Result)
    requires Rested(t)
  {
    Run(t, text + [NUL])
  }

  // ---------- the text has no NUL ----------

  lemma {:induction false} NoNulEscaped(s: Text)
    requires NUL !in s
    ensures NUL !in Escape(s)
    decreases |s|
  {
    if s != [] {
      assert s[0] in s;
      NoNulChar(s[0]);
      NoNulEscaped(s[1..]);
    }
  }

  lemma NoNulChar(c: char)
    requires c != NUL
    ensures NUL !in EscapeChar(c)
  {
    if c < ' ' {
      HexBack(c as int / 16);
      HexBack(c as int % 16);
    }
  }

  lemma {:induction false} NoNulDigits(n: nat)
    ensures NUL !in Digits(n)
    decreases n
  {
    if n >= 10 { NoNulDigits(n / 10); }
  }

  lemma {:induction false} NoNulPrinted(v: Json)
    requires Good(v)
    ensures NUL !in Print(v)
    decreases v
  {
    match v
    case JInt(i) => NoNulDigits(if i < 0 then -i else i);
    case JString(s) => NoNulEscaped(s);
    case JArray(items) => if items != [] { NoNulItems(v, 0); }
    case JObject(fields) => if fields != [] { NoNulFields(v, 0); }
    case _ =>
  }

  lemma NoNulItems(v: Json, n: nat)
    requires Good(v) && v.JArray? && n < |v.items|
    ensures NUL !in PrintItems(v, n)
    decreases v, |v.items| - n
  {
    NoNulPrinted(v.items[n]);
    if n + 1 < |v.items| { NoNulItems(v, n + 1); }
    hide Print;
  }

  lemma NoNulFields(v: Json, n: nat)
    requires Good(v) && v.JObject? && n < |v.fields|
    ensures NUL !in PrintFields(v, n)
    decreases v, |v.fields| - n
  {
    NoNulEscaped(v.fields[n].0);
    NoNulPrinted(v.fields[n].1);
    if n + 1 < |v.fields| { NoNulFields(v, n + 1); }
    hide Print, Escape;
  }

  // ---------- values that fit ----------

  /** A parse that ends in the finish state, with no NUL before its last character. */
  lemma {:induction false} RunHalts(t: Tok, s: Text)
    requires Valid(t) && s != [] && NUL !in s[..|s| - 1] && Feed(t, s).Halt?
    requires Feed(t, s).t.top.state == Finish
    ensures Run(t, s).t == Feed(t, s).t && Run(t, s).err == Feed(t, s).err
    decreases |s|
  {
    hide Step, Valid;
    if Step(t, s[0]).More? {
      if |s| > 1 {
        assert s[0] == s[..|s| - 1][0];
        var u := Step(t, s[0]).t;
        assert s[1..][..|s| - 2] == s[..|s| - 1][1..];
        RunHalts(u, s[1..]);
      }
    }
  }

  /** A complete value at the bottom level ends the parse. */
  lemma DoneEnds(t: Tok, v: Json, s: Scratch)
    requires t.below == [] && Valid(Done(t, v, s))
    ensures Step(Done(t, v, s), NUL) == Halt(Go(Done(t, v, s), Finish), Success)
  {
    Wake(Done(t, v, s), NUL);
    Again(Go(Done(t, v, s), Finish), NUL);
    hide Step;
  }

  /** A value that fits comes back from its text, whatever it is made of. */
  lemma FittingRoundTrip(t: Tok, v: Json)
    requires Rested(t) && Good(v) && Nest(v) <= 31
    ensures Parse(t, Print(v)).err == Success && Parse(t, Print(v)).Obj() == v
  {
    hide Step, Valid, Feed, Run, Print;
    var s := ValueText(t, v, NUL);
    Unpack(t, Print(v), NUL, v, s);
    DoneEnds(t, v, s);
    NoNulPrinted(v);
    assert (Print(v) + [NUL])[..|Print(v)|] == Print(v);
    RunHalts(t, Print(v) + [NUL]);
  }

  // ---------- values that are nested too deep ----------

  predicate TooDeep(t: Tok, v: Json) { |t.below| + Nest(v) > 31 }

  lemma {:induction false} FeedHalts(t: Tok, a: Text, b: Text)
    requires Valid(t) && Feed(t, a).Halt?
    ensures Feed(t, a + b) == Feed(t, a)
    decreases |a|
  {
    hide Step, Valid;
    assert (a + b)[0] == a[0] && (a + b)[1..] == a[1..] + b;
    if Step(t, a[0]).More? { FeedHalts(Step(t, a[0]).t, a[1..], b); }
  }

  /** The error, wherever the tokener stands then: not where a value has been finished. */
  predicate DepthError(o: Outcome) { o.Halt? && o.err == ErrDepth }

  /** The stack is full, and a child would begin. */
  lemma NoRoom(t: Tok, c: char)
    requires Valid(t) && t.top.state == EatWs && |t.below| == 31 && !IsSpace(c) && c != '/' && c != ']'
    requires t.top.saved == InArray || t.top.saved == ObjectValue
    ensures DepthError(Step(t, c))
  {
    hide StartValue, NullStep, BooleanStep, NumberStep, StringStep, FieldStep, EscapeStep, HexDigit, CommentStep;
    Wake(t, c);
    Again(Go(t, t.top.saved), c);
    hide Step;
  }

  lemma FirstHalts(t: Tok, s: Text, rest: Text)
    requires Valid(t) && s != [] && DepthError(Step(t, s[0]))
    ensures DepthError(Feed(t, s + rest))
  {
    hide Step, Valid;
    assert (s + rest)[0] == s[0];
  }

  lemma ChildHalts(t: Tok, k: Tok, s: Text, rest: Text)
    requires Valid(t) && Valid(k) && s != [] && Step(t, s[0]) == Step(k, s[0]) && DepthError(Feed(k, s))
    ensures DepthError(Feed(t, s + rest))
  {
    hide Step, Valid, Feed;
    SameFirst(t, k, s);
    FeedHalts(t, s, rest);
  }

  /** A value nested too deep for the levels that are left stops the parse. */
  lemma {:induction false} DeepText(t: Tok, v: Json)
    requires Ready(t) && Good(v) && TooDeep(t, v)
    ensures DepthError(Feed(t, Print(v)))
    decreases v
  {
    assert |t.below| <= 31;
    if v.JArray? { DeepArray(t, v); } else { DeepObject(t, v); }
  }

  lemma {:induction false} DeepestItem(v: Json, n: nat) returns (i: nat)
    requires v.JArray? && 0 < n <= |v.items|
    ensures i < n && Nest(v.items[i]) == NestItems(v, n)
    decreases n
  {
    i := n - 1;
    if n > 1 && NestItems(v, n - 1) > Nest(v.items[n - 1]) { i := DeepestItem(v, n - 1); }
  }

  lemma {:induction false} DeepestField(v: Json, n: nat) returns (i: nat)
    requires v.JObject? && 0 < n <= |v.fields|
    ensures i < n && Nest(v.fields[i].1) == NestFields(v, n)
    decreases n
  {
    i := n - 1;
    if n > 1 && NestFields(v, n - 1) > Nest(v.fields[n - 1].1) { i := DeepestField(v, n - 1); }
  }

  lemma DeepArray(t: Tok, v: Json)
    requires Ready(t) && Good(v) && v.JArray? && TooDeep(t, v) && |t.below| <= 31
    ensures DepthError(Feed(t, Print(v)))
    decreases v, |v.items| + 1
  {
    assert v.items != [];
    var i := DeepestItem(v, |v.items|);
    assert Nest(v) == 1 + Nest(v.items[i]);
    hide Step, Valid, Feed, Nest, PrintItems, Print, Plain, Clean;
    PrintArray(v);
    var u := Opened(t, '[');
    SkipSpace(u);
    DeepItems(u, v, 0, i);
    FeedCons(u, ' ', u, PrintItems(v, 0));
    FeedCons(t, '[', u, [' '] + PrintItems(v, 0));
  }

  lemma DeepItems(t: Tok, v: Json, n: nat, i: nat)
    requires Valid(t) && Good(v) && v.JArray? && n <= i < |v.items| && |t.below| <= 31
    requires |t.below| + 1 + Nest(v.items[i]) > 31
    requires t.top == Level(EatWs, InArray, JArray(v.items[..n]), None)
    ensures DepthError(Feed(t, PrintItems(v, n)))
    decreases v, |v.items| - n
  {
    hide Step, Valid, Feed, Nest, PrintItems, Print, Yields, Plain, Clean;
    ItemGood(v, n);
    hide Good;
    var x := v.items[n];
    FirstChar(x);
    PrintItem(v, n);
    var p, tail := Print(x), if n + 1 < |v.items| then [','] + ([' '] + PrintItems(v, n + 1)) else " ]";
    assert PrintItems(v, n) == p + tail;
    if |t.below| == 31 {
      NoRoom(t, p[0]);
      FirstHalts(t, p, tail);
    } else {
      ChildStart(t, ArrayAdd, p[0]);
      var k := Child(t, ArrayAdd);
      if TooDeep(k, x) {
        DeepText(k, x);
        ChildHalts(t, k, p, tail);
      } else {
        assert n < i;
        var s := ValueText(k, x, ',');
        ItemComma(t, v.items[..n], x, p, s);
        assert v.items[..n] + [x] == v.items[..n + 1];
        var u := Between(t.below, InArray, JArray(v.items[..n + 1]), None, s);
        SkipSpace(u);
        DeepItems(u, v, n + 1, i);
        FeedCons(u, ' ', u, PrintItems(v, n + 1));
        FeedAppend(t, p + [','], [' '] + PrintItems(v, n + 1));
      }
    }
  }

  lemma DeepObject(t: Tok, v: Json)
    requires Ready(t) && Good(v) && !v.JArray? && TooDeep(t, v) && |t.below| <= 31
    ensures DepthError(Feed(t, Print(v)))
    decreases v, if v.JObject? then |v.fields| + 1 else 0
  {
    assert v.JObject? && v.fields != [];
    var i := DeepestField(v, |v.fields|);
    assert Nest(v) == 1 + Nest(v.fields[i].1);
    hide Step, Valid, Feed, Nest, PrintFields, Print, Plain, Clean;
    PrintObject(v);
    var u := Opened(t, '{');
    DeepFields(u, v, 0, i);
    FeedCons(t, '{', u, PrintFields(v, 0));
  }

  lemma DeepFields(t: Tok, v: Json, n: nat, i: nat)
    requires Valid(t) && Good(v) && v.JObject? && n <= i < |v.fields| && |t.below| <= 31
    requires |t.below| + 1 + Nest(v.fields[i].1) > 31
    requires t.top == Level(EatWs, FieldStart, JObject(v.fields[..n]), None)
    ensures DepthError(Feed(t, PrintFields(v, n)))
    decreases v, |v.fields| - n
  {
    hide Step, Valid, Feed, Nest, PrintFields, Print, Yields, Plain, Clean, Put, Escape;
    FieldGood(v, n);
    hide Good;
    var key, x := v.fields[n].0, v.fields[n].1;
    FirstChar(x);
    PutNext(v.fields, n);
    PrintField(v, n);
    var p, e := Print(x), " \"" + Escape(key) + "\": ";
    var tail := if n + 1 < |v.fields| then [','] + PrintFields(v, n + 1) else " }";
    var w := KeyText(t, v.fields[..n], key);
    assert PrintFields(v, n) == e + (p + tail);
    FeedAppend(t, e, p + tail);
    if |t.below| == 31 {
      NoRoom(w, p[0]);
      FirstHalts(w, p, tail);
    } else {
      ChildStart(w, ObjectValueAdd, p[0]);
      var k := Child(w, ObjectValueAdd);
      if TooDeep(k, x) {
        DeepText(k, x);
        ChildHalts(w, k, p, tail);
      } else {
        assert n < i;
        var s := ValueText(k, x, ',');
        FieldComma(w, v.fields[..n], key, x, p, s);
        var u := Between(t.below, FieldStart, JObject(v.fields[..n + 1]), None, s);
        DeepFields(u, v, n + 1, i);
        FeedAppend(w, p + [','], PrintFields(v, n + 1));
        assert p + tail == p + [','] + PrintFields(v, n + 1);
      }
    }
  }

  /** An error before the terminator is the parse's own. */
  lemma {:induction false} RunStops(t: Tok, s: Text, rest: Text)
    requires Valid(t) && NUL !in s && Feed(t, s).Halt?
    ensures Run(t, s + rest).err == Feed(t, s).err
    decreases |s|
  {
    hide Step, Valid;
    assert (s + rest)[0] == s[0] && (s + rest)[1..] == s[1..] + rest;
    assert s[0] in s;
    if Step(t, s[0]).More? { RunStops(Step(t, s[0]).t, s[1..], rest); }
  }

  /** Printing and parsing gives the value back if and only if no child stands more than 31 levels deep; deeper values
      give the depth error. */
  lemma PrintParse(t: Tok, v: Json)
    requires Rested(t) && Good(v)
    ensures Parse(t, Print(v)).err == (if Nest(v) <= 31 then Success else ErrDepth)
    ensures Nest(v) <= 31 ==> Parse(t, Print(v)).Obj() == v
  {
    if Nest(v) <= 31 {
      FittingRoundTrip(t, v);
    } else {
      hide Step, Valid, Feed, Run, Print, Nest;
      DeepText(t, v);
      NoNulPrinted(v);
      RunStops(t, Print(v), [NUL]);
    }
  }

  /** The text may come in pieces, cut anywhere. */
  lemma PrintParseInPieces(t: Tok, v: Json, a: Text, b: Text)
    requires Rested(t) && Good(v) && Nest(v) <= 31 && a + b == Print(v) + [NUL] && Run(t, a).err == Continue
    ensures Run(Run(t, a).t, b).err == Success && Run(Run(t, a).t, b).Obj() == v
  {
    FittingRoundTrip(t, v);
    hide Step, Valid, Run, Print, Nest;
    Resume(t, a, b);
  }

  /** From the printer's buffer through the tokener: the same value, exactly if it is not nested too deep. */
  method PrintAndParse(v: Json) returns (obj: Json, err: Err)
    requires Good(v)
    ensures if Nest(v) <= 31 then err == Success && obj == v else err == ErrDepth && obj == JNull
  {
    var pb := new JsonPrinter.PrintBuf();
    JsonPrinter.PrintTo(pb, v);
    assert [] + Print(v) == Print(v);
    var tok := new JsonTokener.Tokener();
    hide Print, Nest, Run, Valid;
    PrintParse(tok.Machine(), v);
    obj := tok.ParseEx(pb.buf + [NUL]);
    err := tok.err;
  }
}
