/** Numbers in a JSON text: all that the tokener takes for one, and what it makes of it. */
module JsonNumber {
  import opened Bytes
  import opened Json
  import opened JsonToken
  import opened JsonRun
  import opened JsonRoundTrip

  const NUMBER_CHARS := "0123456789.+-eE"

  lemma NumberCharsAre(c: char)
    ensures c in NUMBER_CHARS <==> IsNumberChar(c)
  {
    assert |NUMBER_CHARS| == 15;
    assert forall i :: 0 <= i < 10 ==> NUMBER_CHARS[i] as int == '0' as int + i;
    assert NUMBER_CHARS[10] == '.' && NUMBER_CHARS[11] == '+' && NUMBER_CHARS[12] == '-';
    assert NUMBER_CHARS[13] == 'e' && NUMBER_CHARS[14] == 'E';
    if IsDigit(c) { assert c == NUMBER_CHARS[c as int - '0' as int]; }
  }

  /** A text that is taken for a number: as many of these characters as follow each other, the first a digit or a minus. */
  predicate Numeral(s: Text) {
    s != [] && (IsDigit(s[0]) || s[0] == '-') && forall c :: c in s ==> c in NUMBER_CHARS
  }

  /** A point or a small e makes it a double. */
  predicate Fractional(s: Text) { '.' in s || 'e' in s }

  predicate Gathered(t: Tok, u: Tok, s: Text) {
    Valid(u) && u.below == t.below && u.top == RESET.(state := InNumber) &&
    u.scratch.pb == s && (u.scratch.isDouble <==> Fractional(s))
  }

  lemma GatherFirst(t: Tok, d: char) returns (u: Tok)
    requires Ready(t) && (IsDigit(d) || d == '-')
    ensures Valid(t) && Feed(t, [d]) == More(u) && Gathered(t, u, [d])
  {
    u := NumberStart(t, d);
    FeedOne(t, d);
    hide Step, Valid, Feed;
  }

  lemma GatherOne(t: Tok, u: Tok, s: Text, c: char) returns (w: Tok)
    requires Gathered(t, u, s) && c in NUMBER_CHARS
    ensures Valid(u) && Step(u, c) == More(w) && Gathered(t, w, s + [c])
  {
    NumberCharsAre(c);
    hide NUMBER_CHARS;
    Again(u, c);
    TurnKeeps(u, c);
    w := Turn(u, c).t;
    hide Step, Valid;
  }

  lemma {:induction false} GatherAll(t: Tok, s: Text) returns (u: Tok)
    requires Ready(t) && Numeral(s)
    ensures Valid(t) && Feed(t, s) == More(u) && Gathered(t, u, s)
    decreases |s|
  {
    hide Step, Feed, Gathered, NUMBER_CHARS;
    if |s| == 1 {
      u := GatherFirst(t, s[0]);
      assert s == [s[0]];
    } else {
      var a, c := s[..|s| - 1], s[|s| - 1];
      assert s == a + [c];
      var v := GatherAll(t, a);
      u := GatherOne(t, v, a, c);
      FeedThen(t, a, v, c);
    }
  }

  /** What is made of the text when it has ended: an int, a double, or an error. */
  function NumberOf(s: Text): (v: Option<Json>) {
    if Fractional(s) then (if ScansDouble(s) then Some(JDouble(s)) else None)
    else if ScanInt(s).Some? then Some(JInt(ScanInt(s).value)) else None
  }

  /** Every number text, however long, gives the value that sscanf finds in the whole of it, with %lf if it has a point or a
      small e and with %d otherwise; if there is none, the parse ends. */
  lemma NumberTaken(t: Tok, s: Text, c: char) returns (x: Scratch)
    requires Ready(t) && Numeral(s) && c !in NUMBER_CHARS
    ensures NumberOf(s).Some? ==> Yields(t, s, c, NumberOf(s).value, x)
    ensures NumberOf(s).None? ==> Feed(t, s + [c]).Halt? && Feed(t, s + [c]).err == ErrNumber
  {
    hide Step, Feed, NUMBER_CHARS, Numeral, NumberOf, Gathered;
    var u := GatherAll(t, s);
    x := u.scratch;
    NumberEnds(t, u, s, c);
    FeedThen(t, s, u, c);
    if NumberOf(s).Some? { DoneValid(t, NumberOf(s).value, x); }
  }

  lemma NumberEnds(t: Tok, u: Tok, s: Text, c: char)
    requires Ready(t) && Gathered(t, u, s) && c !in NUMBER_CHARS
    ensures Valid(u)
    ensures NumberOf(s).Some? ==>
              var d := Done(t, NumberOf(s).value, u.scratch); Valid(d) && Step(u, c) == Step(d, c)
    ensures NumberOf(s).None? ==> Step(u, c) == Halt(u, ErrNumber)
  {
    NumberCharsAre(c);
    hide NUMBER_CHARS, ScanInt, ScansDouble, Fractional;
    Again(u, c);
    if NumberOf(s).Some? { DoneValid(t, NumberOf(s).value, u.scratch); }
    hide Step, Valid;
  }

  /** %d stops at the first character that is no digit, so digits with a capital E behind them are an int, and the exponent
      is lost. */
  lemma CapitalExponent(t: Tok, digits: Text, rest: Text, c: char) returns (x: Scratch)
    requires Ready(t) && digits != [] && AllDigits(digits) && c !in NUMBER_CHARS
    requires Numeral(digits + "E" + rest) && !Fractional(rest)
    ensures Yields(t, digits + "E" + rest, c, JInt(ScanDigits(digits, 0)), x)
  {
    var s := digits + "E" + rest;
    assert !Fractional(s);
    assert s == digits + ("E" + rest);
    ScanStops(digits, "E" + rest, 0);
    hide Step, Feed, NUMBER_CHARS, ScanDigits;
    x := NumberTaken(t, s, c);
  }

  lemma {:induction false} ScanStops(a: Text, b: Text, acc: nat)
    requires AllDigits(a) && b != [] && !IsDigit(b[0])
    ensures ScanDigits(a + b, acc) == ScanDigits(a, acc)
    decreases |a|
  {
    if a == [] {
      assert a + b == b;
    } else {
      assert (a + b)[0] == a[0] && (a + b)[1..] == a[1..] + b;
      ScanStops(a[1..], b, 10 * acc + (a[0] as int - '0' as int));
    }
  }
}
