/** What a \u escape puts into a string: the UTF-8 form of its four digits. */
module JsonUnicode {
  import opened Bytes
  import opened Json
  import opened JsonToken
  import opened JsonRun
  import opened JsonRoundTrip

  predicate Continues(c: char) { 0x80 <= c as int < 0xC0 }

  /** The number that one UTF-8 sequence of up to three bytes stands for; None if it is none, or not the shortest. */
  function DecodeUtf8(w: Text): (n: Option<nat>) {
    if |w| == 1 && w[0] as int < 0x80 then Some(w[0] as int)
    else if |w| == 2 && 0xC0 <= w[0] as int < 0xE0 && Continues(w[1]) then
      var n := 64 * (w[0] as int - 0xC0) + (w[1] as int - 0x80);
      if n < 0x80 then None else Some(n)
    else if |w| == 3 && 0xE0 <= w[0] as int < 0xF0 && Continues(w[1]) && Continues(w[2]) then
      var n := 4096 * (w[0] as int - 0xE0) + 64 * (w[1] as int - 0x80) + (w[2] as int - 0x80);
      if n < 0x800 then None else Some(n)
    else None
  }

  lemma Utf8Decodes(n: nat)
    requires n < 0x1_0000
    ensures DecodeUtf8(Utf8(n)) == Some(n)
  {
    if n >= 0x800 {
      assert n == 4096 * (n / 4096) + 64 * (n / 64 % 64) + n % 64 by { assert n / 64 / 64 == n / 4096; }
    }
  }

  /** No other bytes decode to the number. */
  lemma Utf8Only(n: nat, w: Text)
    requires n < 0x1_0000 && DecodeUtf8(w) == Some(n)
    ensures w == Utf8(n)
  {
    if |w| == 1 {
      assert w == [w[0]];
    } else if |w| == 2 {
      var a, b := w[0] as int - 0xC0, w[1] as int - 0x80;
      assert n / 64 == a && n % 64 == b;
      assert w == [w[0], w[1]];
    } else {
      var a, b, c := w[0] as int - 0xE0, w[1] as int - 0x80, w[2] as int - 0x80;
      assert n == 64 * (64 * a + b) + c;
      assert n / 64 == 64 * a + b && n % 64 == c && n / 4096 == a;
      assert w == [w[0], w[1], w[2]];
    }
  }

  /** Inside a string or a key, whatever its quotes. */
  predicate InText(t: Tok) {
    Valid(t) && (t.top.state == InString || t.top.state == InField) && t.scratch.quote != '\\'
  }

  lemma DigitValue(d: nat)
    requires d < 16
    ensures var c := HEX_DIGITS[d]; IsHex(c) && HexValue(c) == d && c != NUL
  {
  }

  lemma EscapeBegins(t: Tok) returns (u: Tok)
    requires InText(t)
    ensures Step(t, '\\') == More(u) && Valid(u)
    ensures u == t.(top := t.top.(saved := t.top.state, state := StringEscape))
  {
    Again(t, '\\');
    u := t.(top := t.top.(saved := t.top.state, state := StringEscape));
    hide Step;
  }

  lemma DigitsBegin(t: Tok) returns (u: Tok)
    requires Valid(t) && t.top.state == StringEscape
    ensures Step(t, 'u') == More(u) && Valid(u)
    ensures u == t.(top := t.top.(state := EscapeUnicode), scratch := t.scratch.(ucs := 0, stPos := 0))
  {
    Again(t, 'u');
    u := t.(top := t.top.(state := EscapeUnicode), scratch := t.scratch.(ucs := 0, stPos := 0));
    hide Step;
  }

  lemma DigitAdds(t: Tok, d: nat, ucs: nat) returns (u: Tok)
    requires Valid(t) && t.top.state == EscapeUnicode && t.scratch.stPos < 3 && d < 16
    requires ucs == t.scratch.ucs + d * Place(t.scratch.stPos) && ucs < 0x1_0000
    ensures Step(t, HEX_DIGITS[d]) == More(u) && Valid(u)
    ensures u == t.(scratch := t.scratch.(ucs := ucs, stPos := t.scratch.stPos + 1))
  {
    u := t.(scratch := t.scratch.(ucs := ucs, stPos := t.scratch.stPos + 1));
    var c := HEX_DIGITS[d];
    DigitValue(d);
    TurnHex(t, c);
    Again(t, c);
    OneDigit(t, c, d, ucs);
    hide *;
    assert Valid(Step(t, c).t);
  }

  lemma OneDigit(t: Tok, c: char, d: nat, ucs: nat)
    requires t.scratch.stPos < 3 && IsHex(c) && HexValue(c) == d && c != NUL
    requires ucs == t.scratch.ucs + d * Place(t.scratch.stPos) && ucs < 0x1_0000
    ensures HexDigit(t, c) == More(t.(scratch := t.scratch.(ucs := ucs, stPos := t.scratch.stPos + 1)))
  {
    hide IsHex, HexValue, Place;
  }

  lemma DigitEnds(t: Tok, d: nat) returns (u: Tok)
    requires Valid(t) && t.top.state == EscapeUnicode && t.scratch.stPos == 3 && d < 16 && t.scratch.ucs + d < 0x1_0000
    ensures Step(t, HEX_DIGITS[d]) == More(u) && Valid(u)
    ensures var n := t.scratch.ucs + d;
            u == t.(top := t.top.(state := t.top.saved),
                    scratch := t.scratch.(ucs := n, stPos := 4, pb := t.scratch.pb + Utf8(n)))
  {
    var n := t.scratch.ucs + d;
    u := t.(top := t.top.(state := t.top.saved),
            scratch := t.scratch.(ucs := n, stPos := 4, pb := t.scratch.pb + Utf8(n)));
    var c := HEX_DIGITS[d];
    DigitValue(d);
    TurnHex(t, c);
    Again(t, c);
    LastDigit(t, c, d);
    hide *;
    assert Valid(Step(t, c).t);
  }

  lemma LastDigit(t: Tok, c: char, d: nat)
    requires t.scratch.stPos == 3 && IsHex(c) && HexValue(c) == d && c != NUL && t.scratch.ucs + d < 0x1_0000
    ensures var n := t.scratch.ucs + d;
            HexDigit(t, c) == More(t.(top := t.top.(state := t.top.saved),
                                      scratch := t.scratch.(ucs := n, stPos := 4, pb := t.scratch.pb + Utf8(n))))
  {
    hide IsHex, HexValue, Utf8;
  }

  lemma Places()
    ensures Place(0) == 4096 && Place(1) == 256 && Place(2) == 16
  {
  }

  lemma FirstHalf(t: Tok, a: nat) returns (u: Tok)
    requires InText(t) && a < 16
    ensures Feed(t, ['\\', 'u', HEX_DIGITS[a]]) == More(u) && Valid(u)
    ensures u == t.(top := t.top.(saved := t.top.state, state := EscapeUnicode),
                    scratch := t.scratch.(ucs := 4096 * a, stPos := 1))
  {
    Places();
    assert Valid(t);
    hide InText, Valid, Step, Feed, HEX_DIGITS, Place;
    var t1 := EscapeBegins(t);
    var t2 := DigitsBegin(t1);
    u := DigitAdds(t2, a, 4096 * a);
    TakeThree(t, '\\', t1, 'u', t2, HEX_DIGITS[a], u);
  }

  lemma SecondHalf(t: Tok, b: nat, c: nat, d: nat) returns (u: Tok)
    requires Valid(t) && t.top.state == EscapeUnicode && t.scratch.stPos == 1 && b < 16 && c < 16 && d < 16
    requires t.scratch.ucs + 4096 <= 0x1_0000
    ensures Feed(t, [HEX_DIGITS[b], HEX_DIGITS[c], HEX_DIGITS[d]]) == More(u) && Valid(u)
    ensures var n := t.scratch.ucs + 256 * b + 16 * c + d;
            u == t.(top := t.top.(state := t.top.saved),
                    scratch := t.scratch.(ucs := n, stPos := 4, pb := t.scratch.pb + Utf8(n)))
  {
    Places();
    hide Valid, Step, Feed, Place, Utf8;
    var t1 := DigitAdds(t, b, t.scratch.ucs + 256 * b);
    var t2 := DigitAdds(t1, c, t1.scratch.ucs + 16 * c);
    u := DigitEnds(t2, d);
    TakeThree(t, HEX_DIGITS[b], t1, HEX_DIGITS[c], t2, HEX_DIGITS[d], u);
  }

  /** From inside any string or key: an escape of the digits a, b, c and d appends the bytes that decode to their number in
      base 16, and leads back to where it began. */
  lemma EscapeAppends(t: Tok, a: nat, b: nat, c: nat, d: nat) returns (u: Tok, w: Text)
    requires InText(t) && a < 16 && b < 16 && c < 16 && d < 16
    ensures Feed(t, "\\u" + [HEX_DIGITS[a], HEX_DIGITS[b], HEX_DIGITS[c], HEX_DIGITS[d]]) == More(u) && InText(u)
    ensures u.below == t.below && u.top == t.top.(saved := t.top.state) && u.scratch.quote == t.scratch.quote
    ensures u.scratch.pb == t.scratch.pb + w && DecodeUtf8(w) == Some(4096 * a + 256 * b + 16 * c + d)
  {
    var n := 4096 * a + 256 * b + 16 * c + d;
    w := Utf8(n);
    Utf8Decodes(n);
    assert Valid(t);
    hide *;
    var m := FirstHalf(t, a);
    u := SecondHalf(m, b, c, d);
    Arrived(t, u);
    var ha, hb, hc, hd := HEX_DIGITS[a], HEX_DIGITS[b], HEX_DIGITS[c], HEX_DIGITS[d];
    FeedAppend(t, ['\\', 'u', ha], [hb, hc, hd]);
    assert ['\\', 'u', ha] + [hb, hc, hd] == "\\u" + [ha, hb, hc, hd];
  }

  lemma Arrived(t: Tok, u: Tok)
    requires InText(t) && Valid(u) && u.top == t.top.(saved := t.top.state) && u.scratch.quote == t.scratch.quote
    ensures InText(u) && Valid(t)
  {
    hide Valid;
  }

  lemma TakeThree(t: Tok, a: char, t1: Tok, b: char, t2: Tok, c: char, u: Tok)
    requires Valid(t) && Valid(t1) && Valid(t2) && Valid(u)
    requires Step(t, a) == More(t1) && Step(t1, b) == More(t2) && Step(t2, c) == More(u)
    ensures Feed(t, [a, b, c]) == More(u)
  {
    hide Step, Valid, Feed;
    FeedOne(t2, c);
    FeedCons(t1, b, t2, [c]);
    FeedCons(t, a, t1, [b, c]);
    assert [b] + [c] == [b, c] && [a] + [b, c] == [a, b, c];
  }
}
