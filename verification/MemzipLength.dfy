/** How long the output of memzip is: the account of matches and escapes, and how far it can exceed the source. */
module MemzipLength {
  import opened Bytes
  import opened Lz
  import opened MemzipFormat
  import opened MemzipSpec
  import opened MemzipRoundTrip

  // ---------- the account ----------

  /** What the matches save. */
  function Gains(toks: seq<Token>): (g: int) {
    if toks == [] then 0
    else
      var t := toks[|toks| - 1];
      Gains(toks[..|toks| - 1]) + if t.Match? then TokenGain(t.len, t.distance) else 0
  }

  /** What the escapes cost. */
  function Escapes(toks: seq<Token>): (e: nat) {
    if toks == [] then 0
    else Escapes(toks[..|toks| - 1]) + if IsEscape(toks[|toks| - 1]) then 1 else 0
  }

  /** The coded length is the original one, less what matches save, and more by the escapes. */
  lemma {:induction false} Account(first: byte, toks: seq<Token>)
    requires ValidTokens(first, toks)
    ensures |Expand(first, toks)| - |Encode(first, toks)| == Gains(toks) - Escapes(toks)
    ensures Gains(toks) >= 0
    decreases |toks|
  {
    if toks != [] {
      Account(first, toks[..|toks| - 1]);
      var t := toks[|toks| - 1];
      if t.Match? { GainIsSaving(t.len, t.distance); }
    }
  }

  /** The output is longer than the source exactly if the coding fits and has more escapes than its matches save. */
  lemma GrowsExactly(s: seq<byte>)
    requires s != []
    ensures |Zip(s)| > |s| <==> Fits(Tokens(s, 1, 0), 1, |s|) && Escapes(Tokens(s, 1, 0)) > Gains(Tokens(s, 1, 0))
  {
    AllTokens(s);
    Account(s[0], Tokens(s, 1, 0));
    hide Tokens, Fits, Encode, Expand, ValidTokens, Gains, Escapes;
  }

  /** It breaks even, and does not come back, exactly if the two are equal and not zero. */
  lemma BreaksEvenExactly(s: seq<byte>)
    requires s != []
    ensures BreaksEven(s) <==> Fits(Tokens(s, 1, 0), 1, |s|) && Escapes(Tokens(s, 1, 0)) == Gains(Tokens(s, 1, 0)) > 0
  {
    AllTokens(s);
    var toks := Tokens(s, 1, 0);
    Account(s[0], toks);
    SomeEscape(toks);
    hide Tokens, Fits, Encode, Expand, ValidTokens, Gains, Escapes, HasEscape;
  }

  /** A caller can see it: the output has the length of the source, and is not the source. */
  lemma BreaksEvenShows(s: seq<byte>)
    ensures BreaksEven(s) <==> |Zip(s)| == |s| && Zip(s) != s
  {
    RoundTrip(s);
    if s != [] { AllTokens(s); }
    hide Tokens, Fits, Encode, Expand, ValidTokens;
  }

  lemma {:induction false} SomeEscape(toks: seq<Token>)
    ensures HasEscape(toks) <==> Escapes(toks) > 0
    decreases |toks|
  {
    if toks != [] {
      var init, last := toks[..|toks| - 1], |toks| - 1;
      SomeEscape(init);
      if HasEscape(init) {
        var k :| 0 <= k < |init| && IsEscape(init[k]);
        assert IsEscape(toks[k]);
      }
      if HasEscape(toks) && !IsEscape(toks[last]) {
        var k :| 0 <= k < |toks| && IsEscape(toks[k]);
        assert IsEscape(init[k]);
      }
    }
  }

  // ---------- in terms of the source ----------

  /** How many bytes of the range 0x10 to 0x17 the source has behind its first one. */
  function Specials(s: seq<byte>): (n: nat) {
    if |s| <= 1 then 0 else Specials(s[..|s| - 1]) + if Special(s[|s| - 1]) then 1 else 0
  }

  lemma {:induction false} SpecialsGrow(a: seq<byte>, b: seq<byte>)
    requires a <= b
    ensures Specials(a) <= Specials(b)
    decreases |b|
  {
    if a != b { SpecialsGrow(a, b[..|b| - 1]); }
  }

  lemma {:induction false} EscapesAreSpecials(first: byte, toks: seq<Token>)
    requires ValidTokens(first, toks)
    ensures Escapes(toks) <= Specials(Expand(first, toks))
    decreases |toks|
  {
    if toks != [] {
      var init, t := toks[..|toks| - 1], toks[|toks| - 1];
      EscapesAreSpecials(first, init);
      var x, y := Expand(first, init), Expand(first, toks);
      if t.Literal? { assert y[..|y| - 1] == x; }
      SpecialsGrow(x, y);
    }
  }

  /** The output exceeds the source by no more than the bytes that may need an escape; so it is never longer for a
      source that has none behind its first byte. */
  lemma LongerByEscapes(s: seq<byte>)
    ensures |Zip(s)| <= |s| + Specials(s)
  {
    if s != [] {
      AllTokens(s);
      Account(s[0], Tokens(s, 1, 0));
      EscapesAreSpecials(s[0], Tokens(s, 1, 0));
      hide Tokens, Fits, Encode, Expand, ValidTokens, Gains, Escapes, Specials;
    }
  }

  // ---------- in terms of the length ----------

  /** Whatever the source holds, the output is at most 11/8 of it: after escapes for half of the source have used up the
      allowed length, matches of four bytes can still be written, in three bytes each. */
  lemma LongestOutput(s: seq<byte>)
    ensures 8 * |Zip(s)| <= 11 * |s| + 2
  {
    if s != [] {
      ProgressStarts(s);
      LongestFrom(s, [], 1, 0, [s[0]]);
    }
  }

  lemma {:induction false} LongestFrom(s: seq<byte>, toks: seq<Token>, p: nat, base: nat, coded: seq<byte>)
    requires s != [] && Progress(s, toks, p, base, coded)
    ensures 8 * |Zip(s)| <= 11 * |s| + 2
    decreases |s| - p
  {
    if p == |s| {
      ProgressEnds(s, toks, base, coded);
      hide Zip;
    } else {
      var t, q, b := ProgressStep(s, toks, p, base, coded);
      hide Zip, Progress, Tokens, Fits;
      if t.Match? || |coded| + TokenLen(t) <= |s| + 1 {
        LongestFrom(s, toks + [t], q, b, coded + TokenBytes(t));
      } else {
        Overruns(s);
      }
    }
  }

  /** The output can be longer than the source: the bytes 1 and 0x10 take three. */
  lemma CanGrow()
    ensures Zip([1, 0x10]) == [1, 0x10, 0x10]
  {
    var s: seq<byte>, toks: seq<Token> := [1, 0x10], [Literal(0x10)];
    assert FindMatch(s, 1, 0) == NoMatch && Tokens(s, 2, 0) == [];
    assert Tokens(s, 1, 0) == toks;
    FitsStep(toks, toks[0], [], 1, 2);
    NoTokens(1);
    AppendEscape(1, []);
    assert [] + [Literal(0x10)] == toks;
    hide *;
    ZipIs(s, toks);
  }

  lemma ZipIs(s: seq<byte>, toks: seq<Token>)
    requires s != [] && Tokens(s, 1, 0) == toks && Fits(toks, 1, |s|)
    ensures ValidTokens(s[0], toks) && Zip(s) == Encode(s[0], toks)
  {
    AllTokens(s);
    hide Tokens, Encode, Fits;
  }
}
