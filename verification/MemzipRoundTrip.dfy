/** Exactly when memunzip undoes memzip. */
module MemzipRoundTrip {
  import opened Bytes
  import opened Lz
  import opened MemzipFormat
  import opened MemzipSpec

  ghost predicate HasEscape(toks: seq<Token>) {
    exists k :: 0 <= k < |toks| && IsEscape(toks[k])
  }

  /** The coded form fits, is exactly as long as the source, and yet contains an escape: the profit of the
      matches is eaten up by the escapes, totalgain is 0, and memunzip takes the coded string for a raw one. */
  ghost predicate BreaksEven(s: seq<byte>) {
    s != [] &&
    var toks := Tokens(s, 1, 0);
    AllTokens(s);
    Fits(toks, 1, |s|) && |Encode(s[0], toks)| == |s| && HasEscape(toks)
  }

  // ---------- the search never misses a run ----------

  lemma {:induction false} SearchKeeps(s: seq<byte>, p: nat, lo: nat, y: nat, best: Candidate)
    requires y <= p && p + 3 <= |s| && best.Found?
    ensures Search(s, p, lo, y, best).Found?
    decreases y
  {
    hide MatchLen, TokenGain, SameTriple;
    if y > lo {
      if SameTriple(s, y - 1, p) {
        SearchKeeps(s, p, lo, y - 1, Consider(s, y - 1, p, best));
      } else {
        SearchKeeps(s, p, lo, y - 1, best);
      }
    }
  }

  lemma RunIsFound(s: seq<byte>, p: nat, base: nat)
    requires base < p && p + 3 <= |s| && SameTriple(s, p - 1, p)
    ensures FindMatch(s, p, base).Found?
  {
    hide MatchLen, TokenGain, SameTriple, Stops;
    var b := Consider(s, p - 1, p, NoMatch);
    PositiveGain(MatchLen(s, p - 1, p, 3, Limit(s, p)));
    assert b.Found?;
    SearchKeeps(s, p, Oldest(p, base), p - 1, b);
  }

  lemma PositiveGain(len: nat)
    requires 3 <= len
    ensures TokenGain(len, 1) >= 1
  {
  }

  lemma LiteralBreaksRun(s: seq<byte>, toks: seq<Token>, p: nat, base: nat, all: seq<Token>, k: nat)
    requires 0 < p <= |s| && base < p
    requires ValidTokens(s[0], toks) && Expand(s[0], toks) == s[..p]
    requires all == toks + Tokens(s, p, base)
    requires |toks| <= k < |all| && all[k].Literal?
    ensures ValidTokens(s[0], all[..k])
    ensures var q := |Expand(s[0], all[..k])|; q + 3 <= |s| ==> !SameTriple(s, q - 1, q)
    decreases |s| - p
  {
    if p < |s| {
      var t, q, b := TokensStep(s, p, base);
      if k == |toks| {
        assert all[..k] == toks;
        if p + 3 <= |s| && SameTriple(s, p - 1, p) {
          RunIsFound(s, p, b);
        }
      } else {
        Append(s[0], toks, t);
        Regroup(toks, t, Tokens(s, q, b));
        LiteralBreaksRun(s, toks + [t], q, b, all, k);
      }
    }
  }

  // ---------- a coded string with an escape is not its own source ----------

  lemma MatchShrinks(t: Token)
    requires ValidToken(t) && t.Match?
    ensures TokenLen(t) < t.len
    ensures Special(TokenBytes(t)[0]) && TokenBytes(t)[0] != ESC
  {
  }

  ghost predicate EscapeFree(toks: seq<Token>) {
    forall k :: 0 <= k < |toks| ==> !IsEscape(toks[k])
  }

  /** Without escapes the coding never grows, and a byte in the special range can only be the first one again. */
  lemma {:induction false} NoEscape(first: byte, toks: seq<Token>)
    requires ValidTokens(first, toks) && EscapeFree(toks)
    ensures |Encode(first, toks)| <= |Expand(first, toks)|
    ensures forall i :: 0 <= i < |Expand(first, toks)| && Special(Expand(first, toks)[i])
              ==> Expand(first, toks)[i] == first
    ensures |Encode(first, toks)| == |Expand(first, toks)| ==>
              forall i :: 1 <= i < |Expand(first, toks)| ==> !Special(Expand(first, toks)[i])
    decreases |toks|
  {
    if toks != [] {
      var init, t := toks[..|toks| - 1], toks[|toks| - 1];
      NoEscape(first, init);
      if t.Match? {
        MatchShrinks(t);
        CopyKeeps(Expand(first, init), t.distance, t.len, first);
      }
    }
  }

  lemma {:induction false} CopyKeeps(out: seq<byte>, distance: nat, n: nat, first: byte)
    requires 1 <= distance <= |out|
    requires forall i :: 0 <= i < |out| && Special(out[i]) ==> out[i] == first
    ensures forall i :: 0 <= i < |out| + n && Special(Copy(out, distance, n)[i]) ==> Copy(out, distance, n)[i] == first
    decreases n
  {
    if n > 0 {
      CopyKeeps(out + [out[|out| - distance]], distance, n - 1, first);
    }
  }

  /** If the coding is a prefix of its expansion and something was saved, the first byte is a match flag. */
  lemma {:induction false} SavedMeansFlagFirst(first: byte, toks: seq<Token>)
    requires ValidTokens(first, toks) && EscapeFree(toks)
    requires Encode(first, toks) <= Expand(first, toks)
    requires |Encode(first, toks)| < |Expand(first, toks)|
    ensures Special(first) && first != ESC
    decreases |toks|
  {
    var init, t := toks[..|toks| - 1], toks[|toks| - 1];
    NoEscape(first, init);
    NoEscape(first, toks);
    var c0, x0 := Encode(first, init), Expand(first, init);
    var c, x := Encode(first, toks), Expand(first, toks);
    assert c0 <= c && x0 <= x;
    if |c0| < |x0| {
      assert c0 <= x0;
      SavedMeansFlagFirst(first, init);
    } else {
      assert t.Match?;
      MatchShrinks(t);
      assert c[|c0|] == TokenBytes(t)[0];
    }
  }

  lemma FirstEscape(toks: seq<Token>) returns (k: nat)
    requires HasEscape(toks)
    ensures k < |toks| && IsEscape(toks[k]) && EscapeFree(toks[..k])
  {
    k := 0;
    while !IsEscape(toks[k])
      invariant k < |toks| && EscapeFree(toks[..k])
      invariant exists j :: k <= j < |toks| && IsEscape(toks[j])
      decreases |toks| - k
    {
      k := k + 1;
    }
  }

  lemma SourceAtToken(s: seq<byte>, toks: seq<Token>, k: nat)
    requires s != [] && ValidTokens(s[0], toks) && k < |toks| && Expand(s[0], toks) == s
    ensures ValidTokens(s[0], toks[..k]) && Expand(s[0], toks[..k]) <= s
    ensures |Expand(s[0], toks[..k])| < |s|
    ensures toks[k].Literal? ==> s[|Expand(s[0], toks[..k])|] == toks[k].b
    ensures toks[k].Match? ==> Repeats(s, |Expand(s[0], toks[..k])|, toks[k].len, toks[k].distance)
  {
    hide TokenBytes;
    EncodedTokenAt(s[0], toks, k);
    var x := Expand(s[0], toks[..k]);
    var y := Apply(x, toks[k]);
    if toks[k].Match? {
      forall i | |x| <= i < |x| + toks[k].len ensures s[i] == s[i - toks[k].distance] {
        assert y[i] == y[i - toks[k].distance];
      }
    } else {
      assert y[|x|] == toks[k].b;
    }
  }

  lemma CodeAtToken(first: byte, toks: seq<Token>, k: nat, s: seq<byte>)
    requires ValidTokens(first, toks) && k < |toks| && Encode(first, toks) == s
    ensures ValidTokens(first, toks[..k]) && ValidToken(toks[k]) && Encode(first, toks[..k]) <= s
    ensures |Encode(first, toks[..k])| + TokenLen(toks[k]) <= |s|
    ensures s[|Encode(first, toks[..k])|] == TokenBytes(toks[k])[0]
    ensures IsEscape(toks[k]) ==> s[|Encode(first, toks[..k])| + 1] == toks[k].b
  {
    hide ValidTokens, Expand, Encode;
    EncodedTokenAt(first, toks, k);
    var q, w := |Encode(first, toks[..k])|, TokenBytes(toks[k]);
    var piece := s[q..q + |w|];
    assert s[q] == piece[0];
    assert |w| > 1 ==> s[q + 1] == piece[1];
  }

  lemma BreaksRunAt(s: seq<byte>, k: nat)
    requires s != [] && k < |Tokens(s, 1, 0)| && Tokens(s, 1, 0)[k].Literal?
    ensures ValidTokens(s[0], Tokens(s, 1, 0)[..k])
    ensures var q := |Expand(s[0], Tokens(s, 1, 0)[..k])|; q + 3 <= |s| ==> !SameTriple(s, q - 1, q)
  {
    var e: seq<Token> := [];
    assert s[..1] == [s[0]];
    LiteralBreaksRun(s, e, 1, 0, Tokens(s, 1, 0), k);
  }

  lemma NoMatchAfterEscape(s: seq<byte>, p: nat, t: Token)
    requires ValidToken(t) && t.Match? && Repeats(s, p + 1, t.len, t.distance)
    requires 0 < p && s[p] == ESC && s[p + 1] == ESC
    requires forall i :: 1 <= i < p ==> !Special(s[i])
    ensures s[p + 2] != TokenBytes(t)[0]
  {
    MatchShrinks(t);
    assert s[p + 2] == s[p + 2 - t.distance];
  }

  lemma NoLiteralAfterEscape(s: seq<byte>, k: nat, p: nat)
    requires s != [] && k < |Tokens(s, 1, 0)| && Tokens(s, 1, 0)[k].Literal?
    requires ValidTokens(s[0], Tokens(s, 1, 0)[..k]) && |Expand(s[0], Tokens(s, 1, 0)[..k])| == p + 1
    requires p + 4 <= |s| && s[p] == ESC && s[p + 2] == ESC && s[p + 3] == ESC
    ensures s[p + 1] != ESC
  {
    BreaksRunAt(s, k);
  }

  /** The token after a first escape that stands at the same place p in the source and in the coded string. */
  lemma AfterFirstEscape(s: seq<byte>, toks: seq<Token>, k: nat, p: nat)
    requires s != [] && toks == Tokens(s, 1, 0) && ValidTokens(s[0], toks)
    requires Expand(s[0], toks) == s && Encode(s[0], toks) == s
    requires k < |toks| && ValidTokens(s[0], toks[..k])
    requires |Expand(s[0], toks[..k])| == p + 1 && |Encode(s[0], toks[..k])| == p + 2
    requires 0 < p && p + 1 < |s| && s[p] == ESC
    requires forall i :: 1 <= i < p ==> !Special(s[i])
    ensures s[p + 1] != ESC
  {
    SourceAtToken(s, toks, k);
    CodeAtToken(s[0], toks, k, s);
    if s[p + 1] == ESC {
      if toks[k].Match? {
        NoMatchAfterEscape(s, p, toks[k]);
      } else {
        NoLiteralAfterEscape(s, k, p);
      }
    }
  }

  /** A first escape cannot come after the coding has saved something. */
  lemma NothingSavedYet(s: seq<byte>, toks: seq<Token>)
    requires s != [] && ValidTokens(s[0], toks) && EscapeFree(toks)
    requires Expand(s[0], toks) <= s && Encode(s[0], toks) <= s
    requires |Encode(s[0], toks)| < |s| && s[|Encode(s[0], toks)|] == ESC
    ensures |Encode(s[0], toks)| == |Expand(s[0], toks)|
    ensures forall i :: 1 <= i < |Expand(s[0], toks)| ==> !Special(s[i])
  {
    var c, x := Encode(s[0], toks), Expand(s[0], toks);
    NoEscape(s[0], toks);
    if |c| < |x| {
      assert c <= x;
      assert x[|c|] == s[|c|];
      SavedMeansFlagFirst(s[0], toks);
    }
  }

  /** Where the first escape must stand if the coded string is the source: at the same place p in both. */
  lemma EscapePlace(s: seq<byte>, toks: seq<Token>, k: nat) returns (p: nat)
    requires s != [] && ValidTokens(s[0], toks) && Expand(s[0], toks) == s && Encode(s[0], toks) == s
    requires k < |toks| && IsEscape(toks[k]) && EscapeFree(toks[..k])
    ensures 0 < p && p + 1 < |s| && s[p] == ESC && s[p + 1] == ESC
    ensures forall i :: 1 <= i < p ==> !Special(s[i])
    ensures ValidTokens(s[0], toks[..k]) && |Expand(s[0], toks[..k])| == p == |Encode(s[0], toks[..k])|
  {
    hide Applicable, Apply, ValidTokens, Expand, Encode;
    CodeAtToken(s[0], toks, k, s);
    SourceAtToken(s, toks, k);
    p := |Encode(s[0], toks[..k])|;
    assert s[p] == ESC;
    NothingSavedYet(s, toks[..k]);
    assert s[p + 1] == toks[k].b == s[p];
  }

  lemma PastEscape(s: seq<byte>, toks: seq<Token>, k: nat, p: nat)
    requires s != [] && ValidTokens(s[0], toks) && Expand(s[0], toks) == s && Encode(s[0], toks) == s
    requires k < |toks| && IsEscape(toks[k]) && ValidTokens(s[0], toks[..k])
    requires |Expand(s[0], toks[..k])| == p == |Encode(s[0], toks[..k])|
    ensures k + 1 < |toks| && ValidTokens(s[0], toks[..k + 1])
    ensures |Expand(s[0], toks[..k + 1])| == p + 1 && |Encode(s[0], toks[..k + 1])| == p + 2
  {
    EncodedTokenAt(s[0], toks, k);
    var all := toks[..k + 1];
    assert k + 1 == |toks| ==> all == toks;
  }

  /** An escape makes the coded string differ from the source. */
  lemma EscapeShows(s: seq<byte>)
    requires s != [] && HasEscape(Tokens(s, 1, 0)) && ValidTokens(s[0], Tokens(s, 1, 0))
    ensures Encode(s[0], Tokens(s, 1, 0)) != s
  {
    var toks := Tokens(s, 1, 0);
    AllTokens(s);
    if Encode(s[0], toks) == s {
      var k := FirstEscape(toks);
      var p := EscapePlace(s, toks, k);
      PastEscape(s, toks, k, p);
      AfterFirstEscape(s, toks, k + 1, p);
    }
  }

  // ---------- main theorem ----------

  /** memunzip gives back the source exactly when the coding does not break even on an escape. */
  lemma RoundTrip(s: seq<byte>)
    ensures Unzip(Zip(s), |s|) == Unzipped(s) <==> !BreaksEven(s)
  {
    if s != [] {
      AllTokens(s);
      var toks := Tokens(s, 1, 0);
      if Fits(toks, 1, |s|) {
        if |Encode(s[0], toks)| != |s| {
          UnzipEncode(s[0], toks);
        } else if HasEscape(toks) {
          EscapeShows(s);
        } else {
          PlainIsItself(s, toks);
        }
      }
    }
  }

  /** Without escapes and without any saving the coded string is the source. */
  lemma {:induction false} PlainIsItself(s: seq<byte>, toks: seq<Token>)
    requires s != [] && ValidTokens(s[0], toks) && EscapeFree(toks)
    requires |Encode(s[0], toks)| == |Expand(s[0], toks)|
    ensures Encode(s[0], toks) == Expand(s[0], toks)
    decreases |toks|
  {
    if toks != [] {
      var init, t := toks[..|toks| - 1], toks[|toks| - 1];
      NoEscape(s[0], init);
      if t.Match? { MatchShrinks(t); }
      PlainIsItself(s, init);
    }
  }

  // ---------- the failing family is not empty, and a simple check avoids it ----------

  lemma {:induction false} LiteralsOccur(s: seq<byte>, p: nat, base: nat, k: nat)
    requires 0 < p <= |s| && base < p
    requires k < |Tokens(s, p, base)| && Tokens(s, p, base)[k].Literal?
    ensures exists i :: p <= i < |s| && s[i] == Tokens(s, p, base)[k].b
    decreases |s| - p
  {
    var t, q, b := TokensStep(s, p, base);
    hide Tokens;
    if k == 0 {
      assert s[p] == t.b;
    } else {
      LiteralsOccur(s, q, b, k - 1);
    }
  }

  /** A source with no byte of the range 0x10 to 0x17 behind its first one always comes back. */
  lemma PlainSourceRoundTrip(s: seq<byte>)
    requires forall i :: 1 <= i < |s| ==> !Special(s[i])
    ensures Unzip(Zip(s), |s|) == Unzipped(s)
  {
    RoundTrip(s);
    if BreaksEven(s) {
      var toks := Tokens(s, 1, 0);
      var k :| 0 <= k < |toks| && IsEscape(toks[k]);
      LiteralsOccur(s, 1, 0, k);
    }
  }

  /** "abcabc" and the byte 0x10: the match saves one byte, the escape costs one, and the round trip fails. */
  lemma BreakEvenExists()
    ensures BreaksEven([97, 98, 99, 97, 98, 99, 0x10])
    ensures Zip([97, 98, 99, 97, 98, 99, 0x10]) == [97, 98, 99, 0x12, 2, 0x10, 0x10]
    ensures Unzip(Zip([97, 98, 99, 97, 98, 99, 0x10]), 7) != Unzipped([97, 98, 99, 97, 98, 99, 0x10])
  {
    var s: seq<byte> := [97, 98, 99, 97, 98, 99, 0x10];
    var toks := [Literal(98), Literal(99), Match(3, 3), Literal(0x10)];
    TokensOfExample(s);
    AllTokens(s);
    EncodeFour(toks);
    FitsFour(toks);
    assert IsEscape(toks[3]);
    hide Tokens, Encode, Fits, Expand, ValidTokens, Unzip;
    RoundTrip(s);
  }

  lemma TokensOfExample(s: seq<byte>)
    requires s == [97, 98, 99, 97, 98, 99, 0x10]
    ensures Tokens(s, 1, 0) == [Literal(98), Literal(99), Match(3, 3), Literal(0x10)]
  {
    MatchesOfExample(s);
    hide FindMatch;
    assert Tokens(s, 7, 0) == [];
    assert Tokens(s, 6, 0) == [Literal(0x10)];
    assert Tokens(s, 3, 0) == [Match(3, 3), Literal(0x10)];
    assert Tokens(s, 2, 0) == [Literal(99), Match(3, 3), Literal(0x10)];
  }

  lemma MatchesOfExample(s: seq<byte>)
    requires s == [97, 98, 99, 97, 98, 99, 0x10]
    ensures FindMatch(s, 1, 0) == FindMatch(s, 2, 0) == FindMatch(s, 6, 0) == NoMatch
    ensures FindMatch(s, 3, 0) == Found(1, 3, 3)
  {
    assert Search(s, 2, 0, 1, NoMatch) == NoMatch;
    assert Search(s, 3, 0, 2, NoMatch) == Search(s, 3, 0, 1, NoMatch);
    assert MatchLen(s, 0, 3, 3, 4) == 3;
  }

  lemma EncodeFour(toks: seq<Token>)
    requires toks == [Literal(98), Literal(99), Match(3, 3), Literal(0x10)]
    ensures ValidTokens(97, toks) && Encode(97, toks) == [97, 98, 99, 0x12, 2, 0x10, 0x10]
  {
    var c: seq<Token> := [Literal(98), Literal(99), Match(3, 3)];
    EncodeThree(c);
    hide *;
    AppendEscape(97, c);
    assert c + [Literal(0x10)] == toks;
  }

  lemma EncodeThree(toks: seq<Token>)
    requires toks == [Literal(98), Literal(99), Match(3, 3)]
    ensures ValidTokens(97, toks) && Encode(97, toks) == [97, 98, 99, 0x12, 2]
  {
    var b: seq<Token> := [Literal(98), Literal(99)];
    EncodeTwo(b);
    hide *;
    AppendCopy(97, b);
    assert b + [Match(3, 3)] == toks;
  }

  lemma EncodeTwo(toks: seq<Token>)
    requires toks == [Literal(98), Literal(99)]
    ensures ValidTokens(97, toks) && Encode(97, toks) == Expand(97, toks) == [97, 98, 99]
  {
    assert !Special(98) && !Special(99);
    hide *;
    NoTokens(97);
    AppendLiteral(97, [], 98);
    assert [] + [Literal(98)] == [Literal(98)];
    AppendLiteral(97, [Literal(98)], 99);
    assert [Literal(98)] + [Literal(99)] == toks;
  }

  lemma NoTokens(first: byte)
    ensures ValidTokens(first, []) && Expand(first, []) == [first] && Encode(first, []) == [first]
  {
  }

  lemma AppendLiteral(first: byte, toks: seq<Token>, b: byte)
    requires ValidTokens(first, toks) && !Special(b)
    ensures ValidTokens(first, toks + [Literal(b)]) && Expand(first, toks + [Literal(b)]) == Expand(first, toks) + [b]
    ensures Encode(first, toks + [Literal(b)]) == Encode(first, toks) + [b]
  {
    Append(first, toks, Literal(b));
    hide Encode, Expand, ValidTokens;
  }

  lemma AppendCopy(first: byte, toks: seq<Token>)
    requires ValidTokens(first, toks) && Expand(first, toks) == [97, 98, 99]
    ensures ValidTokens(first, toks + [Match(3, 3)])
    ensures Encode(first, toks + [Match(3, 3)]) == Encode(first, toks) + [0x12, 2]
  {
    Append(first, toks, Match(3, 3));
    hide Encode, Expand, ValidTokens;
  }

  lemma AppendEscape(first: byte, toks: seq<Token>)
    requires ValidTokens(first, toks)
    ensures ValidTokens(first, toks + [Literal(0x10)])
    ensures Encode(first, toks + [Literal(0x10)]) == Encode(first, toks) + [0x10, 0x10]
  {
    Append(first, toks, Literal(0x10));
    hide Encode, Expand, ValidTokens;
  }

  lemma FitsFour(toks: seq<Token>)
    requires toks == [Literal(98), Literal(99), Match(3, 3), Literal(0x10)]
    ensures Fits(toks, 1, 7)
  {
    var t0, t1, t2, t3 := toks[0], toks[1], toks[2], toks[3];
    FitsStep([t3], t3, [], 5, 7);
    FitsStep([t2, t3], t2, [t3], 3, 7);
    FitsStep([t1, t2, t3], t1, [t2, t3], 2, 7);
    FitsStep(toks, t0, [t1, t2, t3], 1, 7);
  }
}
