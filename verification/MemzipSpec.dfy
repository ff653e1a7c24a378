/** What memzip computes, without its hash chains: an exhaustive backward search at every position. */
module MemzipSpec {
  import opened Bytes
  import opened Lz
  import opened MemzipFormat

  const SLIDE_AT := 32504   // a window position beyond this one makes the window slide
  const SLIDE := 16384

  datatype Candidate = NoMatch | Found(gain: int, len: nat, distance: nat)

  function GainOf(best: Candidate): int { if best.Found? then best.gain else -1 }

  /** Bytes saved by a match: its length less the length of its token. */
  function TokenGain(len: nat, distance: nat): int {
    if len == 3 then 1
    else len - 2 - (if distance > 192 then 1 else 0) - (if len > 8 then 1 else 0)
  }

  predicate SameTriple(s: seq<byte>, o: nat, p: nat)
    requires o <= p && p + 3 <= |s|
  {
    s[o] == s[p] && s[o + 1] == s[p + 1] && s[o + 2] == s[p + 2]
  }

  /** The longest match at p: to the end of s, or 264 bytes. */
  function Limit(s: seq<byte>, p: nat): int { Min(264, |s| - p) }

  /** The candidate at position o, considered against the best one so far. */
  function Consider(s: seq<byte>, o: nat, p: nat, best: Candidate): Candidate
    requires o < p && p + 3 <= |s| && SameTriple(s, o, p)
  {
    var len, d := MatchLen(s, o, p, 3, Limit(s, p)), p - o;
    if len == 3 && d > 256 then best
    else if TokenGain(len, d) > GainOf(best) then Found(TokenGain(len, d), len, d)
    else best
  }

  /** Whether the search ends with the candidate just accepted: long overlap, or the longest length. */
  predicate Stops(best: Candidate) {
    best.Found? && ((best.distance < best.len && best.gain > 20) || best.len > 263)
  }

  /** Looks at the positions y-1, y-2, ..., lo for the most profitable match of position p. */
  function Search(s: seq<byte>, p: nat, lo: nat, y: nat, best: Candidate): Candidate
    requires y <= p && p + 3 <= |s|
    decreases y
  {
    if y <= lo then best
    else if !SameTriple(s, y - 1, p) then Search(s, p, lo, y - 1, best)
    else
      var b := Consider(s, y - 1, p, best);
      if b != best && Stops(b) then b else Search(s, p, lo, y - 1, b)
  }

  /** The oldest position that a match at p may use. */
  function Oldest(p: nat, base: nat): nat {
    if p > base + MAX_DISTANCE then p - MAX_DISTANCE else base
  }

  function FindMatch(s: seq<byte>, p: nat, base: nat): Candidate
    requires base <= p <= |s|
  {
    if |s| - p < 3 then NoMatch else Search(s, p, Oldest(p, base), p, NoMatch)
  }

  ghost predicate Sound(s: seq<byte>, p: nat, best: Candidate) {
    best.Found? ==>
      best.gain == TokenGain(best.len, best.distance) &&
      ValidToken(Match(best.len, best.distance)) &&
      Repeats(s, p, best.len, best.distance)
  }

  lemma ConsiderSound(s: seq<byte>, o: nat, p: nat, best: Candidate)
    requires o < p && p + 3 <= |s| && SameTriple(s, o, p) && p - o <= MAX_DISTANCE
    requires Sound(s, p, best)
    ensures Sound(s, p, Consider(s, o, p, best))
  {
    hide MatchLen, TokenGain;
  }

  lemma {:induction false} SearchSound(s: seq<byte>, p: nat, lo: nat, y: nat, best: Candidate)
    requires y <= p && p + 3 <= |s| && p - lo <= MAX_DISTANCE
    requires Sound(s, p, best)
    ensures Sound(s, p, Search(s, p, lo, y, best))
    decreases y
  {
    hide Sound, Consider, Stops, SameTriple;
    if y > lo {
      if !SameTriple(s, y - 1, p) {
        SearchSound(s, p, lo, y - 1, best);
      } else {
        var b := Consider(s, y - 1, p, best);
        ConsiderSound(s, y - 1, p, best);
        SearchSound(s, p, lo, y - 1, b);
      }
    }
  }

  lemma FindMatchSound(s: seq<byte>, p: nat, base: nat)
    requires base <= p <= |s|
    ensures Sound(s, p, FindMatch(s, p, base))
  {
    if |s| - p >= 3 { SearchSound(s, p, Oldest(p, base), p, NoMatch); }
  }

  function Slide(p: nat, base: nat): nat {
    if p - base > SLIDE_AT then base + SLIDE else base
  }

  function TokenAt(s: seq<byte>, p: nat, base: nat): (t: Token)
    requires base <= p < |s|
  {
    match FindMatch(s, p, base)
    case Found(_, len, distance) => Match(len, distance)
    case NoMatch => Literal(s[p])
  }

  function TokenSpan(t: Token): (n: nat) { if t.Match? then t.len else 1 }

  lemma TokenAtSound(s: seq<byte>, p: nat, base: nat)
    requires base <= p < |s| && 0 < p
    ensures Applicable(s[..p], TokenAt(s, p, base))
    ensures p + TokenSpan(TokenAt(s, p, base)) <= |s|
    ensures 0 < TokenSpan(TokenAt(s, p, base))
    ensures Apply(s[..p], TokenAt(s, p, base)) == s[..p + TokenSpan(TokenAt(s, p, base))]
  {
    var best, t := FindMatch(s, p, base), TokenAt(s, p, base);
    FindMatchSound(s, p, base);
    hide FindMatch;
    if best.Found? {
      CopyOf(s, p, best.distance, best.len);
    }
  }

  /** The tokens for s[p..], found with the window starting at `base`. */
  function Tokens(s: seq<byte>, p: nat, base: nat): seq<Token>
    requires 0 < p <= |s| && base < p
    decreases |s| - p
  {
    if p == |s| then []
    else
      var b := Slide(p, base);
      var t := TokenAt(s, p, b);
      TokenAtSound(s, p, b);
      [t] + Tokens(s, p + TokenSpan(t), b)
  }

  /** Whether every literal leaves the output position at most one past the source length. */
  predicate Fits(toks: seq<Token>, at: nat, n: nat) {
    toks != [] ==>
      (toks[0].Literal? ==> at + TokenLen(toks[0]) <= n + 1) && Fits(toks[1..], at + TokenLen(toks[0]), n)
  }

  lemma TokensStep(s: seq<byte>, p: nat, base: nat) returns (t: Token, q: nat, b: nat)
    requires 0 < p < |s| && base < p
    ensures p < q <= |s| && b == Slide(p, base) < p && t == TokenAt(s, p, b) && q == p + TokenSpan(t)
    ensures Applicable(s[..p], t) && Apply(s[..p], t) == s[..q]
    ensures Tokens(s, p, base) == [t] + Tokens(s, q, b)
  {
    b := Slide(p, base);
    t := TokenAt(s, p, b);
    TokenAtSound(s, p, b);
    q := p + TokenSpan(t);
  }

  /** Tokens already valid for s[..p], followed by the tokens for the rest, are valid for all of s. */
  lemma {:induction false} TokensValid(s: seq<byte>, toks: seq<Token>, p: nat, base: nat, all: seq<Token>)
    requires 0 < p <= |s| && base < p
    requires ValidTokens(s[0], toks) && Expand(s[0], toks) == s[..p]
    requires all == toks + Tokens(s, p, base)
    ensures ValidTokens(s[0], all) && Expand(s[0], all) == s
    decreases |s| - p
  {
    if p == |s| {
      assert s[..p] == s;
      assert all == toks;
    } else {
      var t, q, b := TokensStep(s, p, base);
      Append(s[0], toks, t);
      Regroup(toks, t, Tokens(s, q, b));
      TokensValid(s, toks + [t], q, b, all);
    }
  }

  lemma AllTokens(s: seq<byte>)
    requires s != []
    ensures ValidTokens(s[0], Tokens(s, 1, 0))
    ensures Expand(s[0], Tokens(s, 1, 0)) == s
  {
    var e: seq<Token> := [];
    assert s[..1] == [s[0]];
    TokensValid(s, e, 1, 0, Tokens(s, 1, 0));
  }

  /** The string memzip leaves in `dest` for the source s. */
  function Zip(s: seq<byte>): (r: seq<byte>) {
    if s == [] then []
    else
      AllTokens(s);
      if Fits(Tokens(s, 1, 0), 1, |s|) then Encode(s[0], Tokens(s, 1, 0)) else s
  }

  // ---------- the compressor's loop, token by token ----------

  /** How far the output can have got at source position p: an escape doubles a byte, a literal is written only up to one
      past the source length, and a match takes at most three quarters of what it stands for. */
  predicate InBounds(c: nat, p: nat, n: nat) { c <= 2 * p - 1 && 8 * c <= 6 * p + 5 * n + 2 }

  lemma InBoundsStep(c: nat, p: nat, n: nat, t: Token)
    requires InBounds(c, p, n) && ValidToken(t) && (t.Literal? ==> c + TokenLen(t) <= n + 1)
    ensures InBounds(c + TokenLen(t), p + TokenSpan(t), n)
  {
  }

  /** After the tokens `toks` the compressor stands at source position p and has written `coded`. */
  ghost predicate Progress(s: seq<byte>, toks: seq<Token>, p: nat, base: nat, coded: seq<byte>) {
    0 < p <= |s| && base < p && InBounds(|coded|, p, |s|) &&
    ValidTokens(s[0], toks) && Expand(s[0], toks) == s[..p] && coded == Encode(s[0], toks) &&
    Tokens(s, 1, 0) == toks + Tokens(s, p, base) &&
    Fits(Tokens(s, 1, 0), 1, |s|) == Fits(Tokens(s, p, base), |coded|, |s|)
  }

  lemma ProgressStarts(s: seq<byte>)
    requires s != []
    ensures Progress(s, [], 1, 0, [s[0]])
  {
    var e: seq<Token> := [];
    assert s[..1] == [s[0]];
    assert Tokens(s, 1, 0) == e + Tokens(s, 1, 0);
  }

  lemma ProgressStep(s: seq<byte>, toks: seq<Token>, p: nat, base: nat, coded: seq<byte>)
    returns (t: Token, q: nat, b: nat)
    requires Progress(s, toks, p, base, coded) && p < |s|
    ensures b == Slide(p, base) < p < q <= |s| && t == TokenAt(s, p, b) && q == p + TokenSpan(t) && ValidToken(t)
    ensures (t.Match? || |coded| + TokenLen(t) <= |s| + 1) ==> Progress(s, toks + [t], q, b, coded + TokenBytes(t))
    ensures (t.Match? || |coded| + TokenLen(t) <= |s| + 1) ==> 8 * (|coded| + TokenLen(t)) <= 11 * |s| + 2
    ensures t.Literal? && |coded| + TokenLen(t) > |s| + 1 ==> !Fits(Tokens(s, 1, 0), 1, |s|)
  {
    hide Tokens, TokenAt, TokenBytes, Slide, Fits, ValidTokens, Expand, Encode, TokenLen, Apply;
    t, q, b := TokensStep(s, p, base);
    var rest := Tokens(s, q, b);
    Append(s[0], toks, t);
    Regroup(toks, t, rest);
    FitsStep(Tokens(s, p, base), t, rest, |coded|, |s|);
    if t.Match? || |coded| + TokenLen(t) <= |s| + 1 { InBoundsStep(|coded|, p, |s|, t); }
  }

  lemma FitsStep(toks: seq<Token>, t: Token, rest: seq<Token>, at: nat, n: nat)
    requires toks == [t] + rest
    ensures Fits(toks, at, n)
        == ((t.Literal? ==> at + TokenLen(t) <= n + 1) && Fits(rest, at + TokenLen(t), n))
  {
    assert toks[1..] == rest;
  }

  lemma ProgressEnds(s: seq<byte>, toks: seq<Token>, base: nat, coded: seq<byte>)
    requires Progress(s, toks, |s|, base, coded)
    ensures Zip(s) == coded
  {
    assert toks + Tokens(s, |s|, base) == toks;
  }

  lemma Overruns(s: seq<byte>)
    requires s != [] && !Fits(Tokens(s, 1, 0), 1, |s|)
    ensures Zip(s) == s
  {
  }

  /** The profit of a match is what its token saves. */
  lemma GainIsSaving(len: nat, distance: nat)
    requires ValidToken(Match(len, distance))
    ensures TokenGain(len, distance) == len - TokenLen(Match(len, distance)) >= 1
  {
  }
}
