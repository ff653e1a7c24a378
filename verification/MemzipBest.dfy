/** What the search of memzip finds: the most profitable match of the window. */
module MemzipBest {
  import opened Bytes
  import opened Lz
  import opened MemzipFormat
  import opened MemzipSpec

  /** At o the window has a match of p that has a token: its bytes agree for len bytes, and no further or to the limit. */
  ghost predicate Offers(s: seq<byte>, p: nat, o: nat, len: nat) {
    o < p && p + len <= |s| && 3 <= len <= 264 && Repeats(s, p, len, p - o) &&
    (len == 264 || p + len == |s| || s[o + len] != s[p + len]) && ValidToken(Match(len, p - o))
  }

  /** What its token saves. */
  function Saving(len: nat, distance: nat): int { len - TokenLen(Match(len, distance)) }

  /** A match that ends the search: it overlaps itself and saves more than 20 bytes, or it has the greatest length. */
  predicate Ends(len: nat, distance: nat) { (distance < len && Saving(len, distance) > 20) || len == 264 }

  /** The candidate is the most profitable one from lo on: it saves more than every nearer one, and at least as much as every
      one farther back, unless the search ends with it. */
  ghost predicate MostProfitable(s: seq<byte>, p: nat, lo: nat, best: Candidate) {
    match best
    case NoMatch => forall o, len :: lo <= o < p ==> !Offers(s, p, o, len)
    case Found(gain, n, d) =>
      lo <= p - d && d <= p && Offers(s, p, p - d, n) && gain == Saving(n, d) &&
      forall o, len :: lo <= o < p && Offers(s, p, o, len) ==>
        if o > p - d then Saving(len, p - o) < gain else Saving(len, p - o) <= gain || Ends(n, d)
  }

  // ---------- one candidate ----------

  lemma OfferAgrees(s: seq<byte>, p: nat, o: nat, len: nat)
    requires o < p && p + 3 <= |s| && Offers(s, p, o, len)
    ensures SameTriple(s, o, p)
  {
    assert s[p] == s[p - (p - o)] && s[p + 1] == s[p + 1 - (p - o)] && s[p + 2] == s[p + 2 - (p - o)];
  }

  /** The match found at a position, if it has a token, is what the position offers. */
  lemma TheOffer(s: seq<byte>, p: nat, o: nat, len: nat)
    requires o < p && p + 3 <= |s| && SameTriple(s, o, p) && p - o <= MAX_DISTANCE
    requires len == MatchLen(s, o, p, 3, Limit(s, p))
    ensures Offers(s, p, o, len) <==> (len == 3 ==> p - o <= 256)
    ensures (len == 3 ==> p - o <= 256) ==> Saving(len, p - o) == TokenGain(len, p - o)
    ensures forall n :: Offers(s, p, o, n) ==> n == len
  {
    hide *;
    Longest(s, p, o, len);
    if len == 3 ==> p - o <= 256 { SavingIs(len, p - o); }
    forall n | Offers(s, p, o, n) ensures n == len { OneOffer(s, p, o, n); }
  }

  lemma Longest(s: seq<byte>, p: nat, o: nat, len: nat)
    requires o < p && p + 3 <= |s| && SameTriple(s, o, p) && p - o <= MAX_DISTANCE
    requires len == MatchLen(s, o, p, 3, Limit(s, p))
    ensures 3 <= len && (Offers(s, p, o, len) <==> (len == 3 ==> p - o <= 256))
  {
    hide MatchLen;
    IsOffer(s, p, o, len);
    hide Offers;
  }

  lemma SavingIs(len: nat, d: nat)
    requires len >= 3 && (len == 3 ==> d <= 256)
    ensures Saving(len, d) == TokenGain(len, d)
  {
  }

  lemma IsOffer(s: seq<byte>, p: nat, o: nat, len: nat)
    requires o < p && p + 3 <= |s| && p - o <= MAX_DISTANCE && 3 <= len <= Limit(s, p) && Repeats(s, p, len, p - o)
    requires len == Limit(s, p) || s[o + len] != s[p + len]
    ensures Offers(s, p, o, len) <==> (len == 3 ==> p - o <= 256)
  {
    hide Repeats;
  }

  lemma OneOffer(s: seq<byte>, p: nat, o: nat, n: nat)
    requires o < p && p + 3 <= |s| && SameTriple(s, o, p) && Offers(s, p, o, n)
    ensures n == MatchLen(s, o, p, 3, Limit(s, p))
  {
    MatchLenIs(s, o, p, 3, Limit(s, p), n);
    hide MatchLen;
  }

  /** The search so far, and not ended. */
  ghost predicate SoFar(s: seq<byte>, p: nat, y: nat, best: Candidate) {
    MostProfitable(s, p, y, best) && (best.Found? ==> !Ends(best.len, best.distance))
  }

  lemma Passed(s: seq<byte>, p: nat, o: nat, best: Candidate)
    requires o < p && SoFar(s, p, o + 1, best)
    requires forall len :: Offers(s, p, o, len) ==> best.Found? && Saving(len, p - o) <= best.gain
    ensures SoFar(s, p, o, best)
  {
    hide Offers, Saving, Ends;
  }

  lemma Taken(s: seq<byte>, p: nat, o: nat, n: nat, best: Candidate)
    requires o < p && SoFar(s, p, o + 1, best) && Offers(s, p, o, n)
    requires best.Found? ==> Saving(n, p - o) > best.gain
    requires forall len :: Offers(s, p, o, len) ==> len == n
    ensures MostProfitable(s, p, o, Found(Saving(n, p - o), n, p - o))
  {
    hide Offers, Saving, Ends;
  }

  lemma Ended(s: seq<byte>, p: nat, lo: nat, y: nat, best: Candidate)
    requires lo <= y && MostProfitable(s, p, y, best) && best.Found? && Ends(best.len, best.distance)
    ensures MostProfitable(s, p, lo, best)
  {
    hide Offers, Saving, Ends;
  }

  lemma EndsIsStops(n: nat, d: nat)
    requires n <= 264
    ensures Stops(Found(Saving(n, d), n, d)) <==> Ends(n, d)
  {
  }

  // ---------- the search ----------

  lemma {:induction false} SearchBest(s: seq<byte>, p: nat, lo: nat, y: nat, best: Candidate)
    requires lo <= y <= p && p + 3 <= |s| && p - lo <= MAX_DISTANCE && SoFar(s, p, y, best)
    ensures MostProfitable(s, p, lo, Search(s, p, lo, y, best))
    decreases y
  {
    hide *;
    Unfold(s, p, lo, y, best);
    if y > lo {
      var o: nat := y - 1;
      if !SameTriple(s, o, p) {
        forall len ensures !Offers(s, p, o, len) { NoTriple(s, p, o, len); }
        Passed(s, p, o, best);
        SearchBest(s, p, lo, o, best);
      } else {
        var b := Consider(s, o, p, best);
        StepBest(s, p, lo, o, best, b);
        if !(b != best && Stops(b)) { SearchBest(s, p, lo, o, b); }
      }
    } else {
      Unpack(s, p, y, best);
    }
  }

  lemma Unfold(s: seq<byte>, p: nat, lo: nat, y: nat, best: Candidate)
    requires y <= p && p + 3 <= |s|
    ensures Search(s, p, lo, y, best) ==
              if y <= lo then best
              else if !SameTriple(s, y - 1, p) then Search(s, p, lo, y - 1, best)
              else
                var b := Consider(s, y - 1, p, best);
                if b != best && Stops(b) then b else Search(s, p, lo, y - 1, b)
  {
  }

  lemma Unpack(s: seq<byte>, p: nat, y: nat, best: Candidate)
    requires SoFar(s, p, y, best)
    ensures MostProfitable(s, p, y, best)
  {
  }

  lemma NoTriple(s: seq<byte>, p: nat, o: nat, len: nat)
    requires o < p && p + 3 <= |s|
    ensures Offers(s, p, o, len) ==> SameTriple(s, o, p)
  {
    if Offers(s, p, o, len) { OfferAgrees(s, p, o, len); }
  }

  lemma StepBest(s: seq<byte>, p: nat, lo: nat, o: nat, best: Candidate, b: Candidate)
    requires lo <= o < p && p + 3 <= |s| && p - o <= MAX_DISTANCE && SoFar(s, p, o + 1, best)
    requires SameTriple(s, o, p) && b == Consider(s, o, p, best)
    ensures if b != best && Stops(b) then MostProfitable(s, p, lo, b) else SoFar(s, p, o, b)
  {
    var n := MatchLen(s, o, p, 3, Limit(s, p));
    hide *;
    TheOffer(s, p, o, n);
    ConsiderIs(s, p, o, best);
    if Offers(s, p, o, n) && (best.Found? ==> Saving(n, p - o) > best.gain) {
      Taken(s, p, o, n, best);
      OfferShort(s, p, o, n);
      EndsIsStops(n, p - o);
      if Ends(n, p - o) { Ended(s, p, lo, o, b); } else { OnFrom(s, p, o, b); }
    } else {
      Passed(s, p, o, best);
    }
  }

  lemma OfferShort(s: seq<byte>, p: nat, o: nat, len: nat)
    requires Offers(s, p, o, len)
    ensures len <= 264
  {
  }

  lemma OnFrom(s: seq<byte>, p: nat, o: nat, best: Candidate)
    requires MostProfitable(s, p, o, best) && best.Found? && !Ends(best.len, best.distance)
    ensures SoFar(s, p, o, best)
  {
    hide MostProfitable, Ends;
  }

  /** What considering a position does, in terms of what it offers. */
  lemma ConsiderIs(s: seq<byte>, p: nat, o: nat, best: Candidate)
    requires o < p && p + 3 <= |s| && SameTriple(s, o, p) && p - o <= MAX_DISTANCE
    ensures var len := MatchLen(s, o, p, 3, Limit(s, p));
            Consider(s, o, p, best) ==
              if Offers(s, p, o, len) && (best.Found? ==> Saving(len, p - o) > best.gain)
              then Found(Saving(len, p - o), len, p - o) else best
  {
    TheOffer(s, p, o, MatchLen(s, o, p, 3, Limit(s, p)));
    hide MatchLen, Offers, SameTriple, Saving;
  }

  /** The match that memzip takes at a position is the most profitable one of the last 16576 bytes, as far as the window
      reaches; and it takes none exactly if no position there has a match with a token. */
  lemma FindsBest(s: seq<byte>, p: nat, base: nat)
    requires base <= p <= |s|
    ensures MostProfitable(s, p, if p - base > 16576 then p - 16576 else base, FindMatch(s, p, base))
  {
    if |s| - p >= 3 {
      assert SoFar(s, p, p, NoMatch);
      hide SoFar, MostProfitable, Search;
      SearchBest(s, p, Oldest(p, base), p, NoMatch);
    }
  }

  lemma NoneExactly(s: seq<byte>, p: nat, base: nat)
    requires base <= p <= |s|
    ensures FindMatch(s, p, base).NoMatch? <==>
              forall o, len :: (if p - base > 16576 then p - 16576 else base) <= o < p ==> !Offers(s, p, o, len)
  {
    FindsBest(s, p, base);
    hide FindMatch, Offers;
  }
}
