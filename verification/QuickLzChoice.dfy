/** Which tokens a QuickLZ compressor sends, in terms of the source alone, and when it gives up. */
module QuickLzChoice {
  import opened Bytes
  import opened Lz
  import opened QuickLzWord
  import opened QuickLzFormat

  // ---------- a match ----------

  /** The bytes at p repeat those at o for len bytes, and no further, or to the greatest length: 255, or four bytes before
      the end. */
  ghost predicate LongMatch(s: seq<byte>, o: nat, p: nat, len: nat) {
    o < p && 3 <= len <= 255 && p + len + 4 <= |s| && Repeats(s, p, len, p - o) &&
    (len == 255 || p + len + 4 == |s| || s[o + len] != s[p + len])
  }

  lemma OneLength(s: seq<byte>, o: nat, p: nat, len: nat, len': nat)
    requires LongMatch(s, o, p, len) && LongMatch(s, o, p, len')
    ensures len == len'
  {
    var limit := Min(255, |s| - 4 - p);
    MatchLenIs(s, o, p, 0, limit, len);
    MatchLenIs(s, o, p, 0, limit, len');
  }

  /** How long a match at p may be. */
  function Remaining(n: nat, src: nat): (r: nat)
    requires src + 11 <= n
    ensures 7 <= r <= 255 && src + r + UNCOMPRESSED_END <= n
  {
    if n - UNCOMPRESSED_END - src > 255 then 255 else n - UNCOMPRESSED_END - src
  }

  lemma LongestIs(s: seq<byte>, o: nat, p: nat, len: nat)
    requires p + 11 <= |s| && o < p && 3 <= len <= Remaining(|s|, p) && Repeats(s, p, len, p - o)
    requires len == Remaining(|s|, p) || s[o + len] != s[p + len]
    ensures LongMatch(s, o, p, len)
  {
  }

  // ---------- level 3 ----------

  /** How many positions below p have the hash h. */
  function Count(s: seq<byte>, h: nat, p: nat): (n: nat)
    requires p == 0 || p + 2 <= |s|
  {
    if p == 0 then 0 else Count(s, h, p - 1) + if Key(s, p - 1) == h then 1 else 0
  }

  /** q is one of the last 16 positions below p with the hash h. */
  ghost predicate Recorded(s: seq<byte>, h: nat, p: nat, q: nat)
    requires p + 2 <= |s|
  {
    q < p && Key(s, q) == h && Count(s, h, p) - Count(s, h, q) <= 16
  }

  /** The compressor sees q from p: it is recorded under the hash of p, and its place in the row of 16 is in use, the
      number of places in use being counted in a byte. */
  ghost predicate Seen3(s: seq<byte>, p: nat, q: nat)
    requires p + 2 < |s|
  {
    var h := Key(s, p);
    Recorded(s, h, p, q) && Count(s, h, q) % 16 < Count(s, h, p) % 256
  }

  ghost predicate Offered(s: seq<byte>, p: nat, q: nat, len: nat) {
    p + 2 < |s| && Seen3(s, p, q) && p - q > 2 && LongMatch(s, q, p, len)
  }

  ghost predicate NoneBetter(s: seq<byte>, p: nat, q: nat, len: nat) {
    forall r: nat, m: nat :: Offered(s, p, r, m) ==> m < len || (m == len && r <= q)
  }

  /** The longest match, and of equally long ones the nearest. */
  ghost predicate BestOffer(s: seq<byte>, p: nat, q: nat, len: nat) {
    NoneBetter(s, p, q, len) && Offered(s, p, q, len)
  }

  ghost predicate Picked3(s: seq<byte>, p: nat, t: Token)
    requires p + 11 <= |s|
  {
    match t
    case Match(len, offset) => offset <= p && offset < 131071 && BestOffer(s, p, p - offset, len)
    case Lit(b) => b == s[p] && forall q: nat, len: nat :: BestOffer(s, p, q, len) ==> p - q >= 131071
  }

  lemma OneBest(s: seq<byte>, p: nat, q: nat, len: nat, q': nat, len': nat)
    requires BestOffer(s, p, q, len) && BestOffer(s, p, q', len')
    ensures q == q' && len == len'
  {
    hide Offered;
  }

  lemma Picked3Only(s: seq<byte>, p: nat, t: Token, t': Token)
    requires p + 11 <= |s| && Picked3(s, p, t) && Picked3(s, p, t')
    ensures t == t'
  {
    hide Offered;
  }

  // ---------- level 1 ----------

  /** The latest token start before p with the hash of p. */
  ghost predicate LatestStart(s: seq<byte>, starts: set<nat>, p: nat, o: nat)
    requires p + 2 < |s|
  {
    o in starts && o < p && Key(s, o) == Key(s, p) && forall q :: q in starts && o < q < p ==> Key(s, q) != Key(s, p)
  }

  /** A match may be made of it: more than two back, or one back inside a run of six equal bytes, three of them literals
      before it. */
  ghost predicate Offered1(s: seq<byte>, starts: set<nat>, lits: nat, p: nat, o: nat, len: nat)
    requires p + 11 <= |s|
  {
    LatestStart(s, starts, p, o) && LongMatch(s, o, p, len) &&
    (p - o > 2 || (p == o + 1 && lits >= 3 && p > 3 && forall k :: p - 3 <= k < p + 3 ==> s[k] == s[p]))
  }

  /** The token of a match made of o: in the run of one byte the decoder takes it from three back. */
  ghost predicate Picked1(s: seq<byte>, starts: set<nat>, lits: nat, p: nat, t: Token)
    requires p + 11 <= |s|
  {
    match t
    case Match(len, offset) =>
      exists o: nat :: Offered1(s, starts, lits, p, o, len) && offset == if p - o > 2 then p - o else 3
    case Lit(b) => b == s[p] && forall o: nat, len: nat :: !Offered1(s, starts, lits, p, o, len)
  }

  lemma OneOffer1(s: seq<byte>, starts: set<nat>, lits: nat, p: nat, o: nat, len: nat, o': nat, len': nat)
    requires p + 11 <= |s| && Offered1(s, starts, lits, p, o, len) && Offered1(s, starts, lits, p, o', len')
    ensures o == o' && len == len'
  {
    OneStart(s, starts, p, o, o');
    OneLength(s, o, p, len, len');
  }

  lemma OneStart(s: seq<byte>, starts: set<nat>, p: nat, o: nat, o': nat)
    requires p + 2 < |s| && LatestStart(s, starts, p, o) && LatestStart(s, starts, p, o')
    ensures o == o'
  {
    hide Key;
  }

  lemma Picked1Only(s: seq<byte>, starts: set<nat>, lits: nat, p: nat, t: Token, t': Token)
    requires p + 11 <= |s| && Picked1(s, starts, lits, p, t) && Picked1(s, starts, lits, p, t')
    ensures t == t'
  {
    hide Offered1;
    if t.Match? && t'.Match? {
      var o :| Offered1(s, starts, lits, p, o, t.len) && t.offset == if p - o > 2 then p - o else 3;
      var o' :| Offered1(s, starts, lits, p, o', t'.len) && t'.offset == if p - o' > 2 then p - o' else 3;
      OneOffer1(s, starts, lits, p, o, t.len, o', t'.len);
    }
  }

  // ---------- all tokens ----------

  /** How many bytes the tokens stand for. */
  function Pos(toks: seq<Token>): (p: nat) {
    if toks == [] then 0 else Pos(toks[..|toks| - 1]) + Span(toks[|toks| - 1])
  }

  function StartsOf(toks: seq<Token>): (starts: set<nat>) {
    if toks == [] then {} else StartsOf(toks[..|toks| - 1]) + {Pos(toks[..|toks| - 1])}
  }

  /** How many literals the tokens end with. */
  function LitsOf(toks: seq<Token>): (n: nat) {
    if toks == [] || toks[|toks| - 1].Match? then 0 else LitsOf(toks[..|toks| - 1]) + 1
  }

  /** The token that follows the given ones. */
  ghost predicate Next(level: nat, s: seq<byte>, toks: seq<Token>, t: Token) {
    var p := Pos(toks);
    if p + 11 > |s| then p < |s| && t == Lit(s[p])
    else if level == 3 then Picked3(s, p, t)
    else Picked1(s, StartsOf(toks), LitsOf(toks), p, t)
  }

  /** The tokens are those that the compressor sends, one after the other. */
  ghost predicate Chosen(level: nat, s: seq<byte>, toks: seq<Token>) {
    toks == [] || (Chosen(level, s, toks[..|toks| - 1]) && Next(level, s, toks[..|toks| - 1], toks[|toks| - 1]))
  }

  lemma NextOnly(level: nat, s: seq<byte>, toks: seq<Token>, t: Token, t': Token)
    requires Next(level, s, toks, t) && Next(level, s, toks, t')
    ensures t == t' && Pos(toks) < |s|
  {
    var p := Pos(toks);
    hide Pos, StartsOf, LitsOf, Picked3, Picked1;
    if p + 11 <= |s| {
      if level == 3 { Picked3Only(s, p, t, t'); } else { Picked1Only(s, StartsOf(toks), LitsOf(toks), p, t, t'); }
    }
  }

  /** There is no choice: of two such sequences one begins with the other. */
  lemma {:induction false} ChosenOnly(level: nat, s: seq<byte>, a: seq<Token>, b: seq<Token>)
    requires Chosen(level, s, a) && Chosen(level, s, b) && |a| <= |b|
    ensures a <= b
    decreases |b|
  {
    hide Next;
    if |a| < |b| {
      ChosenOnly(level, s, a, b[..|b| - 1]);
    } else if a != [] {
      ChosenOnly(level, s, a[..|a| - 1], b[..|b| - 1]);
      assert a[..|a| - 1] == b[..|b| - 1];
      NextOnly(level, s, a[..|a| - 1], a[|a| - 1], b[|b| - 1]);
    }
  }

  lemma {:induction false} ChosenPart(level: nat, s: seq<byte>, toks: seq<Token>, m: nat)
    requires Chosen(level, s, toks) && m < |toks|
    ensures Chosen(level, s, toks[..m]) && Pos(toks[..m]) < |s|
    decreases |toks|
  {
    hide Next, Pos;
    var init := toks[..|toks| - 1];
    if m < |init| {
      ChosenPart(level, s, init, m);
      assert init[..m] == toks[..m];
    } else {
      assert toks[..m] == init;
      NextOnly(level, s, init, toks[m], toks[m]);
    }
  }

  // ---------- giving up ----------

  /** The test that makes the compressor give up: at the beginning of a new control word, with room for a match, behind
      the position `from`, the output so far, `head` bytes before it included, is longer than 31/32 of what it is for. */
  ghost predicate Fails(level: nat, s: seq<byte>, toks: seq<Token>, head: nat, from: nat) {
    toks != [] && |toks| % 31 == 0 && Pos(toks) + 11 <= |s| && Pos(toks) > from && Valid(level, START, toks, |s|) &&
    head + |Rest(Units(level, START, toks, |s|), 0)| > Pos(toks) - Pos(toks) / 32
  }

  /** It has not given up before the last token. */
  ghost predicate PaysBefore(level: nat, s: seq<byte>, toks: seq<Token>, head: nat, from: nat) {
    forall m :: 0 < m < |toks| ==> !Fails(level, s, toks[..m], head, from)
  }

  /** The compressor has sent these tokens, for the first src bytes. */
  ghost predicate Story(level: nat, s: seq<byte>, toks: seq<Token>, src: nat, head: nat, from: nat) {
    Chosen(level, s, toks) && Pos(toks) == src && PaysBefore(level, s, toks, head, from)
  }

  lemma StoryStarts(level: nat, s: seq<byte>, head: nat, from: nat)
    ensures Story(level, s, [], 0, head, from)
  {
  }

  lemma StoryNext(level: nat, s: seq<byte>, toks: seq<Token>, src: nat, t: Token, head: nat, from: nat)
    requires Story(level, s, toks, src, head, from) && Next(level, s, toks, t) && !Fails(level, s, toks, head, from)
    ensures Story(level, s, toks + [t], src + Span(t), head, from)
  {
    var more := toks + [t];
    assert more[..|more| - 1] == toks;
    hide Next, Fails;
    forall m | 0 < m < |more| ensures !Fails(level, s, more[..m], head, from) {
      assert more[..m] == toks[..m];
      if m == |toks| { assert toks[..m] == toks; }
    }
  }

  /** In the tail a literal is next, and nothing is tested. */
  lemma StoryTail(level: nat, s: seq<byte>, toks: seq<Token>, src: nat, head: nat, from: nat)
    requires Story(level, s, toks, src, head, from) && src < |s| < src + 11
    ensures Story(level, s, toks + [Lit(s[src])], src + 1, head, from)
  {
    StoryNext(level, s, toks, src, Lit(s[src]), head, from);
  }

  /** The compressor has come to the end. */
  ghost predicate Complete(level: nat, s: seq<byte>, toks: seq<Token>, head: nat, from: nat) {
    Story(level, s, toks, |s|, head, from)
  }

  /** It has given up behind these tokens. */
  ghost predicate GaveUp(level: nat, s: seq<byte>, toks: seq<Token>, head: nat, from: nat) {
    Chosen(level, s, toks) && Fails(level, s, toks, head, from)
  }

  /** There is one complete sequence of tokens at most, ... */
  lemma CompleteOnly(level: nat, s: seq<byte>, a: seq<Token>, b: seq<Token>, head: nat, from: nat)
    requires Complete(level, s, a, head, from) && Complete(level, s, b, head, from)
    ensures a == b
  {
    hide Chosen, Pos, PaysBefore;
    if |a| <= |b| { NotLonger(level, s, a, b); } else { NotLonger(level, s, b, a); }
  }

  /** What comes to the end cannot be continued. */
  lemma NotLonger(level: nat, s: seq<byte>, a: seq<Token>, b: seq<Token>)
    requires Chosen(level, s, a) && Chosen(level, s, b) && Pos(a) == |s| && |a| <= |b|
    ensures a == b
  {
    hide Chosen, Pos;
    ChosenOnly(level, s, a, b);
    assert b[..|a|] == a;
    if |a| < |b| { ChosenPart(level, s, b, |a|); }
  }

  lemma StillPays(level: nat, s: seq<byte>, a: seq<Token>, b: seq<Token>, head: nat, from: nat)
    requires Complete(level, s, a, head, from) && Chosen(level, s, b) && Pos(b) < |s| && b != []
    ensures !Fails(level, s, b, head, from)
  {
    hide Chosen, Pos, Fails;
    if |a| <= |b| {
      NotLonger(level, s, a, b);
    } else {
      ChosenOnly(level, s, b, a);
      assert b == a[..|b|];
    }
  }

  /** ... and none where the compressor gives up. */
  lemma BothWays(level: nat, s: seq<byte>, a: seq<Token>, b: seq<Token>, head: nat, from: nat)
    requires Complete(level, s, a, head, from)
    ensures !GaveUp(level, s, b, head, from)
  {
    hide Chosen, Complete;
    if GaveUp(level, s, b, head, from) { StillPays(level, s, a, b, head, from); }
  }

  // ---------- the result in the Java form ----------

  /** Where the Java compressor begins to test the ratio. */
  function From(s: seq<byte>): nat { 3 * (|s| / 4) }

  /** The tokens it sends, coded; or the source as it is, for the reason that it gave up. */
  ghost predicate Compressed(level: nat, r: seq<byte>, s: seq<byte>) {
    (exists toks :: CodedAs(level, r, s, toks)) || (exists toks :: StoredFor(level, r, s, toks))
  }

  ghost predicate CodedAs(level: nat, r: seq<byte>, s: seq<byte>, toks: seq<Token>) {
    Holds(level, r, s, true, |r|, toks) && Complete(level, s, toks, DEFAULT_HEADERLEN, From(s))
  }

  ghost predicate StoredFor(level: nat, r: seq<byte>, s: seq<byte>, toks: seq<Token>) {
    level < 4 && |r| == |s| + DEFAULT_HEADERLEN && r == Header(level, false, true, |r|, |s|) + s &&
    GaveUp(level, s, toks, DEFAULT_HEADERLEN, From(s))
  }

  /** Every byte of the result is determined by the source and the level. */
  lemma OneResult(level: nat, s: seq<byte>, r: seq<byte>, r': seq<byte>)
    requires Compressed(level, r, s) && Compressed(level, r', s)
    ensures r == r'
  {
    hide CodedAs, StoredFor;
    if toks :| CodedAs(level, r, s, toks) {
      OneCoding(level, s, r, r', toks);
    } else {
      var toks :| StoredFor(level, r, s, toks);
      OneStored(level, s, r, r', toks);
    }
  }

  lemma OneCoding(level: nat, s: seq<byte>, r: seq<byte>, r': seq<byte>, toks: seq<Token>)
    requires CodedAs(level, r, s, toks) && Compressed(level, r', s)
    ensures r == r'
  {
    hide CodedAs, StoredFor;
    if toks' :| CodedAs(level, r', s, toks') {
      SameCoding(level, s, r, r', toks, toks');
    } else {
      var toks' :| StoredFor(level, r', s, toks');
      NotBoth(level, s, r, r', toks, toks');
    }
  }

  lemma OneStored(level: nat, s: seq<byte>, r: seq<byte>, r': seq<byte>, toks: seq<Token>)
    requires StoredFor(level, r, s, toks) && Compressed(level, r', s)
    ensures r == r'
  {
    hide CodedAs, StoredFor;
    if toks' :| CodedAs(level, r', s, toks') {
      NotBoth(level, s, r', r, toks', toks);
    } else {
      var toks' :| StoredFor(level, r', s, toks');
      SameStored(level, s, r, r', toks, toks');
    }
  }

  lemma SameCoding(level: nat, s: seq<byte>, r: seq<byte>, r': seq<byte>, toks: seq<Token>, toks': seq<Token>)
    requires CodedAs(level, r, s, toks) && CodedAs(level, r', s, toks')
    ensures r == r'
  {
    CompleteOnly(level, s, toks, toks', DEFAULT_HEADERLEN, From(s));
    hide Valid, Run, Units, Rest, Complete;
  }

  lemma SameStored(level: nat, s: seq<byte>, r: seq<byte>, r': seq<byte>, toks: seq<Token>, toks': seq<Token>)
    requires StoredFor(level, r, s, toks) && StoredFor(level, r', s, toks')
    ensures r == r'
  {
    hide GaveUp;
  }

  lemma NotBoth(level: nat, s: seq<byte>, r: seq<byte>, r': seq<byte>, toks: seq<Token>, toks': seq<Token>)
    requires CodedAs(level, r, s, toks)
    ensures !StoredFor(level, r', s, toks')
  {
    hide Complete, GaveUp, Holds;
    BothWays(level, s, toks, toks', DEFAULT_HEADERLEN, From(s));
  }
}
