/** The compressor itself: hash chains over a sliding window, refining the exhaustive search of MemzipSpec. */
module Memzip {
  import opened Bytes
  import opened Lz
  import opened MemzipFormat
  import opened MemzipSpec

  const HASH_SIZE := 32768
  const NIL := 0xFFFF

  function Hash(h: bv16, c: byte): (r: bv16) { ((h << 5) ^ (c as bv16)) & 0x7fff }

  /** The rolling hash at position y depends on the three bytes there alone. */
  function HashAt(s: seq<byte>, y: nat): (r: bv16)
    requires y + 2 < |s|
    ensures r <= 0x7fff
  {
    Hash(Hash(Hash(0, s[y]), s[y + 1]), s[y + 2])
  }

  lemma Rolls(h: bv16, s: seq<byte>, y: nat)
    requires y + 3 < |s|
    ensures Hash(HashAt(s, y), s[y + 3]) == HashAt(s, y + 1)
    ensures Hash(Hash(Hash(h, s[y]), s[y + 1]), s[y + 2]) == HashAt(s, y)
  {
    Forgets(h, 0, s[y], s[y + 1], s[y + 2]);
    Forgets(Hash(0, s[y]), 0, s[y + 1], s[y + 2], s[y + 3]);
    hide Hash;
  }

  /** Three bytes push everything before them out of the hash. */
  lemma Forgets(h: bv16, g: bv16, a: byte, b: byte, c: byte)
    ensures Hash(Hash(Hash(h, a), b), c) == Hash(Hash(Hash(g, a), b), c)
  {
  }

  /** A hash as an index of the head table. */
  function Index(h: bv16): (i: int)
    requires h <= 0x7fff
    ensures 0 <= i < HASH_SIZE
  {
    h as int
  }

  /** The chain of position y. */
  function Key(s: seq<byte>, y: nat): (k: int)
    requires y + 2 < |s|
  {
    Index(HashAt(s, y))
  }

  /** The latest window position before x on chain k, counted from the window's start; NIL if there is none. */
  function Latest(s: seq<byte>, base: nat, x: nat, k: int): (r: int)
    requires base + x + 2 <= |s|
    ensures r == NIL || 0 <= r < x
  {
    if x == 0 then NIL else if Key(s, base + x - 1) == k then x - 1 else Latest(s, base, x - 1, k)
  }

  lemma {:induction false} LatestIsLatest(s: seq<byte>, base: nat, x: nat, k: int)
    requires base + x + 2 <= |s| && x < NIL
    ensures var r := Latest(s, base, x, k);
            (r != NIL ==> Key(s, base + r) == k) &&
            forall y :: base + (if r == NIL then 0 else r + 1) <= y < base + x ==> Key(s, y) != k
    decreases x
  {
    if x > 0 {
      LatestIsLatest(s, base, x - 1, k);
    }
  }

  function Shifted(r: int): int { if r == NIL || r < SLIDE then NIL else r - SLIDE }

  lemma {:induction false} LatestShifts(s: seq<byte>, base: nat, x: nat, k: int)
    requires base + x + 2 <= |s| && SLIDE <= x < NIL
    ensures Latest(s, base + SLIDE, x - SLIDE, k) == Shifted(Latest(s, base, x, k))
    decreases x
  {
    if x > SLIDE {
      LatestShifts(s, base, x - 1, k);
    }
  }

  /** Positions that do not agree with p in three bytes do not matter to the search. */
  lemma {:induction false} SkipOthers(s: seq<byte>, p: nat, lo: nat, y: nat, z: nat, best: Candidate)
    requires y <= z <= p && p + 3 <= |s|
    requires forall o :: y <= o < z ==> !SameTriple(s, o, p)
    ensures Search(s, p, lo, z, best) == Search(s, p, lo, y, best)
    decreases z
  {
    if y < z && lo < z {
      SkipOthers(s, p, lo, y, z - 1, best);
    }
  }

  lemma SameTripleSameKey(full: seq<byte>, s: seq<byte>, o: nat, p: nat)
    requires o <= p && p + 3 <= |s| && s <= full && SameTriple(s, o, p)
    ensures Key(full, o) == Key(full, p)
  {
  }

  /** Every chain lists exactly the window positions below `cur` with its key, latest first. */
  ghost predicate Linked(s: seq<byte>, base: nat, cur: nat, head: seq<int>, prev: seq<int>) {
    |head| == HASH_SIZE && |prev| == 32768 && cur <= 32768 && base + cur + 2 <= |s| &&
    (forall k :: 0 <= k < HASH_SIZE ==> head[k] == Latest(s, base, cur, k)) &&
    (forall y :: 0 <= y < cur ==> prev[y] == Latest(s, base, y, Key(s, base + y)))
  }

  lemma LinkKeepsChains(s: seq<byte>, base: nat, cur: nat, head: seq<int>, prev: seq<int>, k: int)
    requires Linked(s, base, cur, head, prev) && cur < 32768 && base + cur + 3 <= |s|
    requires 0 <= k < HASH_SIZE && k == Key(s, base + cur)
    ensures Linked(s, base, cur + 1, head[k := cur], prev[cur := head[k]])
  {
  }

  lemma SlideKeepsChains(s: seq<byte>, base: nat, cur: nat,
                         head: seq<int>, prev: seq<int>, head': seq<int>, prev': seq<int>)
    requires Linked(s, base, cur, head, prev) && SLIDE <= cur
    requires |head'| == HASH_SIZE && |prev'| == 32768
    requires forall k :: 0 <= k < HASH_SIZE ==> head'[k] == Shifted(head[k])
    requires forall y :: 0 <= y < SLIDE ==> prev'[y] == Shifted(prev[y + SLIDE])
    ensures Linked(s, base + SLIDE, cur - SLIDE, head', prev')
  {
    forall k | 0 <= k < HASH_SIZE ensures head'[k] == Latest(s, base + SLIDE, cur - SLIDE, k) {
      LatestShifts(s, base, cur, k);
    }
    forall y | 0 <= y < cur - SLIDE
      ensures prev'[y] == Latest(s, base + SLIDE, y, Key(s, base + SLIDE + y))
    {
      LatestShifts(s, base, y + SLIDE, Key(s, base + SLIDE + y));
    }
  }

  /** What `struct comprtok` holds: the last match found, and the hash chains of the window. */
  class ComprTok {
    var flgbyte: byte
    var len: byte
    var distance0: byte
    var distance1: byte
    var strend: nat
    var strbegin: nat
    const head: array<int>
    const prev: array<int>
    var h: bv16

    constructor ()
      ensures fresh(head) && fresh(prev) && Shape() && strbegin == 0
      ensures forall k :: 0 <= k < HASH_SIZE ==> head[k] == NIL
    {
      head := new int[HASH_SIZE](_ => NIL);
      prev := new int[32768];
      flgbyte, len, distance0, distance1, strend, strbegin, h := 0, 0, 0, 0, 0, 0, 0;
    }

    ghost predicate Shape()
      reads this
    {
      head != prev && head.Length == HASH_SIZE && prev.Length == 32768 && h <= 0x7fff
    }

    ghost predicate Chains(s: seq<byte>, cur: nat)
      reads this, head, prev
    {
      Linked(s, strbegin, cur, head[..], prev[..])
    }

    /** The fields describe the candidate: its token bytes and where the match ends. */
    ghost predicate Describes(best: Candidate, p: nat)
      reads this
    {
      best.Found? ==>
        ValidToken(Match(best.len, best.distance)) && strend == p + best.len &&
        TokenBytes(Match(best.len, best.distance)) ==
          [flgbyte] + (if flgbyte == MFLG then [len] else []) + [distance0]
          + (if flgbyte != MBASE && distance0 > 191 then [distance1] else [])
    }

    /** Enters window position `cur` into the chain of the current key. */
    method Link(cur: nat)
      requires Shape() && cur < 32768
      modifies head, prev
      ensures prev[..] == old(prev[..])[cur := old(head[..])[Index(h)]]
      ensures head[..] == old(head[..])[Index(h) := cur]
    {
      prev[cur] := head[Index(h)];
      head[Index(h)] := cur;
    }

    method ShiftHead()
      requires Shape()
      modifies head
      ensures forall k :: 0 <= k < HASH_SIZE ==> head[k] == Shifted(old(head[k]))
    {
      for i := 0 to HASH_SIZE
        invariant forall k :: 0 <= k < i ==> head[k] == Shifted(old(head[k]))
        invariant forall k :: i <= k < HASH_SIZE ==> head[k] == old(head[k])
      {
        if head[i] != NIL {
          if head[i] < SLIDE { head[i] := NIL; } else { head[i] := head[i] - SLIDE; }
        }
      }
    }

    method ShiftPrev()
      requires Shape()
      modifies prev
      ensures forall y :: 0 <= y < SLIDE ==> prev[y] == Shifted(old(prev[y + SLIDE]))
      ensures forall y :: SLIDE <= y < 32768 ==> prev[y] == old(prev[y])
    {
      for i := 0 to SLIDE
        invariant forall y :: 0 <= y < i ==> prev[y] == Shifted(old(prev[y + SLIDE]))
        invariant forall y :: i <= y < 32768 ==> prev[y] == old(prev[y])
      {
        if prev[i + SLIDE] == NIL || prev[i + SLIDE] < SLIDE { prev[i] := NIL; }
        else { prev[i] := prev[i + SLIDE] - SLIDE; }
      }
    }

    /** Moves the window forward by half its size. */
    method WinSlip(ghost s: seq<byte>, ghost cur: nat)
      requires Shape() && SLIDE <= cur
      modifies this`strbegin, head, prev
      ensures Shape() && strbegin == old(strbegin) + SLIDE
      ensures forall k :: 0 <= k < HASH_SIZE ==> head[k] == Shifted(old(head[k]))
      ensures forall y :: 0 <= y < SLIDE ==> prev[y] == Shifted(old(prev[y + SLIDE]))
      ensures old(Chains(s, cur)) ==> Chains(s, cur - SLIDE)
    {
      ghost var head0, prev0 := head[..], prev[..];
      ShiftHead();
      ShiftPrev();
      if old(Chains(s, cur)) {
        SlideKeepsChains(s, strbegin, cur, head0, prev0, head[..], prev[..]);
      }
      strbegin := strbegin + SLIDE;
    }

    /** Records a match of i bytes at the given distance. */
    method Accept(i: nat, distance: nat, p: nat, ghost best: Candidate)
      requires best.Found? && best.len == i && best.distance == distance && ValidToken(Match(i, distance))
      modifies this`flgbyte, this`len, this`distance0, this`distance1, this`strend
      ensures Describes(best, p)
    {
      if i < 9 {
        flgbyte := i + IBASE;
      } else {
        flgbyte := MFLG;
        len := i - 9;
      }
      if i == 3 || distance < 193 {
        distance0 := distance - 1;
      } else {
        var d := distance - 193;
        distance0 := d / 256 + 0xC0;
        distance1 := d % 256;
      }
      strend := p + i;
    }

    lemma NothingFound(p: nat)
      ensures Describes(NoMatch, p)
    {
    }

    /** Searches the chain of the current key for the most profitable match of the bytes at strstart. */
    method Deflate(src: seq<byte>, strstart: nat, srcLen: nat) returns (gain: int)
      requires Shape() && strbegin <= strstart <= srcLen <= |src|
      requires srcLen - strstart >= 3 ==> Chains(src, strstart - strbegin) && Index(h) == Key(src, strstart)
      modifies this`flgbyte, this`len, this`distance0, this`distance1, this`strend
      ensures gain == GainOf(FindMatch(src[..srcLen], strstart, strbegin))
      ensures Describes(FindMatch(src[..srcLen], strstart, strbegin), strstart)
    {
      hide Key, HashAt, Latest, TokenBytes, TokenGain, Consider, Search, Stops, ValidToken, FindMatch, Oldest;
      hide Describes, GainOf;
      ghost var s := src[..srcLen];
      StartSearch(s, strstart, strbegin);
      NothingFound(strstart);
      if srcLen - strstart < 3 { return -1; }
      var cur := strstart - strbegin;
      var b := if cur > MAX_DISTANCE then cur - MAX_DISTANCE else 0;
      ghost var lo, best := Oldest(strstart, strbegin), NoMatch;
      gain := -1;
      var pos := head[Index(h)];
      assert pos == Latest(src, strbegin, cur, Key(src, strstart));
      ChainStep(src, s, strbegin, strstart, cur, lo, best);
      ghost var y := strbegin + if pos == NIL then 0 else pos + 1;
      while pos != NIL && pos >= b
        invariant pos != NIL ==> 0 <= pos < cur && Key(src, strbegin + pos) == Key(src, strstart)
        invariant y == (strbegin + if pos == NIL then 0 else pos + 1) <= strstart
        invariant Search(s, strstart, lo, y, best) == FindMatch(s, strstart, strbegin)
        invariant gain == GainOf(best) && Describes(best, strstart)
        decreases if pos == NIL then -1 else pos
      {
        var o := strbegin + pos;
        if src[o] == src[strstart] && src[o + 1] == src[strstart + 1] && src[o + 2] == src[strstart + 2] {
          var g1, i, stop := Examine(src, o, strstart, srcLen, gain, best);
          SearchStep(s, strstart, lo, o, best, if g1 > gain then Found(g1, i, strstart - o) else best);
          if g1 > gain {
            best := Found(g1, i, strstart - o);
            Accept(i, strstart - o, strstart, best);
            gain := g1;
            assert gain == GainOf(best) by { GainOfFound(best); }
            if stop {
              assert best == FindMatch(s, strstart, strbegin);
              return;
            }
          }
        } else {
          SkipOthers(s, strstart, lo, o, o + 1, best);
        }
        assert prev[pos] == Latest(src, strbegin, pos, Key(src, strstart));
        ChainStep(src, s, strbegin, strstart, pos, lo, best);
        pos := prev[pos];
        y := strbegin + if pos == NIL then 0 else pos + 1;
      }
      SearchEnds(s, strstart, lo, y, best);
    }
  }

  /** Weighs the candidate at o: its profit, or no profit at all if it is of no use. */
  method Examine(src: seq<byte>, o: nat, p: nat, srcLen: nat, gain: int, ghost best: Candidate)
    returns (g1: int, i: nat, stop: bool)
    requires o < p && p + 3 <= srcLen <= |src| && p - o <= MAX_DISTANCE
    requires SameTriple(src[..srcLen], o, p) && gain == GainOf(best) >= -1
    ensures g1 > gain ==> ValidToken(Match(i, p - o))
    ensures Consider(src[..srcLen], o, p, best) == if g1 > gain then Found(g1, i, p - o) else best
    ensures g1 > gain ==> stop == Stops(Found(g1, i, p - o))
  {
    hide SameTriple, MatchLen;
    var distance := p - o;
    i := ExtendMatch(src, o, p, srcLen);
    g1 := i - 2;
    if i == 3 {
      if distance > 256 { return -1, i, false; }
    } else {
      if distance > 192 { g1 := g1 - 1; }
      if i > 8 { g1 := g1 - 1; }
    }
    stop := (distance < i && g1 > 20) || i > 263;
  }

  /** Extends a match of three bytes while the bytes agree, up to 264. */
  method ExtendMatch(src: seq<byte>, o: nat, p: nat, srcLen: nat) returns (i: nat)
    requires o < p && p + 3 <= srcLen <= |src| && SameTriple(src[..srcLen], o, p)
    ensures i == MatchLen(src[..srcLen], o, p, 3, Limit(src[..srcLen], p))
  {
    ghost var s := src[..srcLen];
    hide MatchLen;
    i := 3;
    while i < srcLen - p && src[o + i] == src[p + i]
      invariant 3 <= i < 264 && i <= srcLen - p && Repeats(s, p, i, p - o)
      invariant MatchLen(s, o, p, i, Limit(s, p)) == MatchLen(s, o, p, 3, Limit(s, p))
    {
      assert s[p + i] == s[o + i];
      i := i + 1;
      if i == 264 { break; }
    }
  }

  lemma StartSearch(s: seq<byte>, p: nat, base: nat)
    requires base <= p <= |s|
    ensures GainOf(NoMatch) == -1
    ensures Oldest(p, base) == base + (if p - base > MAX_DISTANCE then p - base - MAX_DISTANCE else 0)
    ensures FindMatch(s, p, base) == if |s| - p < 3 then NoMatch else Search(s, p, Oldest(p, base), p, NoMatch)
  {
  }

  lemma SearchStep(s: seq<byte>, p: nat, lo: nat, o: nat, best: Candidate, b: Candidate)
    requires o < p && p + 3 <= |s|
    requires SameTriple(s, o, p) && b == Consider(s, o, p, best)
    ensures Search(s, p, lo, o + 1, best)
         == if o + 1 <= lo then best else if b != best && Stops(b) then b else Search(s, p, lo, o, b)
  {
  }

  lemma GainOfFound(best: Candidate)
    requires best.Found?
    ensures GainOf(best) == best.gain
  {
  }

  lemma SearchEnds(s: seq<byte>, p: nat, lo: nat, y: nat, best: Candidate)
    requires y <= p && p + 3 <= |s| && y <= lo
    ensures Search(s, p, lo, y, best) == best
  {
  }

  /** From below position x on, only the next position of the same chain matters to the search. */
  lemma ChainStep(full: seq<byte>, s: seq<byte>, base: nat, p: nat, x: nat, lo: nat, best: Candidate)
    requires s <= full && base + x <= p && p + 3 <= |s| && x < NIL
    ensures var r := Latest(full, base, x, Key(full, p));
            (r != NIL ==> Key(full, base + r) == Key(full, p)) &&
            Search(s, p, lo, base + (if r == NIL then 0 else r + 1), best) == Search(s, p, lo, base + x, best)
  {
    hide Key, HashAt, Search, Latest;
    var k := Key(full, p);
    LatestIsLatest(full, base, x, k);
    var r := Latest(full, base, x, k);
    var y := base + (if r == NIL then 0 else r + 1);
    forall o | y <= o < base + x ensures !SameTriple(s, o, p) {
      if SameTriple(s, o, p) { SameTripleSameKey(full, s, o, p); }
    }
    SkipOthers(s, p, lo, y, base + x, best);
  }

  /** Between two tokens: the window holds every position before p, as long as that can matter. */
  ghost predicate Ready(tok: ComprTok, src: seq<byte>, srcLen: nat, p: nat)
    reads tok, tok.head, tok.prev
  {
    tok.Shape() && tok.strbegin < p <= srcLen && srcLen + 2 <= |src| && p - tok.strbegin <= 32768 &&
    (p + 2 <= srcLen ==> tok.Chains(src, p - tok.strbegin) && tok.h == HashAt(src, p - 1))
  }

  /** The candidate for position p, with the window slid forward first if need be; p itself enters the window. */
  method Find(tok: ComprTok, src: seq<byte>, srcLen: nat, p: nat) returns (gain: int, cur: nat)
    requires Ready(tok, src, srcLen, p) && p < srcLen
    modifies tok, tok.head, tok.prev
    ensures tok.Shape() && tok.strbegin == Slide(p, old(tok.strbegin)) && cur == p - tok.strbegin <= SLIDE_AT
    ensures gain == GainOf(FindMatch(src[..srcLen], p, tok.strbegin))
    ensures tok.Describes(FindMatch(src[..srcLen], p, tok.strbegin), p)
    ensures p + 3 <= srcLen ==> tok.Chains(src, cur + 1) && tok.h == HashAt(src, p)
  {
    hide FindMatch, GainOf, Hash, HashAt;
    if p + 3 <= srcLen {
      Rolls(tok.h, src, p - 1);
      tok.h := Hash(tok.h, src[p + 2]);
    }
    cur := p - tok.strbegin;
    if cur > SLIDE_AT {
      tok.WinSlip(src, cur);
      cur := cur - SLIDE;
    }
    gain := tok.Deflate(src, p, srcLen);
    if p + 3 <= srcLen {
      LinkKeepsChains(src, tok.strbegin, cur, tok.head[..], tok.prev[..], Index(tok.h));
    }
    tok.Link(cur);
  }

  /** Enters the positions inside a match, from window position cur + 1 up to but not including i. */
  method Enter(tok: ComprTok, src: seq<byte>, cur: nat, i: nat)
    requires cur < i <= 32768 && tok.strbegin + i + 2 <= |src|
    requires tok.Shape() && tok.Chains(src, cur + 1) && tok.h == HashAt(src, tok.strbegin + cur)
    modifies tok`h, tok.head, tok.prev
    ensures tok.Shape() && tok.Chains(src, i) && tok.h == HashAt(src, tok.strbegin + i - 1)
  {
    hide Hash, HashAt;
    var c := cur + 1;
    while c < i
      invariant cur < c <= i && tok.Shape() && tok.Chains(src, c) && tok.h == HashAt(src, tok.strbegin + c - 1)
    {
      Rolls(tok.h, src, tok.strbegin + c - 1);
      tok.h := Hash(tok.h, src[tok.strbegin + c + 2]);
      LinkKeepsChains(src, tok.strbegin, c, tok.head[..], tok.prev[..], Index(tok.h));
      tok.Link(c);
      c := c + 1;
    }
  }

  /** Writes the token of the match that the fields describe. */
  method PutMatch(dest: array<byte>, pd: nat, tok: ComprTok, ghost len: nat, ghost distance: nat, ghost p: nat)
    returns (at: nat)
    requires ValidToken(Match(len, distance)) && tok.Describes(Found(TokenGain(len, distance), len, distance), p)
    requires pd + TokenLen(Match(len, distance)) <= dest.Length
    modifies dest
    ensures at == pd + TokenLen(Match(len, distance)) <= dest.Length
    ensures dest[..at] == old(dest[..pd]) + TokenBytes(Match(len, distance))
  {
    assert TokenLen(Match(len, distance)) == 2 + (if len < 9 then 0 else 1) + (if len == 3 || distance < 193 then 0 else 1);
    hide TokenLen, DistanceBytes, ValidToken;
    dest[pd] := tok.flgbyte;
    at := pd + 1;
    if tok.flgbyte == MFLG {
      dest[at] := tok.len;
      at := at + 1;
    }
    dest[at] := tok.distance0;
    at := at + 1;
    if tok.flgbyte != MBASE && tok.distance0 > 191 {
      dest[at] := tok.distance1;
      at := at + 1;
    }
  }

  /** Writes a byte of the original, escaped if need be; gives up if the output is past the source length. */
  method PutLiteral(dest: array<byte>, pd: nat, c: byte, srcLen: nat) returns (at: nat, ok: bool)
    requires srcLen < dest.Length
    modifies dest
    ensures ok == (pd + TokenLen(Literal(c)) <= srcLen + 1)
    ensures ok ==> at == pd + (if Special(c) then 2 else 1) == pd + TokenLen(Literal(c))
    ensures ok ==> dest[..at] == old(dest[..pd]) + TokenBytes(Literal(c))
  {
    at := pd;
    if Special(c) {
      if at > srcLen { return at, false; }
      dest[at] := ESC;
      at := at + 1;
    }
    if at > srcLen { return at, false; }
    dest[at] := c;
    at := at + 1;
    ok := true;
  }

  lemma FirstHash(src: seq<byte>)
    requires 3 <= |src|
    ensures Hash(Hash(src[0] as bv16, src[1]), src[2]) == HashAt(src, 0)
  {
    var a := src[0] as bv16;
    assert ((0 << 5) ^ a) & 0x7fff == a & 0x7fff;
  }

  lemma FirstLinked(src: seq<byte>, head: seq<int>, prev: seq<int>)
    requires 3 <= |src| && |head| == HASH_SIZE && |prev| == 32768 && prev[0] == NIL
    requires forall k :: 0 <= k < HASH_SIZE ==> head[k] == if k == Key(src, 0) then 0 else NIL
    ensures Linked(src, 0, 1, head, prev)
  {
  }

  /** Enters position 0, which is always copied as it is, into the empty window. */
  method StartWindow(tok: ComprTok, src: seq<byte>)
    requires tok.Shape() && tok.strbegin == 0 && 3 <= |src|
    requires forall k :: 0 <= k < HASH_SIZE ==> tok.head[k] == NIL
    modifies tok, tok.head, tok.prev
    ensures tok.Shape() && tok.strbegin == 0 && tok.Chains(src, 1) && tok.h == HashAt(src, 0)
  {
    FirstHash(src);
    hide Hash, HashAt, Linked, Index;
    tok.h := Hash(Hash(src[0] as bv16, src[1]), src[2]);
    tok.head[Index(tok.h)] := 0;
    tok.prev[0] := NIL;
    FirstLinked(src, tok.head[..], tok.prev[..]);
  }

  /** Takes the match that the fields describe: its positions enter the window, its token is written. */
  method TakeMatch(dest: array<byte>, pd: nat, tok: ComprTok, src: seq<byte>, srcLen: nat, cur: nat,
                   ghost best: Candidate)
    returns (p: nat, at: nat)
    requires tok.Shape() && srcLen + 2 <= |src| && cur <= SLIDE_AT
    requires tok.Chains(src, cur + 1) && tok.h == HashAt(src, tok.strbegin + cur)
    requires best.Found? && tok.Describes(best, tok.strbegin + cur)
    requires best.gain == TokenGain(best.len, best.distance) && tok.strbegin + cur + best.len <= srcLen
    requires ValidToken(Match(best.len, best.distance))
    requires pd + TokenLen(Match(best.len, best.distance)) <= dest.Length && dest as object !in {tok.head, tok.prev}
    modifies dest, tok`h, tok.head, tok.prev
    ensures p == tok.strbegin + cur + best.len && tok.strbegin == old(tok.strbegin) && Ready(tok, src, srcLen, p)
    ensures at == pd + TokenLen(Match(best.len, best.distance)) <= dest.Length
    ensures dest[..at] == old(dest[..pd]) + TokenBytes(Match(best.len, best.distance))
  {
    hide HashAt, Linked, TokenBytes, TokenLen, TokenGain;
    p := tok.strend;
    Enter(tok, src, cur, p - tok.strbegin);
    at := PutMatch(dest, pd, tok, best.len, best.distance, tok.strbegin + cur);
  }

  /** Compresses src[..srcLen]; the two bytes behind it are only hashed. Returns the number of bytes written. */
  method Memzip(dest: array<byte>, src: seq<byte>, srcLen: nat) returns (n: nat)
    requires srcLen + 2 <= |src| && 3 <= |src| && 11 * srcLen + 2 <= 8 * dest.Length
    modifies dest
    ensures n <= dest.Length && dest[..n] == Zip(src[..srcLen])
  {
    hide HashAt, Hash, Linked, Tokens, ValidTokens, Expand, Encode, Fits, TokenBytes, TokenLen, Slide, Search;
    hide Progress;
    var tok := new ComprTok();
    StartWindow(tok, src);
    dest[0] := src[0];
    if srcLen == 0 { return 0; }
    ghost var s, toks := src[..srcLen], [];
    ProgressStarts(s);
    assert dest[..1] == [s[0]];
    var p: nat, pd: nat, totalgain: int := 1, 1, 0;
    while p < srcLen
      invariant Ready(tok, src, srcLen, p) && fresh(tok) && fresh(tok.head) && fresh(tok.prev)
      invariant 0 < p <= srcLen && 0 < pd <= dest.Length && Progress(s, toks, p, tok.strbegin, dest[..pd])
      invariant totalgain == p - pd
    {
      ghost var t, q, b := ProgressStep(s, toks, p, tok.strbegin, dest[..pd]);
      var gain, cur := Find(tok, src, srcLen, p);
      ghost var best := FindMatch(s, p, b);
      assert t == (if best.Found? then Match(best.len, best.distance) else Literal(s[p]));
      if gain > 0 {
        assert best.Found?;
        assert gain == TokenGain(best.len, best.distance) && q == tok.strend by { FoundIsSound(s, p, b); }
        GainIsSaving(best.len, best.distance);
        p, pd := TakeMatch(dest, pd, tok, src, srcLen, cur, best);
        totalgain := totalgain + gain;
      } else {
        assert t == Literal(s[p]) by { FoundIsSound(s, p, b); }
        var ok;
        if Special(src[p]) { totalgain := totalgain - 1; }
        pd, ok := PutLiteral(dest, pd, src[p], srcLen);
        if !ok {
          totalgain := -1;
          break;
        }
        p := p + 1;
      }
      toks := toks + [t];
    }
    if totalgain <= 0 && p != srcLen {
      Overruns(s);
      CopyRaw(dest, src, srcLen);
      return srcLen;
    }
    ProgressEnds(s, toks, tok.strbegin, dest[..pd]);
    return pd;
  }

  lemma FoundIsSound(s: seq<byte>, p: nat, base: nat)
    requires base <= p <= |s|
    ensures Sound(s, p, FindMatch(s, p, base))
    ensures FindMatch(s, p, base).Found? <==> GainOf(FindMatch(s, p, base)) > 0
  {
    var best := FindMatch(s, p, base);
    FindMatchSound(s, p, base);
    hide FindMatch;
    if best.Found? { GainIsSaving(best.len, best.distance); }
  }
}
