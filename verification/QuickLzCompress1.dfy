/** The compressor of QuickLZ.java at level 1. */
module QuickLzCompress1 {
  import opened Bytes
  import opened Lz
  import opened LittleEndian
  import opened QuickLzWord
  import opened QuickLzFormat
  import opened QuickLzChoice
  import opened QuickLzEncode

  /** What the table says of hash h: once a byte with that hash was sent as a literal, the entry is the latest
      token start with that hash, and the cache holds the three bytes that stand there; before, there is none. */
  ghost predicate Entry(s: seq<byte>, starts: set<nat>, src: nat, h: nat, o: nat, cached: int, used: int) {
    if used != 0 then
      o < src && o + 2 < |s| && o in starts && Key(s, o) == h && cached == Triple(s, o) &&
      forall q :: o < q < src && q + 2 < |s| && q in starts ==> Key(s, q) != h
    else
      forall q :: 0 <= q < src && q + 2 < |s| && q in starts ==> Key(s, q) != h
  }

  ghost predicate Table(s: seq<byte>, starts: set<nat>, src: nat,
                        table: seq<nat>, cache: seq<int>, counter: seq<int>)
  {
    |table| == HASH_VALUES && |cache| == HASH_VALUES && |counter| == HASH_VALUES &&
    (forall h :: 0 <= h < HASH_VALUES ==> table[h] < src || table[h] == 0) &&
    forall h :: 0 <= h < HASH_VALUES ==> Entry(s, starts, src, h, table[h], cache[h], counter[h])
  }

  /** Visiting position src and making it a token start. */
  lemma Visit(s: seq<byte>, starts: set<nat>, src: nat, src': nat, table: seq<nat>, cache: seq<int>,
              counter: seq<int>, counter': seq<int>)
    requires Table(s, starts, src, table, cache, counter) && src + 2 < |s| && src < src'
    requires forall q :: q in starts ==> q < src
    requires counter' == counter || counter' == counter[Key(s, src) := 1]
    requires counter'[Key(s, src)] != 0
    ensures Table(s, starts + {src}, src', table[Key(s, src) := src], cache[Key(s, src) := Triple(s, src)], counter')
  {
    hide Key, Triple;
  }

  // ---------- the two kinds of match ----------

  lemma TripleInjective(s: seq<byte>, o: nat, p: nat)
    requires o < p && p + 2 < |s| && Triple(s, o) == Triple(s, p)
    ensures s[o] == s[p] && s[o + 1] == s[p + 1] && s[o + 2] == s[p + 2]
  {
    SameDigits(s[o], s[o + 1], s[o + 2], s[p], s[p + 1], s[p + 2]);
  }

  /** Numbers are equal only if their bytes are. */
  lemma SameDigits(a: byte, b: byte, c: byte, x: byte, y: byte, z: byte)
    requires a as int + 256 * (b as int) + 65536 * (c as int) == x as int + 256 * (y as int) + 65536 * (z as int)
    ensures a == x && b == y && c == z
  {
    var high: int, high': int := b as int + 256 * (c as int), y as int + 256 * (z as int);
    assert a as int - x as int == 256 * (high' - high);
    assert b as int - y as int == 256 * (z as int - c as int);
  }

  /** The latest start at or below x - 1 is found if nothing above it has the same hash. */
  lemma {:induction false} LookupFinds(s: seq<byte>, starts: set<nat>, x: nat, o: nat, h: nat)
    requires o < x && x + 2 <= |s| && o in starts && Key(s, o) == h
    requires forall q :: o < q < x && q in starts ==> Key(s, q) != h
    ensures Lookup(s, starts, x, h) == o
    decreases x
  {
    hide Key;
    if x - 1 != o { LookupFinds(s, starts, x - 1, o, h); }
  }

  /** A match with an entry that lies far enough back: the decoder finds the same entry. */
  lemma FarMatch(s: seq<byte>, st: State, src: nat, o: nat, len: nat)
    requires src + 11 <= |s| && st.out == s[..src] && o + 2 < src && o in st.starts
    requires Repeats(s, src, len, src - o) && 3 <= len <= 255 && src + len + UNCOMPRESSED_END <= |s|
    requires Key(s, o) == Key(s, src)
    requires forall q :: o < q < src && q + 2 < |s| && q in st.starts ==> Key(s, q) != Key(s, src)
    ensures Fits(1, st, Match(len, src - o), |s|)
    ensures CodeOf(1, st, Match(len, src - o), |s|) == Code1(len, Key(s, src))
  {
    hide Hash;
    assert forall q :: 0 <= q && q + 2 < src ==> Key(st.out, q) == Key(s, q);
    LookupFinds(st.out, st.starts, src - 2, o, Key(s, src));
    hide Key;
  }

  /** Six equal bytes around src, the last three of them literals: the decoder finds position src - 3, and copies
      the same bytes from there. */
  predicate SameSix(s: seq<byte>, src: nat)
    requires 3 <= src && src + 3 <= |s|
  {
    s[src] == s[src - 3] && s[src] == s[src - 2] && s[src] == s[src - 1] && s[src] == s[src + 1] && s[src] == s[src + 2]
  }

  lemma SixEqual(s: seq<byte>, p: nat)
    requires 3 <= p && p + 3 <= |s|
    ensures SameSix(s, p) <==> forall k :: p - 3 <= k < p + 3 ==> s[k] == s[p]
  {
    if SameSix(s, p) {
      forall k | p - 3 <= k < p + 3 ensures s[k] == s[p] {
        assert k == p - 3 || k == p - 2 || k == p - 1 || k == p || k == p + 1 || k == p + 2;
      }
    }
  }

  lemma RunMatch(s: seq<byte>, st: State, src: nat, len: nat)
    requires src + 11 <= |s| && 3 < src && st.out == s[..src] && src - 3 in st.starts && SameSix(s, src)
    requires Repeats(s, src, len, 1) && 3 <= len <= 255 && src + len + UNCOMPRESSED_END <= |s|
    ensures Fits(1, st, Match(len, 3), |s|) && Repeats(s, src, len, 3)
    ensures CodeOf(1, st, Match(len, 3), |s|) == Code1(len, Key(s, src))
  {
    assert Triple(st.out, src - 3) == Triple(s, src);
    RunOfThree(s, src, len);
    hide Hash, Triple;
    assert Key(st.out, src - 3) == Key(s, src);
  }

  lemma {:induction false} RunOfThree(s: seq<byte>, src: nat, len: nat)
    requires 3 <= src && Repeats(s, src, len, 1)
    requires src < |s| && s[src - 1] == s[src - 2] == s[src - 3]
    ensures Repeats(s, src, len, 3)
    ensures forall k :: src <= k < src + len ==> s[k] == s[src - 1]
    decreases len
  {
    if len > 0 {
      RunOfThree(s, src, len - 1);
      var k := src + len - 1;
      assert s[k] == s[k - 1];
    }
  }

  /** The length of the match of src with o, whose first three bytes agree: compared in the order of the source. */
  method MatchLength(s: seq<byte>, src: nat, o: nat) returns (matchlen: nat)
    requires src + 11 <= |s| && o < src && Repeats(s, src, 3, src - o)
    ensures 3 <= matchlen <= 255 && src + matchlen + UNCOMPRESSED_END <= |s| && Repeats(s, src, matchlen, src - o)
    ensures matchlen == MatchLen(s, o, src, 3, Remaining(|s|, src))
  {
    hide Repeats, MatchLen;
    var remaining := Remaining(|s|, src);
    matchlen := 3;
    if s[o + 3] == s[src + 3] {
      Longer(s, o, src, 3);
      matchlen := 4;
      if s[o + matchlen] == s[src + matchlen] {
        Longer(s, o, src, 4);
        matchlen := matchlen + 1;
        if s[o + matchlen] == s[src + matchlen] {
          Longer(s, o, src, 5);
          matchlen := matchlen + 1;
          while matchlen < remaining && s[o + matchlen] == s[src + matchlen]
            invariant 6 <= matchlen <= remaining && Repeats(s, src, matchlen, src - o)
          {
            Longer(s, o, src, matchlen);
            matchlen := matchlen + 1;
          }
        }
      }
    }
    MatchLenIs(s, o, src, 3, remaining, matchlen);
  }

  method PickCode1(matchlen: nat, hash: nat) returns (value: nat, size: nat)
    requires 3 <= matchlen <= 255 && hash < HASH_VALUES
    ensures (value, size) == Code1(matchlen, hash)
  {
    if matchlen == 3 {
      value, size := (3 - 2) + hash * 16, 2;
    } else if matchlen < 18 {
      value, size := hash * 16 + (matchlen - 2), 2;
    } else {
      value, size := hash * 16 + matchlen * 65536, 3;
    }
  }

  /** The last `lits` bytes were sent as literals; token starts lie below src. */
  ghost predicate Recent(starts: set<nat>, src: nat, lits: nat) {
    lits <= src && (forall q :: src - lits <= q < src ==> q in starts) && forall q :: q in starts ==> q < src
  }

  /** Whether the entry may be used: the same three bytes, and far enough back or inside a run of one byte. */
  predicate UseEntry(s: seq<byte>, src: nat, o: nat, cached: int, used: int, lits: nat)
    requires src + 11 <= |s|
  {
    cached == Triple(s, src) && used != 0 &&
    (src - o > MINOFFSET || (src == o + 1 && lits >= 3 && src > 3 && SameSix(s, src)))
  }

  /** The token that stands for a match: the decoder may take it from another place with the same bytes. */
  lemma ChooseToken(s: seq<byte>, st: State, src: nat, o: nat, cached: int, used: int, lits: nat, len: nat)
    returns (t: Token)
    requires src + 11 <= |s| && st.out == s[..src]
    requires Entry(s, st.starts, src, Key(s, src), o, cached, used) && UseEntry(s, src, o, cached, used, lits)
    requires Recent(st.starts, src, lits)
    requires 3 <= len <= 255 && src + len + UNCOMPRESSED_END <= |s| && Repeats(s, src, len, src - o)
    ensures t.Match? && t.len == len && t.offset == (if src - o > MINOFFSET then src - o else 3)
    ensures Repeats(s, src, len, t.offset) && Fits(1, st, t, |s|)
    ensures CodeOf(1, st, t, |s|) == Code1(len, Key(s, src)) && 1 <= t.offset <= src
  {
    hide Key, Triple, Fits, CodeOf, Code1;
    if src - o > MINOFFSET {
      t := Match(len, src - o);
      FarMatch(s, st, src, o, len);
    } else {
      t := Match(len, 3);
      RunMatch(s, st, src, len);
    }
  }

  /** Between two tokens. */
  ghost predicate Ready(s: seq<byte>, starts: set<nat>, src: nat, lits: nat,
                        table: seq<nat>, cache: seq<int>, counter: seq<int>)
  {
    Table(s, starts, src, table, cache, counter) && Recent(starts, src, lits)
  }

  lemma ReadyStarts(s: seq<byte>, table: seq<nat>, cache: seq<int>, counter: seq<int>)
    requires |table| == |cache| == |counter| == HASH_VALUES
    requires forall h :: 0 <= h < HASH_VALUES ==> table[h] == 0 && counter[h] == 0
    ensures Ready(s, {}, 0, 0, table, cache, counter)
  {
  }

  lemma ReadyNext(s: seq<byte>, starts: set<nat>, src: nat, src': nat, lits: nat, lits': nat,
                  table: seq<nat>, cache: seq<int>, counter: seq<int>, counter': seq<int>)
    requires Ready(s, starts, src, lits, table, cache, counter) && src + 2 < |s| && src < src'
    requires counter' == counter || counter' == counter[Key(s, src) := 1]
    requires counter'[Key(s, src)] != 0
    requires lits' == 0 || (lits' == lits + 1 && src' == src + 1)
    ensures Ready(s, starts + {src}, src', lits',
                  table[Key(s, src) := src], cache[Key(s, src) := Triple(s, src)], counter')
  {
    hide Key, Triple, Table;
    Visit(s, starts, src, src', table, cache, counter, counter');
  }

  /** Swaps position src and its three bytes into the table; returns what was there. */
  method Touch(table: array<nat>, cache: array<int>, h: nat, src: nat, fetch: int) returns (o: nat, cached: int)
    requires h < table.Length == cache.Length && table as object != cache
    modifies table, cache
    ensures o == old(table[h]) && cached == old(cache[h])
    ensures table[..] == old(table[..])[h := src] && cache[..] == old(cache[..])[h := fetch]
  {
    o := table[h];
    cached := cache[h];
    cache[h] := fetch;
    table[h] := src;
  }

  /** Sends a match with the entry o. */
  method SendMatch(source: seq<byte>, destination: array<byte>, src: nat, dst: nat, cwordPtr: nat, cword: nat,
                   h: nat, o: nat, ghost cached: int, ghost used: int, ghost lits: nat, ghost tr: Trail)
    returns (src': nat, dst': nat, ghost tr': Trail, ghost t: Token)
    requires Written(1, source, destination[..], src, dst, cwordPtr, cword, tr) && |tr.cur| < 31
    requires Valid(1, START, tr.toks, |source|) && dst + 4 <= destination.Length
    requires src + 11 <= |source| && UseEntry(source, src, o, cached, used, lits) && h == Key(source, src)
    requires Entry(source, Seen(1, source, tr).starts, src, h, o, cached, used)
    requires Recent(Seen(1, source, tr).starts, src, lits)
    modifies destination
    ensures Written(1, source, destination[..], src', dst', cwordPtr, cword / 2 + 0x8000_0000, tr')
    ensures Valid(1, START, tr'.toks, |source|) && Seen(1, source, tr').starts == Seen(1, source, tr).starts + {src}
    ensures src + 3 <= src' && src' + UNCOMPRESSED_END <= |source| && |tr'.cur| == |tr.cur| + 1
    ensures dst < dst' <= dst + 3 && dst' - dst <= src' - src
    ensures tr'.toks == tr.toks + [t] && Picked1(source, Seen(1, source, tr).starts, lits, src, t)
    ensures t.Match? && src' == src + t.len
  {
    hide Written, Fits, CodeOf, Hash, Recent, SameSix, Valid, Triple, Step, Code1, Run, Repeats, Picked1,
      Entry, UseEntry, MatchLen, Key;
    GroupState(1, source, destination[..], src, dst, cwordPtr, cword, tr);
    EntryRepeats(source, src, o, cached, used, lits, Seen(1, source, tr).starts, h);
    var matchlen := MatchLength(source, src, o);
    t := ChooseToken(source, Seen(1, source, tr), src, o, cached, used, lits, matchlen);
    EntryOffered(source, src, o, cached, used, lits, Seen(1, source, tr).starts, h, matchlen, t);
    var value, size := PickCode1(matchlen, h);
    tr' := PutCode(1, source, destination, src, dst, cwordPtr, cword, value, size, tr, t);
    StepStarts(Seen(1, source, tr), t);
    src', dst' := src + matchlen, dst + size;
  }

  lemma StepStarts(st: State, t: Token)
    requires t.Match? ==> 1 <= t.offset <= |st.out|
    ensures Step(st, t).starts == st.starts + {|st.out|}
  {
  }

  lemma EntryRepeats(s: seq<byte>, src: nat, o: nat, cached: int, used: int, lits: nat, starts: set<nat>, h: nat)
    requires src + 11 <= |s| && UseEntry(s, src, o, cached, used, lits) && Entry(s, starts, src, h, o, cached, used)
    ensures o < src && Repeats(s, src, 3, src - o)
  {
    TripleInjective(s, o, src);
  }

  /** The entry is the place that the match is to be made of, and the match is the longest. */
  lemma EntryOffered(s: seq<byte>, src: nat, o: nat, cached: int, used: int, lits: nat, starts: set<nat>, h: nat,
                     len: nat, t: Token)
    requires src + 11 <= |s| && UseEntry(s, src, o, cached, used, lits) && Entry(s, starts, src, h, o, cached, used)
    requires h == Key(s, src) && o < src && Repeats(s, src, 3, src - o)
    requires len == MatchLen(s, o, src, 3, Remaining(|s|, src))
    requires t.Match? && t.len == len && t.offset == if src - o > MINOFFSET then src - o else 3
    ensures Picked1(s, starts, lits, src, t)
  {
    hide Key, Triple, SameSix, Repeats, LongMatch;
    LongestIs(s, o, src, len);
    if src > 3 { SixEqual(s, src); }
    assert LatestStart(s, starts, src, o);
    assert Offered1(s, starts, lits, src, o, len);
  }

  /** An entry that may not be used: no match is offered. */
  lemma NothingOffered(s: seq<byte>, src: nat, o: nat, cached: int, used: int, lits: nat, starts: set<nat>)
    requires src + 11 <= |s| && !UseEntry(s, src, o, cached, used, lits)
    requires Entry(s, starts, src, Key(s, src), o, cached, used)
    ensures Picked1(s, starts, lits, src, Lit(s[src]))
  {
    hide Offered1;
    forall o': nat, len: nat ensures !Offered1(s, starts, lits, src, o', len) {
      if Offered1(s, starts, lits, src, o', len) { OfferUses(s, src, o, cached, used, lits, starts, o', len); }
    }
  }

  lemma OfferUses(s: seq<byte>, src: nat, o: nat, cached: int, used: int, lits: nat, starts: set<nat>, o': nat, len: nat)
    requires src + 11 <= |s| && Entry(s, starts, src, Key(s, src), o, cached, used)
    requires Offered1(s, starts, lits, src, o', len)
    ensures UseEntry(s, src, o, cached, used, lits)
  {
    hide Key, Triple, SameSix;
    SameTriple(s, o', src, len);
    if src > 3 { SixEqual(s, src); }
    assert used != 0 && LatestStart(s, starts, src, o);
    OneStart(s, starts, src, o, o');
  }

  lemma SameTriple(s: seq<byte>, o: nat, p: nat, len: nat)
    requires LongMatch(s, o, p, len)
    ensures Triple(s, o) == Triple(s, p)
  {
    assert s[p] == s[p - (p - o)] && s[p + 1] == s[p + 1 - (p - o)] && s[p + 2] == s[p + 2 - (p - o)];
  }

  /** Sends the byte at src as it is. */
  method SendLiteral(source: seq<byte>, destination: array<byte>, src: nat, dst: nat, cwordPtr: nat, cword: nat,
                     ghost tr: Trail)
    returns (ghost tr': Trail)
    requires Written(1, source, destination[..], src, dst, cwordPtr, cword, tr) && |tr.cur| < 31
    requires Valid(1, START, tr.toks, |source|) && dst < destination.Length && src < |source|
    modifies destination
    ensures Written(1, source, destination[..], src + 1, dst + 1, cwordPtr, cword / 2, tr')
    ensures Valid(1, START, tr'.toks, |source|) && Seen(1, source, tr').starts == Seen(1, source, tr).starts + {src}
    ensures |tr'.cur| == |tr.cur| + 1 && tr'.toks == tr.toks + [Lit(source[src])]
  {
    hide Written, Valid, Step, Run;
    GroupState(1, source, destination[..], src, dst, cwordPtr, cword, tr);
    tr' := PutLit(1, source, destination, src, dst, cwordPtr, cword, tr);
    StepStarts(Seen(1, source, tr), Lit(source[src]));
  }

  lemma EntryOf(s: seq<byte>, starts: set<nat>, src: nat, lits: nat,
                table: seq<nat>, cache: seq<int>, counter: seq<int>, h: nat)
    requires Ready(s, starts, src, lits, table, cache, counter) && h < HASH_VALUES
    ensures |table| == |cache| == |counter| == HASH_VALUES && Recent(starts, src, lits)
    ensures Entry(s, starts, src, h, table[h], cache[h], counter[h])
  {
  }

  /** One token: the longest match with the latest token start of the same hash, if it has the same bytes and lies far
      enough back or in a run of one byte; otherwise the byte itself. */
  method PutNext(source: seq<byte>, destination: array<byte>, table: array<nat>, cache: array<int>,
                 counter: array<int>, src: nat, dst: nat, cwordPtr: nat, cword: nat, fetch: nat, lits: nat,
                 ghost tr: Trail)
    returns (src': nat, dst': nat, cword': nat, fetch': nat, lits': nat, ghost tr': Trail, ghost t: Token)
    requires Written(1, source, destination[..], src, dst, cwordPtr, cword, tr) && |tr.cur| < 31
    requires Valid(1, START, tr.toks, |source|)
    requires src + 11 <= |source| && dst + 4 <= destination.Length && fetch == Triple(source, src)
    requires Ready(source, Seen(1, source, tr).starts, src, lits, table[..], cache[..], counter[..])
    requires destination as object != table && destination as object != cache && destination as object != counter
    requires cache != counter && table as object != cache && table as object != counter
    modifies destination, table, cache, counter
    ensures Written(1, source, destination[..], src', dst', cwordPtr, cword', tr') && |tr'.cur| == |tr.cur| + 1
    ensures Valid(1, START, tr'.toks, |source|)
    ensures src < src' < |source| && dst < dst' <= dst + 4 && dst' - dst <= src' - src
    ensures src' + 2 < |source| && fetch' == Triple(source, src')
    ensures Ready(source, Seen(1, source, tr').starts, src', lits', table[..], cache[..], counter[..])
    ensures tr'.toks == tr.toks + [t] && Picked1(source, Seen(1, source, tr).starts, lits, src, t) && src' == src + Span(t)
    ensures Seen(1, source, tr').starts == Seen(1, source, tr).starts + {src}
    ensures lits' == if t.Match? then 0 else lits + 1
  {
    hide Written, Hash, Ready, Valid, Entry, Recent, Triple, Run, LE, Picked1;
    ghost var starts := Seen(1, source, tr).starts;
    ghost var table0, cache0, counter0 := table[..], cache[..], counter[..];
    var h := Hash(fetch);
    EntryOf(source, starts, src, lits, table0, cache0, counter0, h);
    assert table.Length == cache.Length == counter.Length == HASH_VALUES;
    var o, cached := Touch(table, cache, h, src, fetch);
    if cached == fetch && counter[h] != 0 &&
       (src - o > MINOFFSET || (src == o + 1 && lits >= 3 && src > 3 && SameSix(source, src))) {
      src', dst', tr', t := SendMatch(source, destination, src, dst, cwordPtr, cword, h, o, cached, counter[h], lits, tr);
      cword' := cword / 2 + 0x8000_0000;
      lits' := 0;
      fetch' := FastRead(source, src', 3);
      LE3(source[src'..src' + 3]);
      TripleIs(source, src');
    } else {
      NothingOffered(source, src, o, cached, counter[h], lits, starts);
      t := Lit(source[src]);
      lits' := lits + 1;
      counter[h] := 1;
      tr' := SendLiteral(source, destination, src, dst, cwordPtr, cword, tr);
      src', dst', cword' := src + 1, dst + 1, cword / 2;
      ShiftFetch3(source, src);
      fetch' := fetch / 256 % 65536 + (source[src' + 2] as int) * 65536;
    }
    ReadyNext(source, starts, src, src', lits, lits', table0, cache0, counter0, counter[..]);
  }

  lemma TripleIs(s: seq<byte>, q: nat)
    requires q + 3 <= |s|
    ensures Triple(s, q) == LE(s[q..q + 3])
  {
    LE3(s[q..q + 3]);
  }

  /** The token starts and the literals counted are those of the tokens sent. */
  ghost predicate Known(s: seq<byte>, tr: Trail, lits: nat) {
    Valid(1, START, tr.toks, |s|) && Seen(1, s, tr).starts == StartsOf(tr.toks) && lits == LitsOf(tr.toks)
  }

  lemma KnownNext(s: seq<byte>, tr: Trail, tr': Trail, src: nat, t: Token, lits: nat, lits': nat, from: nat)
    requires Known(s, tr, lits) && Story(1, s, tr.toks, src, DEFAULT_HEADERLEN, from)
    requires tr'.toks == tr.toks + [t] && Valid(1, START, tr'.toks, |s|)
    requires Seen(1, s, tr').starts == Seen(1, s, tr).starts + {src} && lits' == if t.Match? then 0 else lits + 1
    ensures Known(s, tr', lits')
  {
    hide Valid, Run, Chosen, PaysBefore, Pos;
    assert tr'.toks[..|tr'.toks| - 1] == tr.toks;
  }

  /** The tokens chosen one after the other, or the source itself where that does not pay. */
  method CompressLevel1(source: seq<byte>) returns (d2: array<byte>)
    requires 0 < |source| <= MAX_SIZE - 400
    ensures fresh(d2) && Denotes(1, d2[..], source) && Compressed(1, d2[..], source) && 9 <= d2.Length <= |source| + 187
    ensures exists c: bool :: d2[..9] == Header(1, c, true, d2.Length, |source|)
  {
    hide Written, Ready, Room, Valid, Run, Triple, Holds, Header, Fails, Chosen, Complete, Story, Picked1;
    var n := |source|;
    ghost var from := From(source);
    var destination := new byte[n + 400](_ => 0);
    var table := new nat[HASH_VALUES](_ => 0);
    var cache := new int[HASH_VALUES](_ => 0);
    var counter := new int[HASH_VALUES](_ => 0);
    var src: nat, dst: nat, cwordPtr: nat, cword: nat, lits: nat, fetch: nat := 0, 13, 9, 0x8000_0000, 0, 0;
    var lastMatchstart := n - UNCONDITIONAL_MATCHLEN - UNCOMPRESSED_END - 1;
    ghost var tr, gs: nat, gd: nat, t := NOTHING, 0, 9, Lit(0);
    NothingWritten(1, source, destination[..]);
    RoomStarts(n);
    ReadyStarts(source, table[..], cache[..], counter[..]);
    NothingSeen(source);
    BetweenStarts(1, source, 9, from);
    if src <= lastMatchstart {
      fetch := FastRead(source, src, 3);
      TripleIs(source, src);
    }
    while src <= lastMatchstart
      invariant Written(1, source, destination[..], src, dst, cwordPtr, cword, tr) && src < n
      invariant Known(source, tr, lits) && Between(1, source, tr, src, 9, from)
      invariant Room(n, src, dst, gs, gd, |tr.cur|)
      invariant Ready(source, Seen(1, source, tr).starts, src, lits, table[..], cache[..], counter[..])
      invariant src <= lastMatchstart ==> fetch == Triple(source, src)
      invariant fresh(destination) && fresh(table) && fresh(cache) && fresh(counter)
    {
      ghost var tr0, lits0 := tr, lits;
      var stop;
      stop, dst, cwordPtr, cword, tr, gs, gd := StartGroup(1, source, destination, src, dst, cwordPtr, cword, tr, gs, gd);
      if stop {
        d2 := StoreRaw(1, source);
        ShowStored(1, d2[..], source, tr0.toks);
        return;
      }
      ghost var src0, dst0, count := src, dst, |tr.cur|;
      src, dst, cword, fetch, lits, tr, t :=
        PutNext(source, destination, table, cache, counter, src, dst, cwordPtr, cword, fetch, lits, tr);
      RoomToken(n, src0, dst0, gs, gd, count, src - src0, dst - dst0);
      BetweenNext(1, source, tr0, tr, src0, t, 9, from);
      KnownNext(source, tr0, tr, src0, t, lits0, lits, from);
    }
    GroupState(1, source, destination[..], src, dst, cwordPtr, cword, tr);
    RoomBound(n, src, dst, gs, gd, |tr.cur|);
    dst, cwordPtr, cword, tr := PutTail(1, source, destination, src, dst, cwordPtr, cword, tr, 9, from);
    d2 := Seal(1, source, destination, dst, cwordPtr, cword, tr);
    ShowCoded(1, d2[..], source, tr.toks);
  }

  lemma NothingSeen(s: seq<byte>)
    ensures Known(s, NOTHING, 0)
  {
  }
}
