/** Level 1: the decoder rebuilds the encoder's hash table from its own output. */
module QuickLzDecode1 {
  import opened Bytes
  import opened Lz
  import opened LittleEndian
  import opened QuickLzWord
  import opened QuickLzFormat
  import opened QuickLzDecode

  // ---------- the table ----------

  /** The table holds, under every hash, the latest token start below x. */
  ghost predicate TableOf(table: seq<nat>, st: State, x: nat) {
    |table| == HASH_VALUES && (x == 0 || x + 2 <= |st.out|) &&
    forall h :: 0 <= h < HASH_VALUES ==> table[h] == Lookup(st.out, st.starts, x, h)
  }

  /** Positions that are no token starts change nothing. */
  lemma {:induction false} LookupSkips(s: seq<byte>, starts: set<nat>, x: nat, y: nat, h: nat)
    requires x <= y && y + 2 <= |s|
    requires forall q :: x <= q < y ==> q !in starts
    ensures Lookup(s, starts, y, h) == Lookup(s, starts, x, h)
    decreases y
  {
    if x < y { LookupSkips(s, starts, x, y - 1, h); }
  }

  lemma {:induction false} LookupKeeps(s: seq<byte>, s': seq<byte>, starts: set<nat>, starts': set<nat>, x: nat, h: nat)
    requires x == 0 || x + 2 <= |s|
    requires s <= s' && forall q :: 0 <= q < x ==> (q in starts <==> q in starts')
    ensures Lookup(s', starts', x, h) == Lookup(s, starts, x, h)
    decreases x
  {
    if x > 0 {
      LookupKeeps(s, s', starts, starts', x - 1, h);
      assert Triple(s', x - 1) == Triple(s, x - 1);
    }
  }

  lemma TableSkips(table: seq<nat>, st: State, x: nat, y: nat)
    requires TableOf(table, st, x) && x <= y && y + 2 <= |st.out|
    requires forall q :: x <= q < y ==> q !in st.starts
    ensures TableOf(table, st, y)
  {
    forall h | 0 <= h < HASH_VALUES ensures table[h] == Lookup(st.out, st.starts, y, h) {
      LookupSkips(st.out, st.starts, x, y, h);
    }
  }

  lemma TableKeeps(table: seq<nat>, st: State, st': State, x: nat)
    requires TableOf(table, st, x) && st.out <= st'.out
    requires forall q :: 0 <= q < x ==> (q in st.starts <==> q in st'.starts)
    ensures TableOf(table, st', x)
  {
    forall h | 0 <= h < HASH_VALUES ensures table[h] == Lookup(st'.out, st'.starts, x, h) {
      LookupKeeps(st.out, st'.out, st.starts, st'.starts, x, h);
    }
  }

  lemma TableStores(table: seq<nat>, st: State, x: nat)
    requires TableOf(table, st, x) && x + 3 <= |st.out| && x in st.starts
    ensures TableOf(table[Key(st.out, x) := x], st, x + 1)
  {
  }

  // ---------- the decoder's bookkeeping ----------

  /** Token starts up to lastHashed are in the table; from there up to e every position is a start still to be hashed. */
  ghost predicate Hashed(table: seq<nat>, st: State, lastHashed: int, x: nat, e: nat) {
    TableOf(table, st, x) && -1 <= lastHashed < |st.out| && x <= lastHashed + 1 && e <= |st.out| &&
    (forall q :: x <= q <= lastHashed ==> q !in st.starts) &&
    (forall q :: lastHashed < q < e ==> q in st.starts) &&
    (forall q :: q in st.starts ==> q < |st.out|)
  }

  lemma HashNext(table: seq<nat>, st: State, lastHashed: int, x: nat, e: nat)
    requires Hashed(table, st, lastHashed, x, e) && lastHashed + 4 <= |st.out| && lastHashed + 1 < e
    ensures Hashed(table[Key(st.out, lastHashed + 1) := lastHashed + 1], st, lastHashed + 1, lastHashed + 2, e)
  {
    hide Lookup, Key;
    TableSkips(table, st, x, lastHashed + 1);
    TableStores(table, st, lastHashed + 1);
  }

  /** At a match the table answers as the stream format says. */
  lemma TableAnswers(table: seq<nat>, st: State, lastHashed: int, x: nat, h: nat)
    requires Hashed(table, st, lastHashed, x, |st.out|) && 3 <= |st.out| <= lastHashed + 3 && h < HASH_VALUES
    requires x + 2 <= |st.out|
    ensures table[h] == Lookup(st.out, st.starts, |st.out| - 2, h)
  {
    LookupSkips(st.out, st.starts, x, |st.out| - 2, h);
  }

  /** Taking a token leaves what was hashed; its start is one more position to hash. */
  lemma StepKeeps(table: seq<nat>, st: State, t: Token, lastHashed: int, x: nat)
    requires Hashed(table, st, lastHashed, x, |st.out|) && (t.Match? ==> 1 <= t.offset <= |st.out|)
    requires Span(t) > 0
    ensures Hashed(table, Step(st, t), lastHashed, x, |st.out| + 1)
  {
    hide Lookup, Copy;
    TableKeeps(table, st, Step(st, t), x);
  }

  /** Behind a match nothing is left to hash. */
  lemma MatchHashed(table: seq<nat>, st: State, t: Token)
    requires t.Match? && 1 <= t.offset <= |st.out| && 3 <= t.len
    requires Hashed(table, Step(st, t), |st.out|, |st.out| + 1, |st.out| + 1)
    requires forall q :: q in st.starts ==> q < |st.out|
    ensures Hashed(table, Step(st, t), |Step(st, t).out| - 1, |st.out| + 1, |Step(st, t).out|)
  {
    hide Lookup, Copy;
  }

  // ---------- the loops ----------

  /** After a literal: every start that has its three bytes by now. */
  method HashLiterals(destination: array<byte>, dst: nat, table: array<nat>, last0: int,
                      ghost st: State, ghost x0: nat)
    returns (lastHashed: int, ghost x: nat)
    requires dst <= destination.Length && st.out == destination[..dst] && last0 >= dst - 4
    requires Hashed(table[..], st, last0, x0, dst)
    modifies table
    ensures Hashed(table[..], st, lastHashed, x, dst) && lastHashed >= dst - 3
    ensures x + 2 <= dst || x == x0
  {
    hide Hashed, TableOf, Hash;
    lastHashed, x := last0, x0;
    HashedShape(table[..], st, lastHashed, x, dst);
    while lastHashed < dst - 3
      invariant Hashed(table[..], st, lastHashed, x, dst) && lastHashed >= -1 && table.Length == HASH_VALUES
      invariant lastHashed >= dst - 4 && (x + 2 <= dst || x == x0)
    {
      HashNext(table[..], st, lastHashed, x, dst);
      lastHashed := lastHashed + 1;
      var fetch2 := FastRead(destination[..], lastHashed, 3);
      LE3(destination[..][lastHashed..lastHashed + 3]);
      assert fetch2 == Triple(st.out, lastHashed);
      table[Hash(fetch2)] := lastHashed;
      x := lastHashed + 1;
    }
  }

  lemma HashedShape(table: seq<nat>, st: State, lastHashed: int, x: nat, e: nat)
    requires Hashed(table, st, lastHashed, x, e)
    ensures |table| == HASH_VALUES && -1 <= lastHashed < |st.out| && x <= lastHashed + 1
  {
  }

  /** After a match: the starts before it and its own, with the three bytes shifted along. */
  method HashMatch(destination: array<byte>, dst: nat, start: nat, table: array<nat>, last0: int,
                   ghost st: State, ghost x0: nat)
    requires dst < destination.Length && start + 3 <= dst && st.out == destination[..dst] && last0 < start
    requires Hashed(table[..], st, last0, x0, start + 1)
    modifies table
    ensures Hashed(table[..], st, start, start + 1, start + 1)
  {
    hide Hashed, TableOf, Hash;
    var lastHashed := last0;
    ghost var x: nat := x0;
    HashedShape(table[..], st, lastHashed, x, start + 1);
    var fetch := FastRead(destination[..], lastHashed + 1, 3);
    LE3(destination[..][lastHashed + 1..lastHashed + 4]);
    while lastHashed < start
      invariant Hashed(table[..], st, lastHashed, x, start + 1) && table.Length == HASH_VALUES
      invariant -1 <= lastHashed <= start && (lastHashed == last0 || x == lastHashed + 1)
      invariant lastHashed < start ==> fetch == Triple(destination[..], lastHashed + 1)
    {
      HashNext(table[..], st, lastHashed, x, start + 1);
      lastHashed := lastHashed + 1;
      assert fetch == Triple(st.out, lastHashed);
      table[Hash(fetch)] := lastHashed;
      x := lastHashed + 1;
      ShiftFetch3(destination[..], lastHashed);
      fetch := fetch / 256 % 65536 + (destination[lastHashed + 3] as int) * 65536;
    }
  }

  lemma FitsMatch1(st: State, t: Token, n: nat)
    requires Fits(1, st, t, n) && t.Match?
    ensures 3 <= t.len <= 255 && 3 <= t.offset <= |st.out| && |st.out| + t.len + UNCOMPRESSED_END <= n
    ensures var h := Key(st.out, |st.out| - t.offset);
            CodeOf(1, st, t, n) == Code1(t.len, h) &&
            Lookup(st.out, st.starts, |st.out| - 2, h) == |st.out| - t.offset
    ensures Step(st, t).out == Copy(st.out, t.offset, t.len)
  {
  }

  method Match1(source: seq<byte>, src: nat, destination: array<byte>, dst: nat, cword: nat, fetch: nat,
                table: array<nat>, last0: int,
                ghost st: State, ghost toks: seq<Token>, ghost left: nat, ghost s: seq<byte>, ghost x: nat)
    returns (src': nat, dst': nat, cword': nat, fetch': nat, lastHashed: int)
    requires At(1, source, src, cword, st, toks, left, s) && toks != [] && left > 0 && toks[0].Match?
    requires Fits(1, st, toks[0], |s|)
    requires destination.Length == |s| && dst < |s| && st.out == destination[..dst]
    requires src + 3 <= |source| && fetch == LE(source[src..src + 3])
    requires Hashed(table[..], st, last0, x, dst) && last0 >= dst - 3 && (x == 0 || x + 2 <= dst)
    modifies destination, table
    ensures At(1, source, src', cword', Step(st, toks[0]), toks[1..], left - 1, s)
    ensures dst + 3 <= dst' < |s| && Step(st, toks[0]).out == destination[..dst']
    ensures src' + 3 <= |source| && fetch' == LE(source[src'..src' + 3])
    ensures lastHashed == dst' - 1 && Hashed(table[..], Step(st, toks[0]), lastHashed, dst + 1, dst')
  {
    hide At, Decode1, Copy, LE, Code1, Fits, CodeOf, Shl8, Hashed, Lookup, Key;
    ghost var t := toks[0];
    FitsMatch1(st, t, |s|);
    ghost var h := Key(st.out, |st.out| - t.offset);
    ghost var c := Code1(t.len, h);
    MatchBytes(1, source, src, cword, st, toks, left, s, 3);
    LE3(source[src..src + 3]);
    Decode1Code1(t.len, h, LE(source[src + c.1..src + 3]));
    HashedShape(table[..], st, last0, x, dst);
    TableAnswers(table[..], st, last0, x, h);
    var (hash, matchlen, size) := Decode1(fetch);
    var offset2 := table[hash];
    cword' := cword / 2;
    src' := src + size;
    CopyBack(destination, dst, dst - offset2, matchlen);
    dst' := dst + matchlen;
    SomethingLeft(1, source, src', cword', Step(st, t), toks[1..], left - 1, s);
    StartsBelow(table[..], st, last0, x, dst);
    StepKeeps(table[..], st, t, last0, x);
    if last0 < dst {
      HashMatch(destination, dst', dst, table, last0, Step(st, t), x);
    }
    MatchHashed(table[..], st, t);
    fetch' := FastRead(source, src', 3);
    lastHashed := dst' - 1;
  }

  lemma StartsBelow(table: seq<nat>, st: State, lastHashed: int, x: nat, e: nat)
    requires Hashed(table, st, lastHashed, x, e)
    ensures forall q :: q in st.starts ==> q < |st.out|
  {
  }

  method DecodeLevel1(source: seq<byte>, src0: nat, destination: array<byte>,
                      ghost toks0: seq<Token>, ghost s: seq<byte>)
    requires At(1, source, src0, 1, START, toks0, 0, s) && s != [] && destination.Length == |s|
    modifies destination
    ensures destination[..] == s
  {
    hide At, Fits, Step, CodeOf, Copy, LE, Hashed, Lookup;
    var src: nat, dst: nat, cword: nat, fetch: nat, lastHashed := src0, 0, 1, 0, -1;
    var size := destination.Length;
    var table := new nat[HASH_VALUES](_ => 0);
    var lastMatchstart := size - UNCONDITIONAL_MATCHLEN - UNCOMPRESSED_END - 1;
    ghost var st: State, toks: seq<Token>, left: nat, x: nat := START, toks0, 0, 0;
    EmptyTable(table[..]);
    while true
      invariant At(1, source, src, cword, st, toks, left, s)
      invariant dst < size && st.out == destination[..dst] && fresh(table)
      invariant left > 0 && dst <= lastMatchstart ==> src + 3 <= |source| && fetch == LE(source[src..src + 3])
      invariant Hashed(table[..], st, lastHashed, x, dst) && lastHashed >= dst - 3 && (x == 0 || x + 2 <= dst)
      decreases |toks|
    {
      SomethingLeft(1, source, src, cword, st, toks, left, s);
      if cword == 1 {
        AtRefill(1, source, src, cword, st, toks, s);
        cword := FastRead(source, src, 4);
        src := src + 4;
        left := 31;
        SomethingLeft(1, source, src, cword, st, toks, left, s);
        if dst <= lastMatchstart {
          fetch := FastRead(source, src, 3);
        }
      }
      AtToken(1, source, src, cword, st, toks, left, s);
      if cword % 2 == 1 {
        ghost var start := dst;
        src, dst, cword, fetch, lastHashed :=
          Match1(source, src, destination, dst, cword, fetch, table, lastHashed, st, toks, left, s, x);
        x := start + 1;
      } else if dst <= lastMatchstart {
        LiteralBytes(1, source, src, cword, st, toks, left, s);
        SomethingLeft(1, source, src + 1, cword / 2, Step(st, toks[0]), toks[1..], left - 1, s);
        destination[dst] := source[src];
        assert destination[..dst + 1] == st.out + [toks[0].b];
        StepLiteral(st, toks[0]);
        StepKeeps(table[..], st, toks[0], lastHashed, x);
        dst := dst + 1;
        src := src + 1;
        cword := cword / 2;
        lastHashed, x := HashLiterals(destination, dst, table, lastHashed, Step(st, toks[0]), x);
        ShiftFetchLE3(source, src - 1);
        fetch := fetch / 256 % 65536 + (source[src + 2] as int) * 65536;
      } else {
        CopyTail(1, source, src, destination, dst, cword, st, toks, left, s);
        return;
      }
      st, toks, left := Step(st, toks[0]), toks[1..], left - 1;
    }
  }

  lemma EmptyTable(table: seq<nat>)
    requires |table| == HASH_VALUES && forall h :: 0 <= h < HASH_VALUES ==> table[h] == 0
    ensures Hashed(table, START, -1, 0, 0)
  {
  }

  lemma ShiftFetchLE3(source: seq<byte>, src: nat)
    requires src + 4 <= |source|
    ensures LE(source[src + 1..src + 4]) == LE(source[src..src + 3]) / 256 % 65536 + (source[src + 3] as int) * 65536
  {
    LE3(source[src..src + 3]);
    LE3(source[src + 1..src + 4]);
    ShiftFetch3(source, src);
    hide LE;
  }
}
