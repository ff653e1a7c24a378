/** The compressor of quicklz.c at level 3, as quicklz.h configures it. */
module QuickLzNativeCompress {
  import opened Bits
  import opened Bytes
  import opened Lz
  import opened LittleEndian
  import opened QuickLzWord
  import opened QuickLzFormat
  import opened QuickLzChoice
  import opened QuickLzRow
  import opened QuickLzEncode
  import opened QuickLzCompress3

  // ---------- the table: its counters are unsigned bytes ----------

  method Enter(table: array2<nat>, counter: array<int>, h: nat, pos: nat, ghost s: seq<byte>)
    requires Table(table, counter, s, pos, 0) && pos + 3 <= |s| && h == Key(s, pos)
    modifies table, counter
    ensures Table(table, counter, s, pos + 1, 0)
    ensures counter[h] == (old(counter[h]) + 1) % 256 && table[h, old(counter[h]) % POINTERS] == pos
  {
    hide Key, AllRows;
    ghost var rows, counts := Rows(table), counter[..];
    RowOf(rows, counts, s, pos, 0, h);
    var c := counter[h];
    var k := c % POINTERS;
    table[h, k] := pos;
    counter[h] := (c + 1) % 256;
    assert Row(table, h) == Entered(rows[h], c, pos);
    assert forall i :: 0 <= i < HASH_VALUES && i != h ==> Row(table, i) == rows[i];
    assert Rows(table) == rows[h := Entered(rows[h], c, pos)];
    AllEntered(rows, counts, s, pos, 0, (c + 1) % 256);
  }

  /** The first place of the row. */
  method TryFirst(s: seq<byte>, src: nat, remaining: nat, o: nat, c: int, ghost row: seq<nat>)
    returns (matchlen: nat, offset2: nat)
    requires src + remaining <= |s| && 3 <= remaining && |row| == POINTERS && row[0] == o && 0 <= c
    requires InUse(c, 0) ==> o < src
    ensures BestOf(s, src, remaining, row, c, 1, matchlen, offset2)
  {
    hide LengthAt, BestOf;
    matchlen, offset2 := 0, o;
    BestOfNone(s, src, remaining, row, c, o);
    if c > 0 && o < src - MINOFFSET && s[o] == s[src] && s[o + 1] == s[src + 1] && s[o + 2] == s[src + 2] {
      matchlen := Extend(s, o, src, remaining);
      Better(s, src, remaining, row, c, 0, 0, o);
    } else {
      FirstNotBetter(s, src, remaining, row, c, o);
    }
  }

  lemma FirstNotBetter(s: seq<byte>, src: nat, remaining: nat, row: seq<nat>, c: int, o: nat)
    requires src + remaining <= |s| && 3 <= remaining && |row| == POINTERS
    requires !InUse(c, 0) || !Usable(s, row[0], src)
    ensures BestOf(s, src, remaining, row, c, 1, 0, o)
  {
    hide Usable, LengthAt;
  }

  /** The search of the compressor: the first place of the row is tried by itself, then the others in use. */
  method FindLongest(s: seq<byte>, src: nat, remaining: nat, table: array2<nat>, h: nat, c: int)
    returns (matchlen: nat, offset2: nat)
    requires src + remaining <= |s| && 3 <= remaining && table.Length1 == POINTERS && h < table.Length0 && 0 <= c
    requires forall k :: 0 <= k < POINTERS && InUse(c, k) ==> table[h, k] < src
    ensures BestOf(s, src, remaining, Row(table, h), c, POINTERS, matchlen, offset2)
  {
    hide LengthAt, BestOf;
    ghost var row := Row(table, h);
    matchlen, offset2 := TryFirst(s, src, remaining, table[h, 0], c, row);
    var k := 1;
    while k < POINTERS && c > k
      invariant 1 <= k <= POINTERS && BestOf(s, src, remaining, row, c, k, matchlen, offset2)
    {
      var o := table[h, k];
      assert o == row[k];
      if s[src] == s[o] && s[src + 1] == s[o + 1] && s[src + 2] == s[o + 2] && o < src - MINOFFSET {
        var m := Extend(s, o, src, remaining);
        if m > matchlen || (m == matchlen && o > offset2) {
          Better(s, src, remaining, row, c, k, matchlen, offset2);
          offset2 := o;
          matchlen := m;
        } else {
          NotBetter(s, src, remaining, row, c, k, matchlen, offset2);
        }
      } else {
        NotBetter(s, src, remaining, row, c, k, matchlen, offset2);
      }
      k := k + 1;
    }
    BestOfAll(s, src, remaining, row, c, k, matchlen, offset2);
  }

  method SearchAndEnter(source: seq<byte>, src: nat, table: array2<nat>, counter: array<int>)
    returns (matchlen: nat, o: nat)
    requires src + 11 <= |source| && Table(table, counter, source, src, 0)
    modifies table, counter
    ensures Table(table, counter, source, src + 1, 0) && Shape(table, counter)
    ensures var h := Key(source, src);
            BestOf(source, src, Remaining(|source|, src), old(Row(table, h)), old(counter[h]), POINTERS, matchlen, o)
  {
    hide Hash, BestOf, Table, RowHolds;
    var fetch := FastRead(source, src, 3);
    LE3(source[src..src + 3]);
    var h := Hash(fetch);
    TableMeans(table, counter, source, src, 0, h);
    matchlen, o := FindLongest(source, src, Remaining(|source|, src), table, h, counter[h]);
    Enter(table, counter, h, src, source);
  }

  /** The positions inside a match go into the table, too. */
  method EnterMatch(s: seq<byte>, table: array2<nat>, counter: array<int>, src: nat, matchlen: nat)
    requires Table(table, counter, s, src + 1, 0) && 0 < matchlen && src + matchlen + 2 <= |s|
    modifies table, counter
    ensures Table(table, counter, s, src + matchlen, 0)
  {
    hide Hash, Table;
    var u := 1;
    while u < matchlen
      invariant 1 <= u <= matchlen && Table(table, counter, s, src + u, 0)
    {
      var fetch := FastRead(s, src + u, 3);
      LE3(s[src + u..src + u + 3]);
      Enter(table, counter, Hash(fetch), src + u, s);
      u := u + 1;
    }
  }

  /** One token: the longest match that the table offers and of equally long ones the nearest, if it is not too far back;
      otherwise the byte itself. */
  method PutToken3(source: seq<byte>, destination: array<byte>, table: array2<nat>, counter: array<int>,
                   src: nat, dst: nat, cwordPtr: nat, cword: nat, ghost tr: Trail)
    returns (src': nat, dst': nat, cword': nat, ghost tr': Trail, ghost t: Token)
    requires Written(3, source, destination[..], src, dst, cwordPtr, cword, tr) && |tr.cur| < 31
    requires src + 11 <= |source| && dst + 4 <= destination.Length && Table(table, counter, source, src, 0)
    requires destination as object != counter
    modifies destination, table, counter
    ensures Written(3, source, destination[..], src', dst', cwordPtr, cword', tr') && |tr'.cur| == |tr.cur| + 1
    ensures tr'.toks == tr.toks + [t] && Picked3(source, src, t) && src' == src + Span(t)
    ensures src < src' < |source| && Table(table, counter, source, src', 0)
    ensures dst < dst' <= dst + 4 && dst' - dst <= src' - src
  {
    hide Written, Table, RowHolds, Hash, BestOf, Code3, Fits, CodeOf, Step, Row, Picked3;
    GroupState(3, source, destination[..], src, dst, cwordPtr, cword, tr);
    ghost var h := Key(source, src);
    TableMeans(table, counter, source, src, 0, h);
    ghost var row, c := Row(table, h), counter[h];
    var matchlen, o := SearchAndEnter(source, src, table, counter);
    if matchlen > 2 && src - o < 131071 {
      var offset := src - o;
      MatchFits(source, Seen(3, source, tr), src, row, c, matchlen, o);
      t := Match(matchlen, offset);
      EnterMatch(source, table, counter, src, matchlen);
      var value, size := PickCode(matchlen, offset);
      tr' := PutCode(3, source, destination, src, dst, cwordPtr, cword, value, size, tr, t);
      src', dst', cword' := src + matchlen, dst + size, cword / 2 + 0x8000_0000;
    } else {
      t := Lit(source[src]);
      tr' := PutLit(3, source, destination, src, dst, cwordPtr, cword, tr);
      src', dst', cword' := src + 1, dst + 1, cword / 2;
    }
    FoundIsPicked(source, src, row, c, 0, matchlen, o, t);
  }

  // ---------- room ----------

  /** As in the Java compressor, but the output is measured from its own beginning, and from the half of the source on. */
  ghost predicate Space(n: nat, src: nat, dst: nat, groupSrc: nat, groupDst: nat, count: nat) {
    count <= 31 && groupSrc + count <= src && 9 <= groupDst &&
    dst <= groupDst + 4 + (src - groupSrc) && dst <= groupDst + 4 + 4 * count &&
    (if groupSrc <= n / 2 then 31 * (groupDst - 9) <= 35 * groupSrc else groupDst - 9 <= groupSrc)
  }

  lemma SpaceBound(n: nat, src: nat, dst: nat, groupSrc: nat, groupDst: nat, count: nat)
    requires Space(n, src, dst, groupSrc, groupDst, count) && src <= n
    ensures dst <= n + 137
  {
    if groupSrc <= n / 2 { assert 31 * (groupDst - 9) <= 35 * (n / 2); }
  }

  lemma SpaceToken(n: nat, src: nat, dst: nat, groupSrc: nat, groupDst: nat, count: nat, span: nat, w: nat)
    requires Space(n, src, dst, groupSrc, groupDst, count) && count < 31 && w <= span && 1 <= w <= 4
    ensures Space(n, src + span, dst + w, groupSrc, groupDst, count + 1)
  {
  }

  lemma SpaceGroup(n: nat, src: nat, dst: nat, groupSrc: nat, groupDst: nat)
    requires Space(n, src, dst, groupSrc, groupDst, 31) && 9 <= dst
    requires !(src > n / 2 && dst - 9 > src - src / 32)
    ensures Space(n, src, dst + 4, src, dst, 0)
  {
    if src <= n / 2 {
      assert 31 * (dst - 9) <= 35 * groupSrc + 31 * (4 + (src - groupSrc));
    }
  }

  // ---------- compression ----------

  /** The body of a stream for s. */
  ghost predicate Coded(body: seq<byte>, s: seq<byte>, toks: seq<Token>) {
    Valid(3, START, toks, |s|) && Run(3, START, toks, |s|).out == s && body == Rest(Units(3, START, toks, |s|), 0)
  }

  /** Where the compressor begins to test the ratio. */
  function Half(s: seq<byte>): nat { |s| / 2 }

  lemma SpaceStarts(n: nat)
    ensures Space(n, 0, 13, 0, 9, 0)
  {
  }

  /** The beginning of a control word: `stop` where the coded form does not pay, otherwise a new group if the last one is
      full. */
  method NextGroup(s: seq<byte>, destination: array<byte>, src: nat, dst0: nat, cwordPtr0: nat, cword0: nat,
                   ghost tr0: Trail, ghost gs0: nat, ghost gd0: nat)
    returns (stop: bool, dst: nat, cwordPtr: nat, cword: nat, ghost tr: Trail, ghost gs: nat, ghost gd: nat)
    requires Written(3, s, destination[..], src, dst0, cwordPtr0, cword0, tr0)
    requires Between(3, s, tr0, src, 0, Half(s)) && Space(|s|, src, dst0, gs0, gd0, |tr0.cur|)
    requires src + 11 <= |s| && destination.Length == |s| + 400
    modifies destination
    ensures stop <==> Fails(3, s, tr0.toks, 0, Half(s))
    ensures Story(3, s, tr0.toks, src, 0, Half(s)) && Chosen(3, s, tr0.toks)
    ensures !stop ==>
              Written(3, s, destination[..], src, dst, cwordPtr, cword, tr) && |tr.cur| < 31 &&
              Space(|s|, src, dst, gs, gd, |tr.cur|) && dst + 4 <= destination.Length && tr.toks == tr0.toks
  {
    hide Written, Space, Fails, Between, Story, Chosen;
    var n := |s|;
    dst, cwordPtr, cword, tr, gs, gd := dst0, cwordPtr0, cword0, tr0, gs0, gd0;
    stop := false;
    GroupState(3, s, destination[..], src, dst, cwordPtr, cword, tr);
    SpaceBound(n, src, dst, gs, gd, |tr.cur|);
    Test(3, s, destination[..], src, dst, cwordPtr, cword, tr, 0, Half(s));
    if cword % 2 == 1 {
      if src > n / 2 && dst - 9 > src - src / 32 {
        stop := true;
        return;
      }
      SpaceGroup(n, src, dst, gs, gd);
      tr := Flush(3, s, destination, src, dst, cwordPtr, cword, tr);
      gs, gd := src, dst;
      cwordPtr := dst;
      dst := dst + CWORD_LEN;
      cword := 0x8000_0000;
      SpaceBound(n, src, dst, gs, gd, |tr.cur|);
    }
  }

  /** The last control word. */
  method FinishCore(s: seq<byte>, destination: array<byte>, dst: nat, cwordPtr: nat, cword: nat, ghost tr: Trail)
    requires Written(3, s, destination[..], |s|, dst, cwordPtr, cword, tr) && |tr.cur| > 0
    modifies destination
    ensures 9 <= dst <= destination.Length && Coded(destination[9..dst], s, tr.toks)
  {
    hide Written, Filling, Units, Rest, Word;
    GroupState(3, s, destination[..], |s|, dst, cwordPtr, cword, tr);
    var w := FinishWord(cword, tr.cur);
    ghost var was := destination[..];
    FastWrite(destination, cwordPtr, w, 4);
    LastGroup(3, s, was, destination[..], dst, cwordPtr, cword, w, tr);
  }

  /** From five bytes on the coded form has nine. */
  lemma NineBytes(body: seq<byte>, s: seq<byte>, toks: seq<Token>)
    requires Coded(body, s, toks) && |s| >= 5
    ensures |body| >= 9
  {
    var us := Units(3, START, toks, |s|);
    assert toks[0].Lit?;
    assert us[1..] == Units(3, Step(START, toks[0]), toks[1..], |s|);
    RestLength(3, Step(START, toks[0]), toks[1..], |s|, 30);
    hide Units, Lookup, Key, Word;
    assert Rest(us, 0) == BytesOf(Word(us, 31), 4) + Rest(us, 31);
  }

  /** How long the coded form of the tokens is. */
  ghost function CodedLen(s: seq<byte>, toks: seq<Token>): (n: nat) {
    if Valid(3, START, toks, |s|) then |Rest(Units(3, START, toks, |s|), 0)| else 0
  }

  /** qlz_compress_core, into a buffer whose first nine bytes are kept for the header; 0 exactly if it does not pay. */
  method CompressCore(source: seq<byte>) returns (destination: array<byte>, len: nat, ghost toks: seq<Token>)
    requires 0 < |source| <= 0xffff_ffff - 400
    ensures fresh(destination) && len + 9 <= destination.Length <= |source| + 400
    ensures len == 0 ==> GaveUp(3, source, toks, 0, Half(source))
    ensures len > 0 ==> Complete(3, source, toks, 0, Half(source)) && len == Max(9, CodedLen(source, toks))
    ensures |source| >= 5 && len > 0 ==> Coded(destination[9..9 + len], source, toks)
  {
    hide Written, Table, Space, Coded, Fails, Chosen, Complete, Story, Picked3, CodedLen;
    var n := |source|;
    ghost var from := Half(source);
    destination := new byte[n + 400](_ => 0);
    var table := new nat[HASH_VALUES, POINTERS]((_, _) => 0);
    var counter := new int[HASH_VALUES](_ => 0);
    var src: nat, dst: nat, cwordPtr: nat, cword: nat := 0, 13, 9, 0x8000_0000;
    var lastMatchstart := n - 1 - UNCONDITIONAL_MATCHLEN - UNCOMPRESSED_END;
    ghost var tr, gs: nat, gd: nat, t := NOTHING, 0, 9, Lit(0);
    toks := [];
    NothingWritten(3, source, destination[..]);
    SpaceStarts(n);
    TableStarts(table, counter, source, 0);
    BetweenStarts(3, source, 0, from);
    while src <= lastMatchstart
      invariant Written(3, source, destination[..], src, dst, cwordPtr, cword, tr) && src < n
      invariant Space(n, src, dst, gs, gd, |tr.cur|) && Table(table, counter, source, src, 0)
      invariant Between(3, source, tr, src, 0, from)
      invariant fresh(destination) && fresh(table) && fresh(counter) && destination as object != counter
    {
      ghost var tr0 := tr;
      var stop;
      stop, dst, cwordPtr, cword, tr, gs, gd := NextGroup(source, destination, src, dst, cwordPtr, cword, tr, gs, gd);
      if stop { return destination, 0, tr0.toks; }
      ghost var src0, dst0, count := src, dst, |tr.cur|;
      src, dst, cword, tr, t := PutToken3(source, destination, table, counter, src, dst, cwordPtr, cword, tr);
      SpaceToken(n, src0, dst0, gs, gd, count, src - src0, dst - dst0);
      BetweenNext(3, source, tr0, tr, src0, t, 0, from);
    }
    GroupState(3, source, destination[..], src, dst, cwordPtr, cword, tr);
    SpaceBound(n, src, dst, gs, gd, |tr.cur|);
    dst, cwordPtr, cword, tr := PutTail(3, source, destination, src, dst, cwordPtr, cword, tr, 0, from);
    FinishCore(source, destination, dst, cwordPtr, cword, tr);
    toks := tr.toks;
    CodedLength(destination[9..dst], source, toks);
    if |source| >= 5 { NineBytes(destination[9..dst], source, toks); }
    len := if dst - 9 < 9 then 9 else dst - 9;
  }

  lemma CodedLength(body: seq<byte>, s: seq<byte>, toks: seq<Token>)
    requires Coded(body, s, toks)
    ensures CodedLen(s, toks) == |body|
  {
    hide Valid, Units, Rest, Run;
  }
}
