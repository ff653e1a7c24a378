/** The compressor of QuickLZ.java at level 3. */
module QuickLzCompress3 {
  import opened Bytes
  import opened Lz
  import opened LittleEndian
  import opened QuickLzWord
  import opened QuickLzFormat
  import opened QuickLzChoice
  import opened QuickLzRow
  import opened QuickLzEncode

  ghost function Row(table: array2<nat>, h: nat): (row: seq<nat>)
    requires table.Length1 == POINTERS && h < table.Length0
    reads table
    ensures |row| == POINTERS
  {
    seq(POINTERS, k requires 0 <= k < POINTERS reads table => table[h, k])
  }

  ghost function Rows(table: array2<nat>): (rows: seq<seq<nat>>)
    requires table.Length1 == POINTERS
    reads table
    ensures |rows| == table.Length0 && forall h :: 0 <= h < |rows| ==> rows[h] == Row(table, h)
  {
    seq(table.Length0, h requires 0 <= h < table.Length0 reads table => Row(table, h))
  }

  ghost predicate Shape(table: array2<nat>, counter: array<int>) {
    table.Length0 == HASH_VALUES && table.Length1 == POINTERS && counter.Length == HASH_VALUES
  }

  /** The hash table when the compressor has come to src: rows of 16 positions, and a byte per row that counts them, signed
      in Java (from -128 on) and unsigned in C. */
  ghost predicate Table(table: array2<nat>, counter: array<int>, s: seq<byte>, src: nat, low: int)
    reads table, counter
  {
    Shape(table, counter) && AllRows(Rows(table), counter[..], s, src, low)
  }

  /** byte arithmetic: c++ */
  function Bump(c: int): (r: int)
    requires -128 <= c < 128
    ensures -128 <= r < 128 && (r - c - 1) % 256 == 0
  {
    if c == 127 then -128 else c + 1
  }

  method Insert(table: array2<nat>, counter: array<int>, h: nat, pos: nat, ghost s: seq<byte>)
    requires Table(table, counter, s, pos, -128) && pos + 3 <= |s| && h == Key(s, pos)
    modifies table, counter
    ensures Table(table, counter, s, pos + 1, -128)
    ensures counter[h] == Bump(old(counter[h])) && table[h, old(counter[h]) % POINTERS] == pos
  {
    hide Key, AllRows;
    ghost var rows, counts := Rows(table), counter[..];
    RowOf(rows, counts, s, pos, -128, h);
    var c := counter[h];
    var k := c % POINTERS;
    table[h, k] := pos;
    counter[h] := Bump(c);
    assert Row(table, h) == Entered(rows[h], c, pos);
    assert forall i :: 0 <= i < HASH_VALUES && i != h ==> Row(table, i) == rows[i];
    assert Rows(table) == rows[h := Entered(rows[h], c, pos)];
    AllEntered(rows, counts, s, pos, -128, Bump(c));
  }

  lemma TableMeans(table: array2<nat>, counter: array<int>, s: seq<byte>, src: nat, low: int, h: nat)
    requires Table(table, counter, s, src, low) && h < HASH_VALUES
    ensures Shape(table, counter) && RowHolds(s, h, src, Row(table, h), counter[h], low)
    ensures low <= counter[h] < low + 256 && (low == 0 || low == -128)
    ensures forall k :: 0 <= k < POINTERS && InUse(counter[h], k) ==> table[h, k] < src
  {
    hide AllRows;
    var row := Row(table, h);
    RowOf(Rows(table), counter[..], s, src, low, h);
    assert forall k :: 0 <= k < POINTERS ==> table[h, k] == row[k];
  }

  /** Extends three equal bytes while the bytes agree, up to `remaining`. */
  method Extend(s: seq<byte>, o: nat, src: nat, remaining: nat) returns (m: nat)
    requires src + remaining <= |s| && 3 <= remaining && Usable(s, o, src)
    ensures m == LengthAt(s, o, src, remaining)
  {
    m := 3;
    while m < remaining && s[o + m] == s[src + m]
      invariant 3 <= m <= remaining && Repeats(s, src, m, src - o)
      invariant MatchLen(s, o, src, m, remaining) == LengthAt(s, o, src, remaining)
    {
      assert s[src + m] == s[src + m - (src - o)];
      m := m + 1;
    }
  }

  method FindBest(s: seq<byte>, src: nat, remaining: nat, table: array2<nat>, h: nat, c: int)
    returns (matchlen: nat, offset2: nat)
    requires src + remaining <= |s| && 3 <= remaining && table.Length1 == POINTERS && h < table.Length0
    requires forall k :: 0 <= k < POINTERS && InUse(c, k) ==> table[h, k] < src
    ensures BestOf(s, src, remaining, Row(table, h), c, POINTERS, matchlen, offset2)
  {
    hide LengthAt, BestOf;
    ghost var row := Row(table, h);
    matchlen, offset2 := 0, 0;
    var k := 0;
    BestOfNone(s, src, remaining, row, c, 0);
    while k < POINTERS && (c > k || c < 0)
      invariant 0 <= k <= POINTERS && BestOf(s, src, remaining, row, c, k, matchlen, offset2)
    {
      var o := table[h, k];
      assert o == row[k];
      if s[src] == s[o] && s[src + 1] == s[o + 1] && s[src + 2] == s[o + 2] && o < src - MINOFFSET {
        var m := Extend(s, o, src, remaining);
        if m > matchlen || (m == matchlen && o > offset2) {
          Better(s, src, remaining, row, c, k, matchlen, offset2);
          offset2 := o;
          matchlen := m;
        } else {
          NotBetter(s, src, remaining, row, c, k, matchlen, offset2);
        }
      } else {
        NotBetter(s, src, remaining, row, c, k, matchlen, offset2);
      }
      k := k + 1;
    }
    BestOfAll(s, src, remaining, row, c, k, matchlen, offset2);
  }

  /** Looks src up in the table and enters it. */
  method SearchAndInsert(source: seq<byte>, src: nat, table: array2<nat>, counter: array<int>)
    returns (matchlen: nat, o: nat)
    requires src + 11 <= |source| && Table(table, counter, source, src, -128)
    modifies table, counter
    ensures Table(table, counter, source, src + 1, -128)
    ensures Shape(table, counter)
    ensures var h := Key(source, src);
            BestOf(source, src, Remaining(|source|, src), old(Row(table, h)), old(counter[h]), POINTERS, matchlen, o)
  {
    hide Hash, BestOf, Table, RowHolds;
    var fetch := FastRead(source, src, 3);
    LE3(source[src..src + 3]);
    var h := Hash(fetch);
    TableMeans(table, counter, source, src, -128, h);
    matchlen, o := FindBest(source, src, Remaining(|source|, src), table, h, counter[h]);
    Insert(table, counter, h, src, source);
  }

  lemma MatchFits(s: seq<byte>, st: State, src: nat, row: seq<nat>, c: int, len: nat, o: nat)
    requires src + 11 <= |s| && st.out == s[..src] && |row| == POINTERS
    requires BestOf(s, src, Remaining(|s|, src), row, c, POINTERS, len, o) && len >= 3 && src - o < 131071
    ensures o <= src && Fits(3, st, Match(len, src - o), |s|) && Repeats(s, src, len, src - o) && 3 <= len <= 255
    ensures CodeOf(3, st, Match(len, src - o), |s|) == Code3(len, src - o) && src + len + UNCOMPRESSED_END <= |s|
  {
  }

  /** The positions inside a match go into the table, too. */
  method InsertMatch(s: seq<byte>, table: array2<nat>, counter: array<int>, src: nat, matchlen: nat)
    requires Table(table, counter, s, src + 1, -128) && 0 < matchlen && src + matchlen + 2 <= |s|
    modifies table, counter
    ensures Table(table, counter, s, src + matchlen, -128)
  {
    hide Hash, Table;
    var u := 1;
    while u < matchlen
      invariant 1 <= u <= matchlen && Table(table, counter, s, src + u, -128)
    {
      var fetch := FastRead(s, src + u, 3);
      LE3(s[src + u..src + u + 3]);
      Insert(table, counter, Hash(fetch), src + u, s);
      u := u + 1;
    }
  }

  /** Value and size of the code for a match, as the compressor picks them. */
  method PickCode(matchlen: nat, offset: nat) returns (value: nat, size: nat)
    requires 3 <= matchlen <= 255 && offset < 131071
    ensures (value, size) == Code3(matchlen, offset)
  {
    if matchlen == 3 && offset <= 63 {
      value, size := offset * 4, 1;
    } else if matchlen == 3 && offset <= 16383 {
      value, size := offset * 4 + 1, 2;
    } else if matchlen <= 18 && offset <= 1023 {
      value, size := (matchlen - 3) * 4 + offset * 64 + 2, 2;
    } else if matchlen <= 33 {
      value, size := (matchlen - 2) * 4 + offset * 128 + 3, 3;
    } else {
      value, size := (matchlen - 3) * 128 + offset * 32768 + 3, 4;
    }
  }

  lemma TableStarts(table: array2<nat>, counter: array<int>, s: seq<byte>, low: int)
    requires Shape(table, counter) && (low == 0 || low == -128)
    requires forall h :: 0 <= h < HASH_VALUES ==> counter[h] == 0
    ensures Table(table, counter, s, 0, low)
  {
    AllStart(Rows(table), counter[..], s, low);
  }

  /** One token: the longest match that the table offers and of equally long ones the nearest, if it is not too far back;
      otherwise the byte itself. */
  method PutNext(source: seq<byte>, destination: array<byte>, table: array2<nat>, counter: array<int>,
                 src: nat, dst: nat, cwordPtr: nat, cword: nat, ghost tr: Trail)
    returns (src': nat, dst': nat, cword': nat, ghost tr': Trail, ghost t: Token)
    requires Written(3, source, destination[..], src, dst, cwordPtr, cword, tr) && |tr.cur| < 31
    requires src + 11 <= |source| && dst + 4 <= destination.Length && Table(table, counter, source, src, -128)
    requires destination as object != counter
    modifies destination, table, counter
    ensures Written(3, source, destination[..], src', dst', cwordPtr, cword', tr') && |tr'.cur| == |tr.cur| + 1
    ensures tr'.toks == tr.toks + [t] && Picked3(source, src, t) && src' == src + Span(t)
    ensures src < src' < |source| && Table(table, counter, source, src', -128)
    ensures dst < dst' <= dst + 4 && dst' - dst <= src' - src
  {
    hide Written, Table, RowHolds, Hash, BestOf, Code3, Fits, CodeOf, Step, Row, Picked3;
    GroupState(3, source, destination[..], src, dst, cwordPtr, cword, tr);
    ghost var h := Key(source, src);
    TableMeans(table, counter, source, src, -128, h);
    ghost var row, c := Row(table, h), counter[h];
    var matchlen, o := SearchAndInsert(source, src, table, counter);
    if matchlen >= 3 && src - o < 131071 {
      var offset := src - o;
      MatchFits(source, Seen(3, source, tr), src, row, c, matchlen, o);
      t := Match(matchlen, offset);
      InsertMatch(source, table, counter, src, matchlen);
      var value, size := PickCode(matchlen, offset);
      tr' := PutCode(3, source, destination, src, dst, cwordPtr, cword, value, size, tr, t);
      src', dst', cword' := src + matchlen, dst + size, cword / 2 + 0x8000_0000;
    } else {
      t := Lit(source[src]);
      tr' := PutLit(3, source, destination, src, dst, cwordPtr, cword, tr);
      src', dst', cword' := src + 1, dst + 1, cword / 2;
    }
    FoundIsPicked(source, src, row, c, -128, matchlen, o, t);
  }

  /** The tokens chosen one after the other, or the source itself where that does not pay. */
  method CompressLevel3(source: seq<byte>) returns (d2: array<byte>)
    requires 0 < |source| <= MAX_SIZE - 400
    ensures fresh(d2) && Denotes(3, d2[..], source) && Compressed(3, d2[..], source) && 9 <= d2.Length <= |source| + 187
    ensures exists c: bool :: d2[..9] == Header(3, c, true, d2.Length, |source|)
  {
    hide Written, Table, Room, Holds, Header, Fails, Chosen, Complete, Story, Picked3;
    var n := |source|;
    ghost var from := From(source);
    var destination := new byte[n + 400](_ => 0);
    var table := new nat[HASH_VALUES, POINTERS]((_, _) => 0);
    var counter := new int[HASH_VALUES](_ => 0);
    var src: nat, dst: nat, cwordPtr: nat, cword: nat := 0, 13, 9, 0x8000_0000;
    var lastMatchstart := n - UNCONDITIONAL_MATCHLEN - UNCOMPRESSED_END - 1;
    ghost var tr, gs: nat, gd: nat, t := NOTHING, 0, 9, Lit(0);
    NothingWritten(3, source, destination[..]);
    RoomStarts(n);
    TableStarts(table, counter, source, -128);
    BetweenStarts(3, source, 9, from);
    while src <= lastMatchstart
      invariant Written(3, source, destination[..], src, dst, cwordPtr, cword, tr) && src < n
      invariant Room(n, src, dst, gs, gd, |tr.cur|) && Table(table, counter, source, src, -128)
      invariant Between(3, source, tr, src, 9, from)
      invariant fresh(destination) && fresh(table) && fresh(counter) && destination as object != counter
    {
      ghost var tr0 := tr;
      var stop;
      stop, dst, cwordPtr, cword, tr, gs, gd := StartGroup(3, source, destination, src, dst, cwordPtr, cword, tr, gs, gd);
      if stop {
        d2 := StoreRaw(3, source);
        ShowStored(3, d2[..], source, tr0.toks);
        return;
      }
      ghost var src0, dst0, count := src, dst, |tr.cur|;
      src, dst, cword, tr, t := PutNext(source, destination, table, counter, src, dst, cwordPtr, cword, tr);
      RoomToken(n, src0, dst0, gs, gd, count, src - src0, dst - dst0);
      BetweenNext(3, source, tr0, tr, src0, t, 9, from);
    }
    GroupState(3, source, destination[..], src, dst, cwordPtr, cword, tr);
    RoomBound(n, src, dst, gs, gd, |tr.cur|);
    dst, cwordPtr, cword, tr := PutTail(3, source, destination, src, dst, cwordPtr, cword, tr, 9, from);
    d2 := Seal(3, source, destination, dst, cwordPtr, cword, tr);
    ShowCoded(3, d2[..], source, tr.toks);
  }
}
