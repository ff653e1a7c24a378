/** A row of the hash table at level 3: what it holds, and what a search of it finds. */
module QuickLzRow {
  import opened Bytes
  import opened Lz
  import opened QuickLzFormat
  import opened QuickLzChoice

  const POINTERS := 16

  // ---------- what a row holds ----------

  /** The row of h when the compressor has come to p: its counter is the number of positions with the hash h, as a byte, and
      the latest of them are in it, each in the place that its number says. */
  ghost predicate RowHolds(s: seq<byte>, h: nat, p: nat, row: seq<nat>, c: int, low: int) {
    (p == 0 || p + 2 <= |s|) && |row| == POINTERS && low <= c < low + 256 && (c - Count(s, h, p)) % 256 == 0 &&
    forall k :: 0 <= k < POINTERS && k < Count(s, h, p) ==> InPlace(s, h, p, row[k], k)
  }

  ghost predicate InPlace(s: seq<byte>, h: nat, p: nat, q: nat, k: nat) {
    p + 2 <= |s| && Recorded(s, h, p, q) && Count(s, h, q) % POINTERS == k
  }

  lemma RowStarts(s: seq<byte>, h: nat, row: seq<nat>, low: int)
    requires |row| == POINTERS && low <= 0 < low + 256
    ensures RowHolds(s, h, 0, row, 0, low)
  {
  }

  function Entered(row: seq<nat>, c: int, p: nat): (row': seq<nat>)
    requires |row| == POINTERS
    ensures |row'| == POINTERS
  {
    row[c % POINTERS := p]
  }

  /** Another hash. */
  lemma RowKept(s: seq<byte>, h: nat, p: nat, row: seq<nat>, c: int, low: int)
    requires RowHolds(s, h, p, row, c, low) && p + 3 <= |s| && Key(s, p) != h
    ensures RowHolds(s, h, p + 1, row, c, low)
  {
    hide Key;
    forall k | 0 <= k < POINTERS && k < Count(s, h, p + 1) ensures InPlace(s, h, p + 1, row[k], k) {
      assert InPlace(s, h, p, row[k], k);
    }
  }

  /** Entering p takes the place of the one that falls out of the last 16. */
  lemma RowEntered(s: seq<byte>, p: nat, row: seq<nat>, c: int, c': int, low: int)
    requires p + 3 <= |s| && RowHolds(s, Key(s, p), p, row, c, low)
    requires low <= c' < low + 256 && (c' - c - 1) % 256 == 0
    ensures RowHolds(s, Key(s, p), p + 1, Entered(row, c, p), c', low)
  {
    var h := Key(s, p);
    var n := Count(s, h, p);
    assert Count(s, h, p + 1) == n + 1;
    hide Key, Count, InPlace, Entered;
    RowMeans(s, h, p, row, c, low);
    SameSlot(c, c', n);
    var row' := Entered(row, c, p);
    forall k | 0 <= k < POINTERS && k < n + 1 ensures InPlace(s, h, p + 1, row'[k], k) {
      SlotEntered(s, p, row, c, k);
    }
  }

  lemma SameSlot(c: int, c': int, n: nat)
    requires (c - n) % 256 == 0 && (c' - c - 1) % 256 == 0
    ensures c % POINTERS == n % POINTERS && (c' - (n + 1)) % 256 == 0
  {
  }

  lemma SlotEntered(s: seq<byte>, p: nat, row: seq<nat>, c: int, k: nat)
    requires p + 3 <= |s| && |row| == POINTERS && k < POINTERS && k <= Count(s, Key(s, p), p)
    requires k < Count(s, Key(s, p), p) ==> InPlace(s, Key(s, p), p, row[k], k)
    requires c % POINTERS == Count(s, Key(s, p), p) % POINTERS
    ensures InPlace(s, Key(s, p), p + 1, Entered(row, c, p)[k], k)
  {
    hide Key, Count, InPlace;
    var n := Count(s, Key(s, p), p);
    if k != n % POINTERS {
      Below(n, k);
      StaysInPlace(s, p, row[k], k);
    } else {
      NewInPlace(s, p);
    }
  }

  lemma Below(n: nat, k: nat)
    requires k < POINTERS && k <= n && k != n % POINTERS
    ensures k < n
  {
  }

  lemma RowMeans(s: seq<byte>, h: nat, p: nat, row: seq<nat>, c: int, low: int)
    requires RowHolds(s, h, p, row, c, low)
    ensures |row| == POINTERS && (p == 0 || p + 2 <= |s|) && (c - Count(s, h, p)) % 256 == 0
    ensures forall k :: 0 <= k < POINTERS && k < Count(s, h, p) ==> InPlace(s, h, p, row[k], k)
  {
  }

  lemma NewInPlace(s: seq<byte>, p: nat)
    requires p + 3 <= |s|
    ensures InPlace(s, Key(s, p), p + 1, p, Count(s, Key(s, p), p) % POINTERS)
  {
    hide Key;
  }

  lemma StaysInPlace(s: seq<byte>, p: nat, q: nat, k: nat)
    requires p + 3 <= |s| && InPlace(s, Key(s, p), p, q, k) && k != Count(s, Key(s, p), p) % POINTERS
    ensures InPlace(s, Key(s, p), p + 1, q, k)
  {
    var h := Key(s, p);
    assert Count(s, h, p + 1) == Count(s, h, p) + 1;
    hide Key, Count;
    NotSixteen(Count(s, h, p), Count(s, h, q), k);
  }

  lemma NotSixteen(n: nat, a: nat, k: nat)
    requires n - a <= 16 && a % 16 == k && n % 16 != k
    ensures n - a < 16
  {
  }

  // ---------- the places in use ----------

  /** The part of a row that is in use. */
  predicate InUse(c: int, k: nat) { c > k || c < 0 }

  ghost predicate InRow(row: seq<nat>, c: int, q: nat, upTo: nat)
    requires |row| == POINTERS && upTo <= POINTERS
  {
    exists k :: 0 <= k < upTo && InUse(c, k) && row[k] == q
  }

  lemma {:induction false} CountGrows(s: seq<byte>, h: nat, q: nat, p: nat)
    requires q < p && p + 2 <= |s| && Key(s, q) == h
    ensures Count(s, h, q) < Count(s, h, p)
    decreases p
  {
    hide Key;
    if q < p - 1 { CountGrows(s, h, q, p - 1); }
  }

  lemma UsedMeans(n: nat, c: int, low: int, k: nat)
    requires (low == 0 || low == -128) && low <= c < low + 256 && (c - n) % 256 == 0 && k < POINTERS
    ensures InUse(c, k) <==> k < n % 256
    ensures InUse(c, k) ==> k < n
  {
  }

  /** What is in use has been entered. */
  lemma UsedIsPlaced(s: seq<byte>, h: nat, p: nat, row: seq<nat>, c: int, low: int, k: nat)
    requires RowHolds(s, h, p, row, c, low) && (low == 0 || low == -128) && k < POINTERS && InUse(c, k)
    ensures InPlace(s, h, p, row[k], k) && row[k] < p
  {
    hide Count, Key;
    UsedMeans(Count(s, h, p), c, low, k);
  }

  lemma SamePlace(s: seq<byte>, h: nat, p: nat, q: nat, r: nat, k: nat)
    requires InPlace(s, h, p, q, k) && InPlace(s, h, p, r, k)
    ensures q == r
  {
    CountGrows(s, h, q, p);
    CountGrows(s, h, r, p);
    if q < r { CountGrows(s, h, q, r); }
    if r < q { CountGrows(s, h, r, q); }
    hide Count, Key;
    SameNumber(Count(s, h, p), Count(s, h, q), Count(s, h, r));
  }

  lemma SameNumber(n: nat, a: nat, b: nat)
    requires a % 16 == b % 16 && n - 16 <= a < n && n - 16 <= b < n
    ensures a == b
  {
  }

  /** The places in use hold exactly the positions that the compressor is said to see. */
  lemma SeenIs(s: seq<byte>, p: nat, row: seq<nat>, c: int, low: int, q: nat)
    requires p + 3 <= |s| && RowHolds(s, Key(s, p), p, row, c, low) && (low == 0 || low == -128)
    ensures Seen3(s, p, q) <==> InRow(row, c, q, POINTERS)
  {
    var h := Key(s, p);
    hide Count, Key;
    if Seen3(s, p, q) {
      var k := Count(s, h, q) % POINTERS;
      UsedMeans(Count(s, h, p), c, low, k);
      SamePlace(s, h, p, q, row[k], k);
    }
    if InRow(row, c, q, POINTERS) {
      var k :| 0 <= k < POINTERS && InUse(c, k) && row[k] == q;
      UsedMeans(Count(s, h, p), c, low, k);
      UsedIsPlaced(s, h, p, row, c, low, k);
    }
  }

  // ---------- all rows ----------

  ghost predicate AllRows(rows: seq<seq<nat>>, counts: seq<int>, s: seq<byte>, p: nat, low: int) {
    |rows| == |counts| == HASH_VALUES && (low == 0 || low == -128) &&
    forall h :: 0 <= h < HASH_VALUES ==> RowHolds(s, h, p, rows[h], counts[h], low)
  }

  lemma AllStart(rows: seq<seq<nat>>, counts: seq<int>, s: seq<byte>, low: int)
    requires |rows| == |counts| == HASH_VALUES && (low == 0 || low == -128)
    requires forall h :: 0 <= h < HASH_VALUES ==> counts[h] == 0 && |rows[h]| == POINTERS
    ensures AllRows(rows, counts, s, 0, low)
  {
    hide RowHolds;
    forall h | 0 <= h < HASH_VALUES ensures RowHolds(s, h, 0, rows[h], counts[h], low) {
      RowStarts(s, h, rows[h], low);
    }
  }

  /** The row of p's hash is entered, the others are kept. */
  lemma AllEntered(rows: seq<seq<nat>>, counts: seq<int>, s: seq<byte>, p: nat, low: int, c': int)
    requires AllRows(rows, counts, s, p, low) && p + 3 <= |s|
    requires low <= c' < low + 256 && (c' - counts[Key(s, p)] - 1) % 256 == 0
    ensures var h := Key(s, p);
            |rows[h]| == POINTERS &&
            AllRows(rows[h := Entered(rows[h], counts[h], p)], counts[h := c'], s, p + 1, low)
  {
    hide RowHolds, Key;
    var key := Key(s, p);
    RowMeans(s, key, p, rows[key], counts[key], low);
    var rows' := rows[key := Entered(rows[key], counts[key], p)];
    forall h | 0 <= h < HASH_VALUES ensures RowHolds(s, h, p + 1, rows'[h], counts[key := c'][h], low) {
      if h == key {
        RowEntered(s, p, rows[h], counts[h], c', low);
      } else {
        RowKept(s, h, p, rows[h], counts[h], low);
      }
    }
  }

  lemma RowOf(rows: seq<seq<nat>>, counts: seq<int>, s: seq<byte>, p: nat, low: int, h: nat)
    requires AllRows(rows, counts, s, p, low) && h < HASH_VALUES
    ensures RowHolds(s, h, p, rows[h], counts[h], low)
    ensures |rows[h]| == POINTERS && low <= counts[h] < low + 256 && (low == 0 || low == -128)
    ensures forall k :: 0 <= k < POINTERS && InUse(counts[h], k) ==> rows[h][k] < p
  {
    hide Key, Count, InPlace;
    forall k | 0 <= k < POINTERS && InUse(counts[h], k) ensures rows[h][k] < p {
      UsedIsPlaced(s, h, p, rows[h], counts[h], low, k);
    }
  }

  // ---------- searching a row ----------

  /** A position of the row that the compressor may copy from: three equal bytes, and far enough back. */
  predicate Usable(s: seq<byte>, o: nat, src: nat)
    requires src + 3 <= |s|
  {
    o < src - MINOFFSET && s[o] == s[src] && s[o + 1] == s[src + 1] && s[o + 2] == s[src + 2]
  }

  function LengthAt(s: seq<byte>, o: nat, src: nat, remaining: nat): (len: nat)
    requires src + remaining <= |s| && 3 <= remaining && src + 3 <= |s| && Usable(s, o, src)
    ensures 3 <= len <= remaining && Repeats(s, src, len, src - o)
  {
    MatchLen(s, o, src, 3, remaining)
  }

  /** The best match among the first k positions of the row: longest, and of equally long ones the nearest. */
  ghost predicate BestOf(s: seq<byte>, src: nat, remaining: nat, row: seq<nat>, c: int, k: nat,
                         matchlen: nat, offset2: nat)
    requires src + remaining <= |s| && 3 <= remaining && |row| == POINTERS && k <= POINTERS
  {
    (matchlen > 0 ==>
       InRow(row, c, offset2, k) && Usable(s, offset2, src) && matchlen == LengthAt(s, offset2, src, remaining)) &&
    (forall j :: 0 <= j < k && InUse(c, j) && Usable(s, row[j], src) ==>
       LengthAt(s, row[j], src, remaining) < matchlen ||
       (LengthAt(s, row[j], src, remaining) == matchlen && row[j] <= offset2))
  }

  lemma BestOfNone(s: seq<byte>, src: nat, remaining: nat, row: seq<nat>, c: int, o: nat)
    requires src + remaining <= |s| && 3 <= remaining && |row| == POINTERS
    ensures BestOf(s, src, remaining, row, c, 0, 0, o)
  {
  }

  lemma NotBetter(s: seq<byte>, src: nat, remaining: nat, row: seq<nat>, c: int, k: nat, matchlen: nat, offset2: nat)
    requires src + remaining <= |s| && 3 <= remaining && |row| == POINTERS && k < POINTERS
    requires BestOf(s, src, remaining, row, c, k, matchlen, offset2)
    requires Usable(s, row[k], src) ==>
               var m := LengthAt(s, row[k], src, remaining); m < matchlen || (m == matchlen && row[k] <= offset2)
    ensures BestOf(s, src, remaining, row, c, k + 1, matchlen, offset2)
  {
    hide LengthAt, Usable;
  }

  lemma Better(s: seq<byte>, src: nat, remaining: nat, row: seq<nat>, c: int, k: nat, matchlen: nat, offset2: nat)
    requires src + remaining <= |s| && 3 <= remaining && |row| == POINTERS && k < POINTERS
    requires BestOf(s, src, remaining, row, c, k, matchlen, offset2) && InUse(c, k) && Usable(s, row[k], src)
    requires var m := LengthAt(s, row[k], src, remaining); m > matchlen || (m == matchlen && row[k] > offset2)
    ensures BestOf(s, src, remaining, row, c, k + 1, LengthAt(s, row[k], src, remaining), row[k])
  {
    hide LengthAt, Usable;
  }

  /** The places behind the first unused one are unused, too. */
  lemma BestOfAll(s: seq<byte>, src: nat, remaining: nat, row: seq<nat>, c: int, k: nat, matchlen: nat, offset2: nat)
    requires src + remaining <= |s| && 3 <= remaining && |row| == POINTERS && k <= POINTERS
    requires BestOf(s, src, remaining, row, c, k, matchlen, offset2) && (k < POINTERS ==> !InUse(c, k))
    ensures BestOf(s, src, remaining, row, c, POINTERS, matchlen, offset2)
  {
    hide LengthAt, Usable;
  }

  /** Usable positions have a match, and the length found is its length. */
  lemma LengthIs(s: seq<byte>, o: nat, p: nat, len: nat)
    requires p + 11 <= |s| && Usable(s, o, p) && len == LengthAt(s, o, p, Remaining(|s|, p))
    ensures LongMatch(s, o, p, len)
  {
    hide LengthAt, Repeats, LongMatch, Remaining;
    LengthMeans(s, o, p, Remaining(|s|, p), len);
    LongestIs(s, o, p, len);
  }

  lemma LengthMeans(s: seq<byte>, o: nat, src: nat, remaining: nat, len: nat)
    requires src + remaining <= |s| && 3 <= remaining && Usable(s, o, src) && len == LengthAt(s, o, src, remaining)
    ensures 3 <= len <= remaining && (len == remaining || s[o + len] != s[src + len])
  {
    hide Repeats;
  }

  lemma MatchUsable(s: seq<byte>, o: nat, p: nat, len: nat)
    requires p + 11 <= |s| && p - o > 2 && LongMatch(s, o, p, len)
    ensures Usable(s, o, p) && len == LengthAt(s, o, p, Remaining(|s|, p))
  {
    assert s[p] == s[p - (p - o)] && s[p + 1] == s[p + 1 - (p - o)] && s[p + 2] == s[p + 2 - (p - o)];
    var found := LengthAt(s, o, p, Remaining(|s|, p));
    LengthIs(s, o, p, found);
    OneLength(s, o, p, len, found);
  }

  /** What the search finds is the best offer. */
  lemma FoundIsBest(s: seq<byte>, p: nat, row: seq<nat>, c: int, low: int, matchlen: nat, o: nat)
    requires p + 11 <= |s| && RowHolds(s, Key(s, p), p, row, c, low) && (low == 0 || low == -128)
    requires BestOf(s, p, Remaining(|s|, p), row, c, POINTERS, matchlen, o)
    ensures matchlen > 0 ==> BestOffer(s, p, o, matchlen) && o + 2 < p && 3 <= matchlen
    ensures matchlen == 0 ==> forall q: nat, len: nat :: !Offered(s, p, q, len)
  {
    hide RowHolds, Seen3, LongMatch, Key, Remaining;
    forall q: nat, len: nat | Offered(s, p, q, len) ensures 3 <= len && (len < matchlen || (len == matchlen && q <= o)) {
      OfferRanks(s, p, row, c, low, matchlen, o, q, len);
    }
    if matchlen > 0 {
      SeenIs(s, p, row, c, low, o);
      LengthIs(s, o, p, matchlen);
    }
  }

  lemma OfferRanks(s: seq<byte>, p: nat, row: seq<nat>, c: int, low: int, matchlen: nat, o: nat, q: nat, len: nat)
    requires p + 11 <= |s| && RowHolds(s, Key(s, p), p, row, c, low) && (low == 0 || low == -128)
    requires BestOf(s, p, Remaining(|s|, p), row, c, POINTERS, matchlen, o) && Offered(s, p, q, len)
    ensures 3 <= len && (len < matchlen || (len == matchlen && q <= o))
  {
    SeenIs(s, p, row, c, low, q);
    MatchUsable(s, q, p, len);
    hide RowHolds, Seen3, LongMatch, Key, Remaining, LengthAt, Usable;
  }

  /** The token made of it is the one that follows. */
  lemma FoundIsPicked(s: seq<byte>, p: nat, row: seq<nat>, c: int, low: int, matchlen: nat, o: nat, t: Token)
    requires p + 11 <= |s| && RowHolds(s, Key(s, p), p, row, c, low) && (low == 0 || low == -128)
    requires BestOf(s, p, Remaining(|s|, p), row, c, POINTERS, matchlen, o)
    requires t == if matchlen >= 3 && p - o < 131071 then Match(matchlen, p - o) else Lit(s[p])
    ensures Picked3(s, p, t)
  {
    hide RowHolds, BestOf, BestOffer, Offered, Key;
    FoundIsBest(s, p, row, c, low, matchlen, o);
    forall q: nat, len: nat | BestOffer(s, p, q, len) ensures matchlen > 0 && q == o {
      if matchlen > 0 { OneBest(s, p, q, len, o, matchlen); } else { BestIsOffered(s, p, q, len); }
    }
  }

  lemma BestIsOffered(s: seq<byte>, p: nat, q: nat, len: nat)
    requires BestOffer(s, p, q, len)
    ensures Offered(s, p, q, len)
  {
  }
}
