/** The linked hash table of json-c (linkhash.c): open addressing with tombstones, and a list in order of insertion. */
module LinkHash {
  import opened Bytes

  /** What the key pointer of a slot says: never used, freed, or an entry. */
  datatype Mark<K, V> = Empty | Freed | Live(key: K, value: V)

  /** A slot; slots are referred to by their index, NULL being NONE. */
  datatype Entry<K, V> = Entry(mark: Mark<K, V>, next: int, prev: int)

  const NONE := -1

  // ---------- the table as a value ----------

  type Slots<K, V> = seq<Entry<K, V>>

  /** The live slots, in order of insertion. */
  ghost predicate Lists<K, V>(s: Slots<K, V>, order: seq<nat>) {
    (forall i :: 0 <= i < |order| ==> order[i] < |s| && s[order[i]].mark.Live?) &&
    (forall i, j :: 0 <= i < j < |order| ==> order[i] != order[j]) &&
    (forall n :: 0 <= n < |s| && s[n].mark.Live? ==> n in order)
  }

  ghost function At(order: seq<nat>, i: int): int {
    if 0 <= i < |order| then order[i] else NONE
  }

  /** The pointers of the live slots follow the order. */
  ghost predicate Chained<K, V>(s: Slots<K, V>, order: seq<nat>, head: int, tail: int)
    requires Lists(s, order)
  {
    head == At(order, 0) && tail == At(order, |order| - 1) &&
    forall i :: 0 <= i < |order| ==> s[order[i]].next == At(order, i + 1) && s[order[i]].prev == At(order, i - 1)
  }

  /** x is probed before n by a search that starts at h. */
  predicate Before(h: int, x: int, n: int) {
    if h <= n then h <= x < n else h <= x || x < n
  }

  /** The slot at which a search for the key starts. */
  function Home<K>(hash: K -> nat, k: K, size: nat): (h: nat)
    requires size > 0
    ensures h < size
  {
    hash(k) % size
  }

  /** No slot on the way from its home to a live entry is empty. */
  ghost predicate Probed<K, V>(s: Slots<K, V>, hash: K -> nat) {
    forall x, n :: 0 <= x < |s| && 0 <= n < |s| && s[n].mark.Live? && Before(Home(hash, s[n].mark.key, |s|), x, n)
      ==> !s[x].mark.Empty?
  }

  ghost predicate Good<K, V>(s: Slots<K, V>, hash: K -> nat, order: seq<nat>, head: int, tail: int) {
    Lists(s, order) && Chained(s, order, head, tail) && Probed(s, hash)
  }

  /** The entries in order of insertion. */
  ghost function Contents<K, V>(s: Slots<K, V>, order: seq<nat>): (c: seq<(K, V)>)
    requires Lists(s, order)
    ensures |c| == |order|
    ensures forall i :: 0 <= i < |c| ==> c[i] == (s[order[i]].mark.key, s[order[i]].mark.value)
  {
    seq(|order|, i requires 0 <= i < |order| => (s[order[i]].mark.key, s[order[i]].mark.value))
  }

  predicate Stops<K(==), V>(m: Mark<K, V>, k: K) { m.Empty? || (m.Live? && m.key == k) }

  /** Some slot is empty or holds the key: exactly then a search for the key comes to an end. */
  ghost predicate SearchEnds<K, V>(s: Slots<K, V>, k: K) {
    exists n :: 0 <= n < |s| && Stops(s[n].mark, k)
  }

  /** The slot n is the first in probing order that stops a search for the key. */
  ghost predicate FirstStop<K, V>(s: Slots<K, V>, hash: K -> nat, k: K, n: int) {
    0 <= n < |s| && Stops(s[n].mark, k) &&
    forall x :: 0 <= x < |s| && Before(Home(hash, k, |s|), x, n) ==> !Stops(s[x].mark, k)
  }

  /** What a search yields: the first slot in probing order that stops it, or NONE if that is an empty one; in that case
      no slot at all holds the key. */
  ghost predicate Found<K, V>(s: Slots<K, V>, hash: K -> nat, k: K, r: int) {
    if r == NONE then
      (exists n :: FirstStop(s, hash, k, n) && s[n].mark.Empty?) &&
      forall n :: 0 <= n < |s| ==> s[n].mark.Live? ==> s[n].mark.key != k
    else FirstStop(s, hash, k, r) && s[r].mark.Live?
  }

  function Following(n: nat, size: nat): nat { if n + 1 == size then 0 else n + 1 }

  /** The slot that a search for the key looks at after i steps, in a table of which `size` slots are used. */
  function Probe<K>(hash: K -> nat, k: K, size: nat, i: nat): (n: nat)
    requires size > 0
    ensures n < size
  {
    if i == 0 then Home(hash, k, size) else Following(Probe(hash, k, size, i - 1), size)
  }

  lemma {:induction false} ProbeAt<K>(hash: K -> nat, k: K, size: nat, i: nat)
    requires i < size
    ensures Probe(hash, k, size, i) == Home(hash, k, size) + i - if Home(hash, k, size) + i < size then 0 else size
  {
    if i > 0 { ProbeAt(hash, k, size, i - 1); }
  }

  /** Whatever the number of slots in use, the search comes to an end if and only if one of them can end it. */
  lemma ProbeEnds<K, V>(s: Slots<K, V>, hash: K -> nat, k: K, size: nat)
    requires 0 < size <= |s|
    ensures (exists i: nat :: Stops(s[Probe(hash, k, size, i)].mark, k)) <==> SearchEnds(s[..size], k)
  {
    if SearchEnds(s[..size], k) {
      var n :| 0 <= n < size && Stops(s[..size][n].mark, k);
      var i := Distance(Home(hash, k, size), n, size);
      ProbeAt(hash, k, size, i);
      assert Probe(hash, k, size, i) == n;
    }
    forall i: nat | Stops(s[Probe(hash, k, size, i)].mark, k) ensures SearchEnds(s[..size], k) {
      assert Stops(s[..size][Probe(hash, k, size, i)].mark, k);
    }
  }

  /** How far a search from h has to go to get to n. */
  function Distance(h: int, n: int, size: int): int { if h <= n then n - h else n - h + size }

  lemma Advance(h: nat, n: nat, target: nat, size: nat)
    requires h < size && n < size && target < size && n != target && !Before(h, target, n)
    ensures var n' := Following(n, size);
            !Before(h, target, n') && Distance(n', target, size) == Distance(n, target, size) - 1 &&
            forall x :: 0 <= x < size && Before(h, x, n') ==> Before(h, x, n) || x == n
  {
  }

  /** A search that ends on an empty slot has not missed an entry of the key. */
  lemma NotMissed<K, V>(s: Slots<K, V>, hash: K -> nat, k: K, n: nat)
    requires Probed(s, hash) && FirstStop(s, hash, k, n) && s[n].mark.Empty?
    ensures Found(s, hash, k, NONE)
  {
  }

  // ---------- changes to the table ----------

  /** All slots that a search from h passes before n are in use. */
  ghost predicate Passed<K, V>(s: Slots<K, V>, h: nat, n: nat) {
    forall x :: 0 <= x < |s| && Before(h, x, n) ==> !s[x].mark.Empty?
  }

  /** Every slot that a search from h passes before n holds an entry. */
  ghost predicate AllTaken<K, V>(s: Slots<K, V>, h: nat, n: nat) {
    forall x :: 0 <= x < |s| && Before(h, x, n) ==> s[x].mark.Live?
  }

  /** Only slot n has a new mark. */
  ghost predicate Marked<K, V>(s: Slots<K, V>, s': Slots<K, V>, n: nat, m: Mark<K, V>) {
    n < |s| == |s'| && s'[n].mark == m && forall x :: 0 <= x < |s| && x != n ==> s'[x].mark == s[x].mark
  }

  /** Slot n held an entry and has been freed. */
  ghost predicate Emptied<K, V>(s: Slots<K, V>, s': Slots<K, V>, n: nat) {
    Marked(s, s', n, Freed) && s[n].mark.Live?
  }

  lemma ListsAppended<K, V>(s: Slots<K, V>, s': Slots<K, V>, order: seq<nat>, n: nat, m: Mark<K, V>)
    requires Lists(s, order) && Marked(s, s', n, m) && !s[n].mark.Live? && m.Live?
    ensures Lists(s', order + [n]) && Contents(s', order + [n]) == Contents(s, order) + [(m.key, m.value)]
  {
    var o := order + [n];
    assert forall i :: 0 <= i < |order| ==> o[i] == order[i];
    assert o[|order|] == n;
    forall x | 0 <= x < |s'| && s'[x].mark.Live? ensures x in o {
      if x != n { assert x in order; }
    }
    assert Lists(s', o);
  }

  lemma ProbedAppended<K, V>(s: Slots<K, V>, s': Slots<K, V>, hash: K -> nat, n: nat, m: Mark<K, V>)
    requires Probed(s, hash) && Marked(s, s', n, m) && m.Live? && Passed(s, Home(hash, m.key, |s|), n)
    ensures Probed(s', hash)
  {
    hide Before, Home;
  }

  /** The links after the slot n has been put at the end of the list. */
  ghost predicate Extended<K, V>(s: Slots<K, V>, s': Slots<K, V>, tail: int, n: nat) {
    n < |s| == |s'| && s'[n].next == NONE && s'[n].prev == tail &&
    forall x :: 0 <= x < |s| && x != n ==>
      s'[x].prev == s[x].prev && s'[x].next == if x == tail then n else s[x].next
  }

  lemma ChainAppended<K, V>(s: Slots<K, V>, s': Slots<K, V>, order: seq<nat>, head: int, tail: int, n: nat)
    requires Lists(s, order) && Chained(s, order, head, tail) && Extended(s, s', tail, n) && !s[n].mark.Live?
    requires Lists(s', order + [n])
    ensures Chained(s', order + [n], if head == NONE then n else head, n)
  {
    var o := order + [n];
    forall i | 0 <= i < |o|
      ensures s'[o[i]].next == At(o, i + 1) && s'[o[i]].prev == At(o, i - 1)
    {
      if i < |order| {
        assert o[i] == order[i] && order[i] != n;
        if i + 1 < |order| { assert order[i] != order[|order| - 1]; }
      }
    }
  }

  function Without<T>(o: seq<T>, p: nat): (r: seq<T>)
    requires p < |o|
    ensures |r| == |o| - 1 && forall i :: 0 <= i < |r| ==> r[i] == if i < p then o[i] else o[i + 1]
  {
    o[..p] + o[p + 1..]
  }

  lemma StillIn<T>(o: seq<T>, p: nat, x: T)
    requires p < |o| && x in o && x != o[p]
    ensures x in Without(o, p)
  {
    var i :| 0 <= i < |o| && o[i] == x;
    assert Without(o, p)[if i < p then i else i - 1] == x;
  }

  lemma ListsRemoved<K, V>(s: Slots<K, V>, s': Slots<K, V>, order: seq<nat>, p: nat)
    requires Lists(s, order) && p < |order| && Marked(s, s', order[p], Freed)
    ensures Lists(s', Without(order, p))
  {
    var o := Without(order, p);
    forall x | 0 <= x < |s'| && s'[x].mark.Live? ensures x in o {
      StillIn(order, p, x);
    }
    Distinct(order, p);
    assert forall i :: 0 <= i < |o| ==> o[i] == order[if i < p then i else i + 1];
    assert forall i :: 0 <= i < |order| && i != p ==> order[i] != order[p];
    assert forall i :: 0 <= i < |o| ==> o[i] < |s'| && s'[o[i]].mark.Live?;
  }

  lemma ContentsRemoved<K, V>(s: Slots<K, V>, s': Slots<K, V>, order: seq<nat>, p: nat)
    requires Lists(s, order) && p < |order| && Marked(s, s', order[p], Freed) && Lists(s', Without(order, p))
    ensures Contents(s', Without(order, p)) == Without(Contents(s, order), p)
  {
    var o, c := Without(order, p), Contents(s, order);
    hide Without, Contents;
    forall i | 0 <= i < |o| ensures Contents(s', o)[i] == Without(c, p)[i] {
      var j := if i < p then i else i + 1;
      assert o[i] == order[j] && order[j] != order[p];
    }
  }

  lemma ProbedRemoved<K, V>(s: Slots<K, V>, s': Slots<K, V>, hash: K -> nat, n: nat)
    requires Probed(s, hash) && Marked(s, s', n, Freed)
    ensures Probed(s', hash)
  {
    hide Before, Home;
  }

  /** The links after the slot n has been taken out of the list. */
  ghost predicate Unlinked<K, V>(s: Slots<K, V>, s': Slots<K, V>, n: nat) {
    n < |s| == |s'| &&
    forall x :: 0 <= x < |s| && x != n ==>
      s'[x].next == (if x == s[n].prev then s[n].next else s[x].next) &&
      s'[x].prev == (if x == s[n].next then s[n].prev else s[x].prev)
  }

  lemma ChainRemoved<K, V>(s: Slots<K, V>, s': Slots<K, V>, order: seq<nat>, head: int, tail: int, p: nat)
    requires Lists(s, order) && Chained(s, order, head, tail) && p < |order| && Unlinked(s, s', order[p])
    requires Lists(s', Without(order, p))
    ensures var n := order[p];
            Chained(s', Without(order, p), if head == n then s[n].next else head, if tail == n then s[n].prev else tail)
  {
    var o := Without(order, p);
    LinksRemoved(s, s', order, o, head, tail, p);
    EndsRemoved(s, order, head, tail, p);
    hide Without, Lists, At, Unlinked;
  }

  lemma LinksRemoved<K, V>(s: Slots<K, V>, s': Slots<K, V>, order: seq<nat>, o: seq<nat>, head: int, tail: int, p: nat)
    requires Lists(s, order) && Chained(s, order, head, tail) && p < |order| && Unlinked(s, s', order[p])
    requires o == Without(order, p) && Lists(s', o)
    ensures forall i :: 0 <= i < |o| ==> s'[o[i]].next == At(o, i + 1) && s'[o[i]].prev == At(o, i - 1)
  {
    assert forall i :: 0 <= i < |o| ==> o[i] < |s'|;
    hide Without, Lists, Chained, At, Unlinked;
    forall i | 0 <= i < |o|
      ensures s'[o[i]].next == At(o, i + 1) && s'[o[i]].prev == At(o, i - 1)
    {
      RemovedAt(s, s', order, o, head, tail, p, i);
    }
  }

  lemma RemovedAt<K, V>(s: Slots<K, V>, s': Slots<K, V>, order: seq<nat>, o: seq<nat>, head: int, tail: int, p: nat,
                        i: nat)
    requires Lists(s, order) && Chained(s, order, head, tail) && p < |order| && Unlinked(s, s', order[p])
    requires o == Without(order, p) && i < |o| && o[i] < |s'|
    ensures s'[o[i]].next == At(o, i + 1) && s'[o[i]].prev == At(o, i - 1)
  {
    var j := if i < p then i else i + 1;
    AtWithout(order, p, i);
    hide At, Without;
    Neighbours(s, order, head, tail, p, j);
    assert s[order[j]].next == At(order, j + 1) && s[order[j]].prev == At(order, j - 1);
    assert s[order[p]].next == At(order, p + 1) && s[order[p]].prev == At(order, p - 1);
    hide Lists, Chained;
  }

  lemma AtWithout(order: seq<nat>, p: nat, i: nat)
    requires p < |order| && i < |order| - 1
    ensures var o, j := Without(order, p), if i < p then i else i + 1;
            o[i] == order[j] &&
            At(o, i + 1) == At(order, if j == p - 1 then p + 1 else j + 1) &&
            At(o, i - 1) == At(order, if j == p + 1 then p - 1 else j - 1)
  {
  }

  lemma EndsRemoved<K, V>(s: Slots<K, V>, order: seq<nat>, head: int, tail: int, p: nat)
    requires Lists(s, order) && Chained(s, order, head, tail) && p < |order|
    ensures var n, o := order[p], Without(order, p);
            At(o, 0) == (if head == n then s[n].next else head) &&
            At(o, |o| - 1) == (if tail == n then s[n].prev else tail)
  {
    if p > 0 { Neighbours(s, order, head, tail, p, 0); }
    if p < |order| - 1 { Neighbours(s, order, head, tail, p, |order| - 1); }
    assert s[order[p]].next == At(order, p + 1) && s[order[p]].prev == At(order, p - 1);
    hide Lists;
  }

  /** Whether the j-th element of the list is next to the p-th. */
  lemma Neighbours<K, V>(s: Slots<K, V>, order: seq<nat>, head: int, tail: int, p: nat, j: nat)
    requires Lists(s, order) && Chained(s, order, head, tail) && p < |order| && j < |order| && j != p
    ensures order[j] != order[p]
    ensures order[j] == s[order[p]].prev <==> j == p - 1
    ensures order[j] == s[order[p]].next <==> j == p + 1
  {
  }

  lemma Distinct(order: seq<nat>, p: nat)
    requires forall i, j :: 0 <= i < j < |order| ==> order[i] != order[j]
    requires p < |order|
    ensures var o := Without(order, p); forall i, j :: 0 <= i < j < |o| ==> o[i] != o[j]
  {
  }

  /** A list of distinct slots that has all of them is at least as long as the table. */
  lemma {:induction false} Pigeonhole(order: seq<nat>, size: nat)
    requires forall i, j :: 0 <= i < j < |order| ==> order[i] != order[j]
    requires forall n: nat :: n < size ==> n in order
    ensures |order| >= size
    decreases size
  {
    if size > 0 {
      var last: nat := size - 1;
      assert last in order;
      var p :| 0 <= p < |order| && order[p] == last;
      var o := Without(order, p);
      forall n: nat | 0 <= n < size - 1 ensures n in o {
        StillIn(order, p, n);
      }
      Distinct(order, p);
      Pigeonhole(o, size - 1);
    }
  }

  /** Fewer entries than slots: some slot is free. */
  lemma SomeFree<K, V>(s: Slots<K, V>, order: seq<nat>) returns (n: nat)
    requires Lists(s, order) && |order| < |s|
    ensures n < |s| && !s[n].mark.Live?
  {
    if forall n :: 0 <= n < |s| ==> s[n].mark.Live? {
      Pigeonhole(order, |s|);
    }
    n :| 0 <= n < |s| && !s[n].mark.Live?;
  }

  // ---------- sizes ----------

  /** So many entries can be entered one by one into a table of this size without it being enlarged. */
  predicate Roomy(count: nat, size: nat) { (count - 1) * 100 <= size * 66 }

  /** The size of a table made with `size` slots once so many entries have been entered. */
  function Grown(size: nat, count: nat): nat {
    if count == 0 then size
    else
      var n := Grown(size, count - 1);
      if (count - 1) * 100 > n * 66 then 2 * n else n
  }

  lemma {:induction false} GrownIs(size: nat, count: nat)
    requires size > 0
    ensures size <= Grown(size, count) && (Grown(size, count) == size <==> Roomy(count, size))
  {
    if count > 0 { GrownIs(size, count - 1); }
  }

  lemma GrownNone(size: nat)
    ensures Grown(size, 0) == size
  {
  }

  /** The next entry enlarges the table if it is overloaded; that does not happen if there is room for all. */
  lemma GrownNext(size: nat, i: nat, count: nat)
    requires size > 0 && i < count
    ensures Grown(size, i + 1) == if i * 100 > Grown(size, i) * 66 then 2 * Grown(size, i) else Grown(size, i)
    ensures Roomy(count, size) ==> i * 100 <= Grown(size, i) * 66
  {
    GrownIs(size, i);
  }

  // ---------- the table in memory ----------

  class LinkHash<K(==), V> {
    const hash: K -> nat
    var size: nat
    var count: nat
    var head: int
    var tail: int
    var table: array<Entry<K, V>>
    ghost var order: seq<nat>

    ghost predicate Valid()
      reads this, table
    {
      size == table.Length > 0 && count == |order| <= size && Good(table[..], hash, order, head, tail)
    }

    /** The entries in order of insertion. */
    ghost function Entries(): seq<(K, V)>
      requires Valid()
      reads this, table
    {
      Contents(table[..], order)
    }

    /** lh_table_new. */
    constructor (size: nat, hash: K -> nat)
      requires size > 0
      ensures Valid() && fresh(table) && this.size == size && this.hash == hash && Entries() == []
      ensures count == 0 && NoneFreed() && forall n :: 0 <= n < size ==> table[n].mark.Empty?
    {
      this.hash := hash;
      this.size := size;
      count, head, tail := 0, NONE, NONE;
      table := new Entry[size](_ => Entry(Empty, NONE, NONE));
      order := [];
    }

    /** lh_table_lookup_entry; the search ends exactly if some slot can end it. */
    method LookupEntry(k: K) returns (r: int)
      requires Valid() && SearchEnds(table[..], k)
      ensures Found(table[..], hash, k, r)
    {
      ghost var s := table[..];
      var n: nat := Home(hash, k, size);
      ghost var target: nat :| target < size && Stops(s[target].mark, k);
      hide Lists, Chained, Good, Probed;
      while true
        invariant n < size && s == table[..] && !Before(Home(hash, k, size), target, n)
        invariant forall x :: 0 <= x < size && Before(Home(hash, k, size), x, n) ==> !Stops(s[x].mark, k)
        decreases Distance(n, target, size)
      {
        if table[n].mark.Empty? {
          Reveal();
          NotMissed(s, hash, k, n);
          return NONE;
        }
        if !table[n].mark.Freed? && table[n].mark.key == k { return n; }
        Advance(Home(hash, k, size), n, target, size);
        n := Following(n, size);
      }
    }

    lemma Reveal()
      requires Valid()
      ensures Probed(table[..], hash) && Lists(table[..], order) && Chained(table[..], order, head, tail)
    {
    }

    /** More than 0.66 of the slots hold entries. */
    predicate Overloaded()
      reads this
    {
      count * 100 > size * 66
    }

    /** No slot has been freed. */
    ghost predicate NoneFreed()
      reads this, table
    {
      forall n :: 0 <= n < table.Length ==> !table[n].mark.Freed?
    }

    ghost predicate SomeEmpty()
      reads this, table
    {
      exists n :: 0 <= n < table.Length && table[n].mark.Empty?
    }

    /** The probing loop of lh_table_insert: the first slot from home that holds no entry. */
    method FindFree(k: K) returns (n: nat)
      requires Valid() && count < size
      ensures n < size && !table[n].mark.Live? && AllTaken(table[..], Home(hash, k, size), n)
    {
      ghost var s := table[..];
      Reveal();
      ghost var target := SomeFree(s, order);
      hide Lists, Chained, Good, Probed;
      n := Home(hash, k, size);
      while true
        invariant n < size && s == table[..] && !Before(Home(hash, k, size), target, n)
        invariant forall x :: 0 <= x < size && Before(Home(hash, k, size), x, n) ==> s[x].mark.Live?
        decreases Distance(n, target, size)
      {
        if table[n].mark.Empty? || table[n].mark.Freed? { return; }
        Advance(Home(hash, k, size), n, target, size);
        n := Following(n, size);
      }
    }

    /** The slot i is filled, and linked at the end of the list. */
    method Attach(i: nat, k: K, v: V)
      requires size == table.Length && i < size && !table[i].mark.Live?
      requires head == NONE <==> tail == NONE
      requires head != NONE ==> 0 <= tail < size && tail != i
      modifies this, table
      ensures size == old(size) && table == old(table) && count == old(count) + 1 && order == old(order) + [i]
      ensures Marked(old(table[..]), table[..], i, Live(k, v)) && Extended(old(table[..]), table[..], old(tail), i)
      ensures tail == i && head == if old(head) == NONE then i else old(head)
    {
      table[i] := table[i].(mark := Live(k, v));
      count := count + 1;
      if head == NONE {
        head, tail := i, i;
        table[i] := table[i].(next := NONE, prev := NONE);
      } else {
        table[tail] := table[tail].(next := i);
        table[i] := table[i].(prev := tail);
        table[i] := table[i].(next := NONE);
        tail := i;
      }
      order := order + [i];
    }

    /** lh_table_insert from the probing on. */
    method Place(k: K, v: V) returns (ghost n: nat)
      requires Valid() && count < size
      modifies this, table
      ensures Valid() && size == old(size) && table == old(table) && count == old(count) + 1
      ensures Entries() == old(Entries()) + [(k, v)]
      ensures Marked(old(table[..]), table[..], n, Live(k, v)) && !old(table[..])[n].mark.Live?
      ensures AllTaken(old(table[..]), Home(hash, k, old(size)), n)
    {
      ghost var s, o, h, t := table[..], order, head, tail;
      Reveal();
      EndsOfList(s, order, head, tail);
      var i := FindFree(k);
      n := i;
      assert Passed(s, Home(hash, k, size), n);
      hide Lists, Chained, Probed, Contents, Before, Marked, Extended, AllTaken;
      Attach(i, k, v);
      ListsAppended(s, table[..], o, n, Live(k, v));
      ProbedAppended(s, table[..], hash, n, Live(k, v));
      ChainAppended(s, table[..], o, h, t, n);
    }

    /** lh_table_insert: a table that is overloaded is first made twice as large. */
    method Insert(k: K, v: V) returns (ghost n: nat)
      requires Valid()
      modifies this, table
      ensures Valid() && count == old(count) + 1 && Entries() == old(Entries()) + [(k, v)]
      ensures size == if old(Overloaded()) then 2 * old(size) else old(size)
      ensures if old(Overloaded()) then fresh(table) else table == old(table)
      ensures !old(Overloaded()) ==>
        Marked(old(table[..]), table[..], n, Live(k, v)) && AllTaken(old(table[..]), Home(hash, k, old(size)), n) &&
        !old(table[..])[n].mark.Live?
      ensures old(NoneFreed()) || old(Overloaded()) ==> NoneFreed()
      ensures (old(NoneFreed()) && old(size) >= 3) || (old(Overloaded()) && old(size) >= 2) ==> SomeEmpty()
      decreases if Overloaded() then 2 else 0, 0
    {
      hide Good, Contents, Lists, Marked, AllTaken;
      if count * 100 > size * 66 { Resize(size * 2); }
      ghost var s := table[..];
      n := Place(k, v);
      if forall x :: 0 <= x < |s| ==> !s[x].mark.Freed? {
        StillNoneFreed(s, n, Live(k, v));
        if count < size { SomeLeft(); }
      }
    }

    lemma StillNoneFreed(s: Slots<K, V>, n: nat, m: Mark<K, V>)
      requires Marked(s, table[..], n, m) && m.Live? && forall x :: 0 <= x < |s| ==> !s[x].mark.Freed?
      ensures NoneFreed()
    {
      assert forall x :: 0 <= x < table.Length ==> table[x] == table[..][x];
    }

    lemma SomeLeft()
      requires Valid() && count < size && NoneFreed()
      ensures SomeEmpty()
    {
      Reveal();
      var n := SomeFree(table[..], order);
    }

    /** A new table into which all entries are entered, in their order. */
    method Reentered(newSize: nat) returns (t: LinkHash<K, V>)
      requires Valid() && newSize > 0
      ensures fresh(t) && fresh(t.table) && t.Valid() && t.hash == hash && t.NoneFreed()
      ensures t.size == Grown(newSize, count) && t.count == count && t.Entries() == Entries()
      decreases if Roomy(count, newSize) then 1 else 3, 0
    {
      hide *;
      t := new LinkHash<K, V>(newSize, hash);
      var ent := head;
      ghost var i: nat := 0;
      ghost var c := Entries();
      GrownNone(newSize);
      HeadIs();
      assert c[..0] == [];
      while ent != NONE
        invariant fresh(t) && fresh(t.table) && t.Valid() && t.hash == hash && t.NoneFreed()
        invariant t.size == Grown(newSize, i) && t.count == i <= |c| == count && ent == PointerTo(i)
        invariant t.Entries() == c[..i]
        decreases |c| - i
      {
        PointerAt(i);
        TakeOneMore(c, i);
        GrownNext(newSize, i, count);
        t.OverloadedIs();
        ghost var n := t.Insert(table[ent].mark.key, table[ent].mark.value);
        ent := table[ent].next;
        i := i + 1;
      }
      PointerAt(i);
      assert c[..i] == c;
    }

    /** The i-th slot of the list, NONE behind its end. */
    ghost function PointerTo(i: nat): int
      reads this
    {
      At(order, i)
    }

    lemma HeadIs()
      requires Valid()
      ensures |Entries()| == count && head == PointerTo(0)
    {
    }

    lemma PointerAt(i: nat)
      requires Valid() && i <= |Entries()|
      ensures |Entries()| == count && (PointerTo(i) == NONE <==> i == |Entries()|)
      ensures i < |Entries()| ==>
        0 <= PointerTo(i) < table.Length && var e := table[PointerTo(i)];
        e.mark.Live? && e.next == PointerTo(i + 1) && Entries()[i] == (e.mark.key, e.mark.value)
    {
      if i < |order| { Element(i); }
      hide Chained, Probed;
    }

    lemma OverloadedIs()
      ensures Overloaded() <==> count * 100 > size * 66
    {
    }

    /** lh_table_resize: the entries go into a new table, which may have been enlarged while they were entered; the
        size noted is the one asked for. The table stays in order exactly if the two are the same. */
    method Resize(newSize: nat)
      requires Valid() && newSize > 0
      modifies this
      ensures fresh(table) && size == newSize && table.Length == Grown(newSize, count) && count == old(count)
      ensures |order| == count <= table.Length && Good(table[..], hash, order, head, tail) && NoneFreed()
      ensures Lists(table[..], order) && Contents(table[..], order) == old(Entries())
      ensures Valid() <==> Roomy(count, newSize)
      ensures Valid() ==> Entries() == old(Entries()) && (newSize >= 3 ==> SomeEmpty())
      decreases if Roomy(count, newSize) then 1 else 3, 1
    {
      hide Good, Contents, Lists, Probed, Grown;
      GrownIs(newSize, count);
      var t := Reentered(newSize);
      Adopt(t, newSize);
      if newSize >= 3 && Roomy(count, newSize) { SomeLeft(); }
    }

    /** The slots of the table t become those of this one. */
    method Adopt(t: LinkHash<K, V>, newSize: nat)
      requires t.Valid() && t.hash == hash && t.count == count && t.NoneFreed()
      modifies this
      ensures size == newSize && table == old(t.table) && table.Length == old(t.size) > 0 && count == old(count)
      ensures |order| == count <= table.Length && Good(table[..], hash, order, head, tail) && NoneFreed()
      ensures Lists(table[..], order) && Contents(table[..], order) == old(t.Entries())
      ensures Valid() <==> newSize == table.Length
      ensures Valid() ==> Entries() == old(t.Entries())
    {
      t.Reveal();
      hide Good, Contents, Lists, Probed;
      table := t.table;
      size := newSize;
      head := t.head;
      tail := t.tail;
      order := t.order;
    }

    lemma Element(i: nat)
      requires Valid() && i < |order|
      ensures order[i] < table.Length && var e := table[order[i]];
              e.mark.Live? && e.next == At(order, i + 1) && |Entries()| == |order| &&
              Entries()[i] == (e.mark.key, e.mark.value)
    {
    }

    /** The slot n is freed and taken out of the list, whose neighbours are as the pointers say. */
    method Unlink(n: nat)
      requires size == table.Length && n < size && count > 0 && table[n].mark.Live?
      requires head == n <==> table[n].prev == NONE
      requires tail == n <==> table[n].next == NONE
      requires table[n].prev != NONE ==> 0 <= table[n].prev < size && table[n].prev != n
      requires table[n].next != NONE ==> 0 <= table[n].next < size && table[n].next != n
      modifies this, table
      ensures size == old(size) && table == old(table) && count == old(count) - 1 && order == old(order)
      ensures Marked(old(table[..]), table[..], n, Freed) && Unlinked(old(table[..]), table[..], n)
      ensures head == if old(head) == n then old(table[n].next) else old(head)
      ensures tail == if old(tail) == n then old(table[n].prev) else old(tail)
    {
      count := count - 1;
      table[n] := table[n].(mark := Freed);
      if tail == n && head == n {
        head, tail := NONE, NONE;
      } else if head == n {
        table[table[n].next] := table[table[n].next].(prev := NONE);
        head := table[n].next;
      } else if tail == n {
        table[table[n].prev] := table[table[n].prev].(next := NONE);
        tail := table[n].prev;
      } else {
        table[table[n].prev] := table[table[n].prev].(next := table[n].next);
        table[table[n].next] := table[table[n].next].(prev := table[n].prev);
      }
      table[n] := table[n].(next := NONE, prev := NONE);
    }

    /** lh_table_delete_entry: a slot that holds an entry, the p-th of the list, is freed. */
    method DeleteEntry(e: int) returns (rc: int, ghost p: nat)
      requires Valid() && e < size
      modifies this, table
      ensures Valid() && size == old(size) && table == old(table)
      ensures rc == if e < 0 then -2 else if old(table[e]).mark.Live? then 0 else -1
      ensures rc != 0 ==> table[..] == old(table[..]) && Entries() == old(Entries())
      ensures rc == 0 ==> p < |old(order)| && old(order)[p] == e && Entries() == Without(old(Entries()), p)
      ensures rc == 0 ==> count == old(count) - 1 && Emptied(old(table[..]), table[..], e)
    {
      p := 0;
      if e < 0 { return -2, p; }
      if table[e].mark.Empty? || table[e].mark.Freed? { return -1, p; }
      ghost var s, o, h, t := table[..], order, head, tail;
      Reveal();
      assert s[e].mark.Live?;
      p := PositionOf(s, o, e);
      rc := 0;
      NextTo(s, o, h, t, p);
      hide Good, Lists, Chained, Probed, Contents, Before, Marked, Unlinked, Without, At;
      Unlink(e);
      order := Without(order, p);
      ListsRemoved(s, table[..], o, p);
      ContentsRemoved(s, table[..], o, p);
      ProbedRemoved(s, table[..], hash, e);
      ChainRemoved(s, table[..], o, h, t, p);
      Renew(o, p);
    }

    lemma Renew(o: seq<nat>, p: nat)
      requires p < |o| && order == Without(o, p) && size == table.Length > 0 && count == |o| - 1 && |o| <= size
      requires Lists(table[..], order) && Chained(table[..], order, head, tail) && Probed(table[..], hash)
      ensures Valid()
    {
    }

    /** lh_table_delete: one entry of the key is removed, if there is one. */
    method Delete(k: K) returns (rc: int, ghost p: nat)
      requires Valid() && SearchEnds(table[..], k)
      modifies this, table
      ensures Valid() && size == old(size) && table == old(table)
      ensures rc == 0 || rc == -1
      ensures rc == -1 ==> Entries() == old(Entries()) && table[..] == old(table[..]) && !HasKey(Entries(), k)
      ensures rc == 0 ==> p < |old(Entries())| && old(Entries())[p].0 == k && Entries() == Without(old(Entries()), p)
      ensures rc == 0 ==>
        count == old(count) - 1 && p < |old(order)| && Emptied(old(table[..]), table[..], old(order)[p]) &&
        old(table[..])[old(order)[p]].mark.key == k
    {
      var e := LookupEntry(k);
      p := 0;
      FoundInEntries(table[..], order, hash, k, e);
      if e == NONE { return -1, p; }
      rc, p := DeleteEntry(e);
    }

    /** lh_table_lookup. */
    method Lookup(k: K) returns (v: Option<V>)
      requires Valid() && SearchEnds(table[..], k)
      ensures if v == None then !HasKey(Entries(), k) else (k, v.value) in Entries()
    {
      var e := LookupEntry(k);
      FoundInEntries(table[..], order, hash, k, e);
      v := if e == NONE then None else Some(table[e].mark.value);
    }
  }

  predicate HasKey<K(==), V>(c: seq<(K, V)>, k: K) { exists i :: 0 <= i < |c| && c[i].0 == k }

  /** What a search finds, in terms of the entries. */
  lemma FoundInEntries<K, V>(s: Slots<K, V>, order: seq<nat>, hash: K -> nat, k: K, r: int)
    requires |s| > 0 && Lists(s, order) && Found(s, hash, k, r)
    ensures r == NONE ==> !HasKey(Contents(s, order), k)
    ensures r != NONE ==> 0 <= r < |s| && s[r].mark.Live? && (k, s[r].mark.value) in Contents(s, order)
    ensures forall p :: 0 <= p < |order| && order[p] == r ==> Contents(s, order)[p].0 == k
  {
    if r != NONE {
      var p := PositionOf(s, order, r);
      assert Contents(s, order)[p] == (k, s[r].mark.value);
    }
  }

  lemma PositionOf<K, V>(s: Slots<K, V>, order: seq<nat>, n: nat) returns (p: nat)
    requires Lists(s, order) && n < |s| && s[n].mark.Live?
    ensures p < |order| && order[p] == n
  {
    assert n in order;
    p :| 0 <= p < |order| && order[p] == n;
  }

  /** What the pointers of the p-th element of the list say. */
  lemma NextTo<K, V>(s: Slots<K, V>, order: seq<nat>, head: int, tail: int, p: nat)
    requires Lists(s, order) && Chained(s, order, head, tail) && p < |order|
    ensures var n := order[p];
            (head == n <==> s[n].prev == NONE) && (tail == n <==> s[n].next == NONE) &&
            (s[n].prev != NONE ==> 0 <= s[n].prev < |s| && s[n].prev != n) &&
            (s[n].next != NONE ==> 0 <= s[n].next < |s| && s[n].next != n)
  {
    if p > 0 { Neighbours(s, order, head, tail, p, 0); Neighbours(s, order, head, tail, p, p - 1); }
    if p < |order| - 1 {
      Neighbours(s, order, head, tail, p, |order| - 1);
      Neighbours(s, order, head, tail, p, p + 1);
    }
    assert s[order[p]].next == At(order, p + 1) && s[order[p]].prev == At(order, p - 1);
  }

  lemma TakeOneMore<T>(c: seq<T>, i: nat)
    requires i < |c|
    ensures c[..i] + [c[i]] == c[..i + 1]
  {
  }

  lemma EndsOfList<K, V>(s: Slots<K, V>, order: seq<nat>, head: int, tail: int)
    requires Lists(s, order) && Chained(s, order, head, tail)
    ensures head == NONE <==> order == []
    ensures head == NONE <==> tail == NONE
    ensures head != NONE ==> 0 <= tail < |s| && s[tail].mark.Live?
  {
  }
}
