/** The static multi-key index of ds/multi_hash.c as values: rows of equal keys stand together. */
module MultiHashSpec {

  /** A place of the index, or of the stack of displaced keys; an empty place has row -1. */
  datatype Node = Node(rowno: int, link: int, count: int)

  const EMPTY := Node(-1, -1, 0)

  // ---------- the rows ----------

  /** Rows of equal keys are next to each other. */
  ghost predicate Grouped<K>(d: seq<K>) {
    forall i, j, k :: 0 <= i <= j <= k < |d| && d[i] == d[k] ==> d[i] == d[j]
  }

  /** Row r is the first of its key. */
  predicate First<K(==)>(d: seq<K>, r: int) {
    0 <= r < |d| && forall j :: 0 <= j < r ==> d[j] != d[r]
  }

  /** How many of the first n rows have the key. */
  function Rows<K(==)>(d: seq<K>, n: nat, key: K): (c: nat)
    requires n <= |d|
  {
    if n == 0 then 0 else Rows(d, n - 1, key) + if d[n - 1] == key then 1 else 0
  }

  /** How many different keys the first n rows have. */
  function Keys<K(==)>(d: seq<K>, n: nat): (c: nat)
    requires n <= |d|
  {
    if n == 0 then 0 else Keys(d, n - 1) + if First(d, n - 1) then 1 else 0
  }

  /** The first row of a key whose home is already taken by another key. */
  predicate Displaced<K(==)>(d: seq<K>, hash: K -> nat, r: int) {
    First(d, r) && exists j :: 0 <= j < r && hash(d[j]) == hash(d[r])
  }

  function Conflicts<K(==)>(d: seq<K>, hash: K -> nat, n: nat): (c: nat)
    requires n <= |d|
  {
    if n == 0 then 0 else Conflicts(d, hash, n - 1) + if Displaced(d, hash, n - 1) then 1 else 0
  }

  lemma {:induction false} NoRows<K>(d: seq<K>, n: nat, key: K)
    requires n <= |d| && forall j :: 0 <= j < n ==> d[j] != key
    ensures Rows(d, n, key) == 0
    decreases n
  {
    if n > 0 { NoRows(d, n - 1, key); }
  }

  lemma {:induction false} MoreKeys<K>(d: seq<K>, n: nat, m: nat)
    requires n <= m <= |d|
    ensures Keys(d, n) <= Keys(d, m)
    decreases m
  {
    if n < m { MoreKeys(d, n, m - 1); }
  }

  // ---------- the first pass ----------

  /** The node stands for the key of its row, as far as the first n rows go. */
  ghost predicate Counted<K>(d: seq<K>, n: nat, e: Node)
    requires n <= |d|
  {
    e.rowno < n && First(d, e.rowno) && e.count == Rows(d, n, d[e.rowno])
  }

  /** A place of the index after n rows: empty if no row has hashed to it. */
  ghost predicate Home<K>(d: seq<K>, hash: K -> nat, n: nat, e: Node, s: nat)
    requires n <= |d|
  {
    e.link == -1 &&
    if e.rowno == -1 then forall j :: 0 <= j < n ==> hash(d[j]) != s
    else Counted(d, n, e) && hash(d[e.rowno]) == s
  }

  ghost predicate Homes<K>(d: seq<K>, hash: K -> nat, n: nat, h: seq<Node>)
    requires n <= |d|
  {
    forall s :: 0 <= s < |h| ==> Home(d, hash, n, h[s], s)
  }

  /** An entry of the stack: a key whose home is taken by another. */
  ghost predicate Away<K>(d: seq<K>, hash: K -> nat, n: nat, h: seq<Node>, e: Node)
    requires n <= |d|
  {
    Counted(d, n, e) && hash(d[e.rowno]) == e.link && 0 <= e.link < |h| &&
    0 <= h[e.link].rowno < |d| && d[h[e.link].rowno] != d[e.rowno]
  }

  ghost predicate Stacked<K>(d: seq<K>, hash: K -> nat, n: nat, h: seq<Node>, st: seq<Node>)
    requires n <= |d|
  {
    (forall t :: 0 <= t < |st| ==> Away(d, hash, n, h, st[t])) &&
    (forall t, u :: 0 <= t < u < |st| ==> st[t].rowno != st[u].rowno)
  }

  /** The key of row j has its place. */
  ghost predicate AtHome<K>(d: seq<K>, hash: K -> nat, h: seq<Node>, j: int)
    requires 0 <= j < |d|
  {
    var s := hash(d[j]);
    s < |h| && 0 <= h[s].rowno < |d| && d[h[s].rowno] == d[j]
  }

  ghost predicate OnStack<K>(d: seq<K>, st: seq<Node>, j: int)
    requires 0 <= j < |d|
  {
    exists t :: 0 <= t < |st| && 0 <= st[t].rowno < |d| && d[st[t].rowno] == d[j]
  }

  /** Every row is accounted for, the last one at home or at the top of the stack. */
  ghost predicate Placed<K>(d: seq<K>, hash: K -> nat, n: nat, h: seq<Node>, st: seq<Node>)
    requires n <= |d|
  {
    (forall j :: 0 <= j < n ==> AtHome(d, hash, h, j) || OnStack(d, st, j)) &&
    (n > 0 ==> AtHome(d, hash, h, n - 1) || (st != [] && OnStack(d, st[|st| - 1..], n - 1)))
  }

  function Taken(h: seq<Node>): (c: nat)
    ensures c <= |h|
  {
    if h == [] then 0 else Taken(h[..|h| - 1]) + if h[|h| - 1].rowno == -1 then 0 else 1
  }

  ghost predicate Pass1<K>(d: seq<K>, hash: K -> nat, n: nat, h: seq<Node>, st: seq<Node>)
    requires n <= |d|
  {
    Homes(d, hash, n, h) && Stacked(d, hash, n, h, st) && Placed(d, hash, n, h, st) &&
    Taken(h) + |st| == Keys(d, n) && |st| == Conflicts(d, hash, n)
  }

  lemma {:induction false} TakenUpdate(h: seq<Node>, s: nat, e: Node)
    requires s < |h|
    ensures Taken(h[s := e]) == Taken(h) + (if e.rowno == -1 then 0 else 1) - (if h[s].rowno == -1 then 0 else 1)
    decreases |h|
  {
    var g := h[s := e];
    if s < |h| - 1 {
      TakenUpdate(h[..|h| - 1], s, e);
      assert g[..|g| - 1] == h[..|h| - 1][s := e];
    } else {
      assert g[..|g| - 1] == h[..|h| - 1];
    }
  }

  // ---------- one row: its home is free ----------

  /** A node of another key counts on. */
  lemma CountedOn<K>(d: seq<K>, n: nat, e: Node)
    requires n < |d| && Counted(d, n, e) && d[e.rowno] != d[n]
    ensures Counted(d, n + 1, e)
  {
  }

  /** The row n is the first of its key. */
  lemma FreshKey<K>(d: seq<K>, n: nat)
    requires n < |d| && First(d, n)
    ensures Rows(d, n + 1, d[n]) == 1 && Keys(d, n + 1) == Keys(d, n) + 1
  {
    NoRows(d, n, d[n]);
  }

  lemma HomesFree<K>(d: seq<K>, hash: K -> nat, n: nat, h: seq<Node>, s: nat)
    requires n < |d| && Homes(d, hash, n, h) && s == hash(d[n]) < |h| && h[s].rowno == -1
    ensures First(d, n) && Homes(d, hash, n + 1, h[s := Node(n, -1, 1)])
  {
    assert Home(d, hash, n, h[s], s);
    FreshKey(d, n);
    hide Rows;
    var g := h[s := Node(n, -1, 1)];
    forall x | 0 <= x < |g| ensures Home(d, hash, n + 1, g[x], x) {
      assert Home(d, hash, n, h[x], x);
      if x != s && h[x].rowno != -1 { CountedOn(d, n, h[x]); }
    }
  }

  lemma AwayOn<K>(d: seq<K>, hash: K -> nat, n: nat, h: seq<Node>, g: seq<Node>, e: Node)
    requires n < |d| && Away(d, hash, n, h, e) && d[e.rowno] != d[n]
    requires |g| == |h| && g[e.link].rowno == h[e.link].rowno
    ensures Away(d, hash, n + 1, g, e)
  {
    CountedOn(d, n, e);
  }

  lemma PlacedOn<K>(d: seq<K>, hash: K -> nat, n: nat, h: seq<Node>, g: seq<Node>, st: seq<Node>, ts: seq<Node>)
    requires n < |d| && Placed(d, hash, n, h, st) && |g| == |h|
    requires forall x :: 0 <= x < |h| && h[x].rowno != -1 ==> g[x].rowno == h[x].rowno
    requires |st| <= |ts| && forall t :: 0 <= t < |st| ==> ts[t].rowno == st[t].rowno
    requires AtHome(d, hash, g, n) || (ts != [] && OnStack(d, ts[|ts| - 1..], n))
    ensures Placed(d, hash, n + 1, g, ts)
  {
    forall j | 0 <= j < n + 1 ensures AtHome(d, hash, g, j) || OnStack(d, ts, j) {
      if j < n {
        if OnStack(d, st, j) {
          var t :| 0 <= t < |st| && 0 <= st[t].rowno < |d| && d[st[t].rowno] == d[j];
          assert 0 <= ts[t].rowno < |d| && d[ts[t].rowno] == d[j];
        }
      } else if ts != [] && OnStack(d, ts[|ts| - 1..], n) {
        assert ts[|ts| - 1..][0] == ts[|ts| - 1];
      }
    }
  }

  /** The home of the row's key is free: the row takes it. */
  lemma Pass1Free<K>(d: seq<K>, hash: K -> nat, n: nat, h: seq<Node>, st: seq<Node>, s: nat)
    requires n < |d| && Pass1(d, hash, n, h, st) && s == hash(d[n]) < |h| && h[s].rowno == -1
    ensures Pass1(d, hash, n + 1, h[s := Node(n, -1, 1)], st)
  {
    var g := h[s := Node(n, -1, 1)];
    assert Home(d, hash, n, h[s], s);
    HomesFree(d, hash, n, h, s);
    FreshKey(d, n);
    TakenUpdate(h, s, Node(n, -1, 1));
    PlacedOn(d, hash, n, h, g, st, st);
    assert !Displaced(d, hash, n);
    hide Rows, Placed, Homes, Taken;
    forall t | 0 <= t < |st| ensures Away(d, hash, n + 1, g, st[t]) {
      AwayOn(d, hash, n, h, g, st[t]);
    }
  }

  /** The row's key is the one at home. */
  lemma HomesSame<K>(d: seq<K>, hash: K -> nat, n: nat, h: seq<Node>, s: nat)
    requires n < |d| && Homes(d, hash, n, h) && s == hash(d[n]) < |h|
    requires 0 <= h[s].rowno < |d| && d[h[s].rowno] == d[n]
    ensures Homes(d, hash, n + 1, h[s := h[s].(count := h[s].count + 1)])
  {
    var g := h[s := h[s].(count := h[s].count + 1)];
    forall x | 0 <= x < |g| ensures Home(d, hash, n + 1, g[x], x) {
      assert Home(d, hash, n, h[x], x);
      if x != s && h[x].rowno != -1 { CountedOn(d, n, h[x]); }
    }
  }

  lemma Pass1Same<K>(d: seq<K>, hash: K -> nat, n: nat, h: seq<Node>, st: seq<Node>, s: nat)
    requires n < |d| && Pass1(d, hash, n, h, st) && s == hash(d[n]) < |h|
    requires 0 <= h[s].rowno < |d| && d[h[s].rowno] == d[n]
    ensures Pass1(d, hash, n + 1, h[s := h[s].(count := h[s].count + 1)], st)
  {
    var g := h[s := h[s].(count := h[s].count + 1)];
    assert Home(d, hash, n, h[s], s);
    assert !First(d, n);
    HomesSame(d, hash, n, h, s);
    TakenUpdate(h, s, g[s]);
    PlacedOn(d, hash, n, h, g, st, st);
    hide Rows, Placed, Homes, Taken;
    forall t | 0 <= t < |st| ensures Away(d, hash, n + 1, g, st[t]) {
      AwayOn(d, hash, n, h, g, st[t]);
    }
  }

  /** The row's key is displaced: no place in the index changes. */
  lemma HomesOther<K>(d: seq<K>, hash: K -> nat, n: nat, h: seq<Node>, s: nat)
    requires n < |d| && Homes(d, hash, n, h) && s == hash(d[n]) < |h|
    requires 0 <= h[s].rowno < |d| && d[h[s].rowno] != d[n]
    ensures Homes(d, hash, n + 1, h)
  {
    forall x | 0 <= x < |h| ensures Home(d, hash, n + 1, h[x], x) {
      assert Home(d, hash, n, h[x], x);
      if h[x].rowno != -1 { CountedOn(d, n, h[x]); }
    }
  }

  lemma Pass1Top<K>(d: seq<K>, hash: K -> nat, n: nat, h: seq<Node>, st: seq<Node>, s: nat)
    requires n < |d| && Pass1(d, hash, n, h, st) && s == hash(d[n]) < |h|
    requires 0 <= h[s].rowno < |d| && d[h[s].rowno] != d[n]
    requires st != [] && var e := st[|st| - 1]; 0 <= e.rowno < |d| && d[e.rowno] == d[n]
    ensures var e := st[|st| - 1]; Pass1(d, hash, n + 1, h, st[|st| - 1 := e.(count := e.count + 1)])
  {
    var e := st[|st| - 1];
    var ts := st[|st| - 1 := e.(count := e.count + 1)];
    assert Away(d, hash, n, h, e);
    assert !First(d, n);
    HomesOther(d, hash, n, h, s);
    assert ts[|ts| - 1..][0].rowno == e.rowno;
    PlacedOn(d, hash, n, h, h, st, ts);
    assert Away(d, hash, n + 1, h, ts[|ts| - 1]);
    hide Rows, Placed, Homes, Taken;
    forall t | 0 <= t < |ts| ensures Away(d, hash, n + 1, h, ts[t]) {
      if t < |st| - 1 {
        OthersKey(d, n, st, t);
        AwayOn(d, hash, n, h, h, st[t]);
      }
    }
  }

  /** Two entries of the stack have different keys. */
  lemma OthersKey<K>(d: seq<K>, n: nat, st: seq<Node>, t: nat)
    requires n <= |d| && t < |st| - 1 && Counted(d, n, st[t]) && Counted(d, n, st[|st| - 1])
    requires st[t].rowno != st[|st| - 1].rowno
    ensures d[st[t].rowno] != d[st[|st| - 1].rowno]
  {
  }

  /** A key that is neither at home nor on top of the stack is new: equal keys are next to each other. */
  lemma NewKey<K>(d: seq<K>, hash: K -> nat, n: nat, h: seq<Node>, st: seq<Node>, s: nat)
    requires n < |d| && Grouped(d) && Pass1(d, hash, n, h, st) && s == hash(d[n]) < |h|
    requires 0 <= h[s].rowno < |d| && d[h[s].rowno] != d[n]
    requires st == [] || var e := st[|st| - 1]; !(0 <= e.rowno < |d| && d[e.rowno] == d[n])
    ensures First(d, n)
  {
    hide Rows, Homes, Stacked, Taken, Keys, Conflicts;
    if n > 0 && st != [] { assert st[|st| - 1..][0] == st[|st| - 1]; }
  }

  lemma Pass1Push<K>(d: seq<K>, hash: K -> nat, n: nat, h: seq<Node>, st: seq<Node>, s: nat)
    requires n < |d| && Pass1(d, hash, n, h, st) && s == hash(d[n]) < |h|
    requires 0 <= h[s].rowno < |d| && d[h[s].rowno] != d[n] && First(d, n)
    ensures Pass1(d, hash, n + 1, h, st + [Node(n, s, 1)])
  {
    var ts := st + [Node(n, s, 1)];
    assert Home(d, hash, n, h[s], s);
    FreshKey(d, n);
    assert Displaced(d, hash, n);
    HomesOther(d, hash, n, h, s);
    assert ts[|ts| - 1..][0].rowno == n;
    PlacedOn(d, hash, n, h, h, st, ts);
    assert Away(d, hash, n + 1, h, ts[|ts| - 1]);
    hide Rows, Placed, Homes, Taken;
    forall t | 0 <= t < |ts| ensures Away(d, hash, n + 1, h, ts[t]) {
      if t < |st| { AwayOn(d, hash, n, h, h, st[t]); }
    }
  }

  lemma {:induction false} NothingTaken(h: seq<Node>)
    requires forall s :: 0 <= s < |h| ==> h[s] == EMPTY
    ensures Taken(h) == 0
    decreases |h|
  {
    if h != [] { NothingTaken(h[..|h| - 1]); }
  }

  // ---------- the second pass ----------

  /** The chain of a home: its places, one after the other. */
  type Chains = seq<seq<nat>>

  predicate In(c: Chains, s: int, a: int) { 0 <= s < |c| && 0 <= a < |c[s]| }

  /** The places of the chains are different, and each chain starts at its home. */
  ghost predicate Disjoint(c: Chains, size: nat) {
    |c| == size &&
    (forall s, a :: In(c, s, a) ==> c[s][a] < size) &&
    (forall s :: In(c, s, 0) ==> c[s][0] == s) &&
    (forall s, a, r, b :: In(c, s, a) && In(c, r, b) && c[s][a] == c[r][b] ==> s == r && a == b)
  }

  /** A place on the chain of s: a key that hashes to s, with all its rows, and the link to the next place. */
  ghost predicate OnChain<K>(d: seq<K>, hash: K -> nat, h: seq<Node>, c: Chains, s: nat, a: nat)
    requires In(c, s, a) && c[s][a] < |h|
  {
    var e := h[c[s][a]];
    Counted(d, |d|, e) && hash(d[e.rowno]) == s && e.link == if a + 1 < |c[s]| then c[s][a + 1] else -1
  }

  ghost predicate Linked<K>(d: seq<K>, hash: K -> nat, h: seq<Node>, c: Chains) {
    Disjoint(c, |h|) && forall s, a :: In(c, s, a) ==> OnChain(d, hash, h, c, s, a)
  }

  /** The place is on some chain. */
  ghost predicate Used(c: Chains, x: nat) { exists s, a :: In(c, s, a) && c[s][a] == x }

  /** The places are on chains, except the empty ones, to which no key hashes. */
  ghost predicate Covered<K>(d: seq<K>, hash: K -> nat, h: seq<Node>, c: Chains) {
    forall x :: 0 <= x < |h| ==>
      if h[x].rowno == -1 then forall j :: 0 <= j < |d| ==> hash(d[j]) != x else Used(c, x)
  }

  /** The key of row j is on the chain of its home. */
  ghost predicate Chained<K>(d: seq<K>, hash: K -> nat, h: seq<Node>, c: Chains, j: nat)
    requires j < |d|
  {
    exists a :: In(c, hash(d[j]), a) && c[hash(d[j])][a] < |h| && 0 <= h[c[hash(d[j])][a]].rowno < |d| &&
                d[h[c[hash(d[j])][a]].rowno] == d[j]
  }

  /** An entry that still has to be put on its chain. */
  ghost predicate Waiting<K>(d: seq<K>, hash: K -> nat, c: Chains, e: Node) {
    Counted(d, |d|, e) && hash(d[e.rowno]) == e.link && In(c, e.link, 0)
  }

  ghost predicate Pass2<K>(d: seq<K>, hash: K -> nat, h: seq<Node>, st: seq<Node>, c: Chains) {
    Linked(d, hash, h, c) && Covered(d, hash, h, c) &&
    (forall t :: 0 <= t < |st| ==> Waiting(d, hash, c, st[t])) &&
    (forall j :: 0 <= j < |d| ==> Chained(d, hash, h, c, j) || OnStack(d, st, j))
  }

  /** The chains after the first pass: the homes that are taken. */
  function FirstChains(h: seq<Node>): (c: Chains)
    ensures |c| == |h|
    ensures forall s :: 0 <= s < |h| ==> c[s] == if h[s].rowno == -1 then [] else [s]
  {
    seq<seq<nat>>(|h|, s requires 0 <= s < |h| => if h[s].rowno == -1 then [] else [s])
  }

  lemma Pass2Starts<K>(d: seq<K>, hash: K -> nat, h: seq<Node>, st: seq<Node>)
    requires Pass1(d, hash, |d|, h, st)
    ensures Pass2(d, hash, h, st, FirstChains(h))
  {
    var c := FirstChains(h);
    assert forall s, a :: In(c, s, a) ==> a == 0 && c[s][a] == s;
    assert forall x :: 0 <= x < |h| ==> Home(d, hash, |d|, h[x], x);
    assert forall x :: 0 <= x < |h| && h[x].rowno != -1 ==> In(c, x, 0) && c[x][0] == x;
    forall j | 0 <= j < |d| ensures Chained(d, hash, h, c, j) || OnStack(d, st, j) {
      if AtHome(d, hash, h, j) { assert In(c, hash(d[j]), 0); }
    }
    forall t | 0 <= t < |st| ensures Waiting(d, hash, c, st[t]) {
      assert Away(d, hash, |d|, h, st[t]);
    }
  }

  /** How many places from i on are empty. */
  function Free(h: seq<Node>, i: nat): (n: nat)
    requires i <= |h|
    decreases |h| - i
  {
    if i == |h| then 0 else (if h[i].rowno == -1 then 1 else 0) + Free(h, i + 1)
  }

  lemma {:induction false} FreeAndTaken(h: seq<Node>, i: nat)
    requires i <= |h|
    ensures Free(h, i) + Taken(h[i..]) == |h| - i
    decreases |h| - i
  {
    if i < |h| {
      FreeAndTaken(h, i + 1);
      TakenFront(h[i], h[i + 1..]);
      assert [h[i]] + h[i + 1..] == h[i..];
    }
  }

  lemma {:induction false} TakenFront(e: Node, h: seq<Node>)
    ensures Taken([e] + h) == Taken(h) + if e.rowno == -1 then 0 else 1
    decreases |h|
  {
    var g := [e] + h;
    if h == [] {
      assert g[..0] == [];
    } else {
      TakenFront(e, h[..|h| - 1]);
      assert g[..|g| - 1] == [e] + h[..|h| - 1];
    }
  }

  /** Enough places are free for the displaced keys, if there are no more keys than places. */
  lemma RoomForAll<K>(d: seq<K>, hash: K -> nat, h: seq<Node>, st: seq<Node>)
    requires Pass1(d, hash, |d|, h, st) && Keys(d, |d|) <= |h|
    ensures |st| <= Free(h, 0)
  {
    FreeAndTaken(h, 0);
    assert h[0..] == h;
  }

  lemma {:induction false} FreeAfter(h: seq<Node>, g: seq<Node>, i: nat)
    requires i <= |h| == |g| && forall x :: i <= x < |h| ==> g[x].rowno == h[x].rowno
    ensures Free(g, i) == Free(h, i)
    decreases |h| - i
  {
    if i < |h| { FreeAfter(h, g, i + 1); }
  }

  function Longer(c: Chains, s: nat, i: nat): (c': Chains)
    requires s < |c|
    ensures |c'| == |c| && c'[s] == c[s] + [i] && forall x :: 0 <= x < |c| && x != s ==> c'[x] == c[x]
  {
    c[s := c[s] + [i]]
  }

  lemma DisjointLonger(c: Chains, size: nat, s: nat, i: nat)
    requires Disjoint(c, size) && In(c, s, 0) && i < size && !Used(c, i)
    ensures Disjoint(Longer(c, s, i), size)
  {
    var c' := Longer(c, s, i);
    assert forall r, a :: In(c', r, a) ==>
      if r == s && a == |c[s]| then c'[r][a] == i else In(c, r, a) && c'[r][a] == c[r][a];
    hide Longer;
    assert forall r, a :: In(c, r, a) ==> c[r][a] != i;
  }

  /** The place at the end of the chain is linked to the new one. */
  function Relinked(h: seq<Node>, z: nat, i: nat, e: Node): (g: seq<Node>)
    requires z < |h| && i < |h|
    ensures |g| == |h|
  {
    h[i := Node(e.rowno, -1, e.count)][z := h[z].(link := i)]
  }

  lemma UsedNotEmpty<K>(d: seq<K>, hash: K -> nat, h: seq<Node>, c: Chains, x: nat)
    requires Linked(d, hash, h, c) && Used(c, x)
    ensures x < |h| && h[x].rowno != -1
  {
    var s, a :| In(c, s, a) && c[s][a] == x;
    assert OnChain(d, hash, h, c, s, a);
  }

  lemma OnChainLonger<K>(d: seq<K>, hash: K -> nat, h: seq<Node>, c: Chains, e: Node, i: nat, r: nat, a: nat)
    requires Linked(d, hash, h, c) && Waiting(d, hash, c, e) && i < |h| && !Used(c, i)
    requires In(Longer(c, e.link, i), r, a)
    ensures var z := c[e.link][|c[e.link]| - 1];
            z < |h| && Longer(c, e.link, i)[r][a] < |h| &&
            OnChain(d, hash, Relinked(h, z, i, e), Longer(c, e.link, i), r, a)
  {
    var s := e.link;
    var last := |c[s]| - 1;
    var z, c' := c[s][last], Longer(c, s, i);
    assert In(c, s, last);
    if !(r == s && a == |c[s]|) {
      assert In(c, r, a) && c'[r][a] == c[r][a];
      assert OnChain(d, hash, h, c, r, a) && c[r][a] != i;
    }
    hide Longer, Counted;
  }

  lemma LinkedLonger<K>(d: seq<K>, hash: K -> nat, h: seq<Node>, c: Chains, e: Node, i: nat)
    requires Linked(d, hash, h, c) && Waiting(d, hash, c, e) && i < |h| && !Used(c, i)
    ensures var z := c[e.link][|c[e.link]| - 1];
            z < |h| && Linked(d, hash, Relinked(h, z, i, e), Longer(c, e.link, i))
  {
    assert In(c, e.link, |c[e.link]| - 1);
    DisjointLonger(c, |h|, e.link, i);
    var z, c' := c[e.link][|c[e.link]| - 1], Longer(c, e.link, i);
    hide Longer, Counted, OnChain, Relinked;
    forall r, a | In(c', r, a) ensures OnChain(d, hash, Relinked(h, z, i, e), c', r, a) {
      OnChainLonger(d, hash, h, c, e, i, r, a);
    }
  }

  lemma CoveredLonger<K>(d: seq<K>, hash: K -> nat, h: seq<Node>, c: Chains, e: Node, i: nat, z: nat)
    requires Covered(d, hash, h, c) && Waiting(d, hash, c, e) && i < |h| && z < |h| && z != i && h[z].rowno != -1
    ensures Covered(d, hash, Relinked(h, z, i, e), Longer(c, e.link, i))
  {
    var g, c' := Relinked(h, z, i, e), Longer(c, e.link, i);
    assert In(c', e.link, |c[e.link]|) && c'[e.link][|c[e.link]|] == i;
    forall x | 0 <= x < |g| && g[x].rowno != -1 ensures Used(c', x) {
      if x != i {
        var s, a :| In(c, s, a) && c[s][a] == x;
        assert In(c', s, a) && c'[s][a] == x;
      }
    }
  }

  lemma ChainedLonger<K>(d: seq<K>, hash: K -> nat, h: seq<Node>, c: Chains, e: Node, i: nat, z: nat, j: nat)
    requires Waiting(d, hash, c, e) && i < |h| && z < |h| && z != i && h[i].rowno == -1 && j < |d|
    requires Chained(d, hash, h, c, j) || d[e.rowno] == d[j]
    ensures Chained(d, hash, Relinked(h, z, i, e), Longer(c, e.link, i), j)
  {
    var g, c', s := Relinked(h, z, i, e), Longer(c, e.link, i), hash(d[j]);
    if d[e.rowno] == d[j] {
      assert In(c', s, |c[s]|) && c'[s][|c[s]|] == i;
    } else {
      var a :| In(c, s, a) && c[s][a] < |h| && 0 <= h[c[s][a]].rowno < |d| && d[h[c[s][a]].rowno] == d[j];
      assert In(c', s, a) && c'[s][a] == c[s][a];
    }
  }

  /** The end of the chain that a waiting key goes to, and the empty place it gets. */
  lemma EndOfChain<K>(d: seq<K>, hash: K -> nat, h: seq<Node>, c: Chains, e: Node, i: nat)
    requires Linked(d, hash, h, c) && Waiting(d, hash, c, e) && i < |h| && h[i].rowno == -1
    ensures !Used(c, i) && var z := c[e.link][|c[e.link]| - 1];
            In(c, e.link, |c[e.link]| - 1) && z < |h| && z != i && h[z].rowno != -1 && h[z].link == -1
  {
    var z := c[e.link][|c[e.link]| - 1];
    assert In(c, e.link, |c[e.link]| - 1);
    assert OnChain(d, hash, h, c, e.link, |c[e.link]| - 1);
    if Used(c, i) { UsedNotEmpty(d, hash, h, c, i); }
  }

  lemma WaitingLonger<K>(d: seq<K>, hash: K -> nat, c: Chains, s: nat, i: nat, e: Node)
    requires Waiting(d, hash, c, e) && s < |c|
    ensures Waiting(d, hash, Longer(c, s, i), e)
  {
  }

  lemma RowsLonger<K>(d: seq<K>, hash: K -> nat, h: seq<Node>, st: seq<Node>, c: Chains, i: nat, z: nat, j: nat)
    requires st != [] && Waiting(d, hash, c, st[|st| - 1]) && i < |h| && z < |h| && z != i && h[i].rowno == -1
    requires j < |d| && (Chained(d, hash, h, c, j) || OnStack(d, st, j))
    ensures var e := st[|st| - 1];
            Chained(d, hash, Relinked(h, z, i, e), Longer(c, e.link, i), j) || OnStack(d, st[..|st| - 1], j)
  {
    var e, ts := st[|st| - 1], st[..|st| - 1];
    if Chained(d, hash, h, c, j) || d[e.rowno] == d[j] {
      ChainedLonger(d, hash, h, c, e, i, z, j);
    } else {
      var t :| 0 <= t < |st| && 0 <= st[t].rowno < |d| && d[st[t].rowno] == d[j];
      assert ts[t] == st[t];
    }
  }

  /** A waiting key is put on its chain, in an empty place. */
  lemma Pass2Step<K>(d: seq<K>, hash: K -> nat, h: seq<Node>, st: seq<Node>, c: Chains, i: nat, e: Node, z: nat)
    requires Pass2(d, hash, h, st, c) && st != [] && i < |h| && h[i].rowno == -1
    requires e == st[|st| - 1] && Waiting(d, hash, c, e) && z == c[e.link][|c[e.link]| - 1] && z < |h|
    ensures Pass2(d, hash, Relinked(h, z, i, e), st[..|st| - 1], Longer(c, e.link, i))
  {
    hide Linked, Covered, Relinked, Longer, Waiting, Chained, OnStack;
    EndOfChain(d, hash, h, c, e, i);
    LinkedLonger(d, hash, h, c, e, i);
    CoveredLonger(d, hash, h, c, e, i, z);
    var g, c', ts := Relinked(h, z, i, e), Longer(c, e.link, i), st[..|st| - 1];
    forall t | 0 <= t < |ts| ensures Waiting(d, hash, c', ts[t]) {
      assert ts[t] == st[t];
      WaitingLonger(d, hash, c, e.link, i, st[t]);
    }
    forall j | 0 <= j < |d| ensures Chained(d, hash, g, c', j) || OnStack(d, ts, j) {
      RowsLonger(d, hash, h, st, c, i, z, j);
    }
  }

  // ---------- the finished index ----------

  /** Every key of the data is on the chain of its home, and nothing else is in the index. */
  ghost predicate Indexed<K>(d: seq<K>, hash: K -> nat, h: seq<Node>, c: Chains) { Pass2(d, hash, h, [], c) }

  /** What a search must yield. */
  ghost predicate Answer<K>(d: seq<K>, key: K, row: int, count: nat) {
    if row == -1 then count == 0 && forall j :: 0 <= j < |d| ==> d[j] != key
    else First(d, row) && d[row] == key && count == Rows(d, |d|, key)
  }

  /** The search has come to the a-th place of the chain of s without meeting the key. */
  ghost predicate Passed<K>(d: seq<K>, h: seq<Node>, c: Chains, key: K, s: nat, from: nat, a: nat) {
    In(c, s, a) && forall b :: from <= b < a ==>
      c[s][b] < |h| && 0 <= h[c[s][b]].rowno < |d| && d[h[c[s][b]].rowno] != key
  }

  /** A search that starts in an empty place, or gets to the end of the chain, was for an absent key. */
  lemma Absent<K>(d: seq<K>, hash: K -> nat, h: seq<Node>, c: Chains, key: K, s: nat, from: nat, a: nat)
    requires Indexed(d, hash, h, c) && Passed(d, h, c, key, s, from, a) && from <= a && a + 1 == |c[s]|
    requires c[s][from] == hash(key)
    requires c[s][a] < |h| && 0 <= h[c[s][a]].rowno < |d| && d[h[c[s][a]].rowno] != key
    ensures Answer(d, key, -1, 0)
  {
    forall j | 0 <= j < |d| ensures d[j] != key {
      if d[j] == key {
        assert !OnStack(d, [], j);
        assert Chained(d, hash, h, c, j);
        var b :| In(c, hash(d[j]), b) && c[hash(d[j])][b] < |h| && 0 <= h[c[hash(d[j])][b]].rowno < |d| &&
                 d[h[c[hash(d[j])][b]].rowno] == d[j];
        assert In(c, hash(key), 0) && In(c, s, from);
      }
    }
  }
}
