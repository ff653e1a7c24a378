/** Building and searching the static multi-key index, as ds/multi_hash.c does it. */
module MultiHash {
  import opened MultiHashSpec

  /** What the first pass finds in a place, and on top of the stack. */
  lemma RowsInRange<K>(d: seq<K>, hash: K -> nat, n: nat, h: seq<Node>, st: seq<Node>, s: nat)
    requires n <= |d| && Pass1(d, hash, n, h, st) && s < |h|
    ensures h[s].link == -1 && (h[s].rowno == -1 || 0 <= h[s].rowno < |d|)
    ensures st != [] ==> 0 <= st[|st| - 1].rowno < |d|
  {
    assert Home(d, hash, n, h[s], s);
    if st != [] { assert Away(d, hash, n, h, st[|st| - 1]); }
  }

  lemma RoomToPush<K>(d: seq<K>, hash: K -> nat, n: nat, h: seq<Node>, st: seq<Node>)
    requires n < |d| && Pass1(d, hash, n, h, st) && First(d, n) && Keys(d, |d|) <= |h|
    ensures |st| < |h|
  {
    MoreKeys(d, n + 1, |d|);
    FreshKey(d, n);
  }

  /** The first n rows have been entered, and all keys will have room. */
  ghost predicate Entered<K>(d: seq<K>, hash: K -> nat, n: nat, h: seq<Node>, st: seq<Node>) {
    n <= |d| && Grouped(d) && Keys(d, |d|) <= |h| && (forall i :: 0 <= i < |d| ==> hash(d[i]) < |h|) &&
    Pass1(d, hash, n, h, st)
  }

  /** The stack after the row n of a displaced key: counted on top, or pushed. */
  ghost function NewStack<K>(d: seq<K>, n: nat, s: nat, st: seq<Node>): seq<Node>
    requires n < |d| && (st != [] ==> 0 <= st[|st| - 1].rowno < |d|)
  {
    if st != [] && d[n] == d[st[|st| - 1].rowno] then
      st[|st| - 1 := st[|st| - 1].(count := st[|st| - 1].count + 1)]
    else
      st + [Node(n, s, 1)]
  }

  lemma EnteredAway<K>(d: seq<K>, hash: K -> nat, n: nat, h: seq<Node>, st: seq<Node>, s: nat)
    requires n < |d| && Entered(d, hash, n, h, st) && s == hash(d[n]) < |h|
    requires 0 <= h[s].rowno < |d| && d[h[s].rowno] != d[n]
    ensures st != [] ==> 0 <= st[|st| - 1].rowno < |d|
    ensures Entered(d, hash, n + 1, h, NewStack(d, n, s, st)) && |NewStack(d, n, s, st)| <= |h|
  {
    RowsInRange(d, hash, n, h, st, s);
    NotMoreThanPlaces(d, hash, n, h, st);
    if st != [] && d[n] == d[st[|st| - 1].rowno] {
      Pass1Top(d, hash, n, h, st, s);
    } else {
      NewKey(d, hash, n, h, st, s);
      Pass1Push(d, hash, n, h, st, s);
      RoomToPush(d, hash, n, h, st);
    }
    hide Pass1, Grouped, Keys;
  }

  lemma NotMoreThanPlaces<K>(d: seq<K>, hash: K -> nat, n: nat, h: seq<Node>, st: seq<Node>)
    requires n <= |d| && Pass1(d, hash, n, h, st) && Keys(d, |d|) <= |h|
    ensures |st| <= |h|
  {
    MoreKeys(d, n, |d|);
  }

  /** The row n belongs to a displaced key. */
  method EnterAway<K(==)>(d: seq<K>, n: nat, stack: array<Node>, top: nat, hashnum: nat, ghost st: seq<Node>)
    returns (top': nat)
    requires n < |d| && top <= stack.Length && st == stack[..top] && (st != [] ==> 0 <= st[|st| - 1].rowno < |d|)
    requires |NewStack(d, n, hashnum, st)| <= stack.Length
    modifies stack
    ensures top' <= stack.Length && stack[..top'] == NewStack(d, n, hashnum, st)
  {
    top' := top;
    if top > 0 && d[n] == d[stack[top - 1].rowno] {
      stack[top - 1] := stack[top - 1].(count := stack[top - 1].count + 1);
    } else {
      stack[top] := Node(n, hashnum, 1);
      top' := top + 1;
    }
  }

  /** One row of the first pass. */
  method EnterRow<K(==)>(d: seq<K>, hash: K -> nat, n: nat, h: array<Node>, stack: array<Node>, top: nat,
                         ghost st: seq<Node>)
    returns (top': nat)
    requires n < |d| && h != stack && stack.Length == h.Length && top <= stack.Length && st == stack[..top]
    requires Entered(d, hash, n, h[..], st)
    modifies h, stack
    ensures top' <= stack.Length && Entered(d, hash, n + 1, h[..], stack[..top'])
  {
    ghost var g := h[..];
    var hashnum: nat := hash(d[n]);
    RowsInRange(d, hash, n, g, st, hashnum);
    hide Pass1, Grouped, Keys;
    top' := top;
    if h[hashnum].rowno == -1 {
      Pass1Free(d, hash, n, g, st, hashnum);
      h[hashnum] := Node(n, h[hashnum].link, 1);
    } else if d[n] == d[h[hashnum].rowno] {
      Pass1Same(d, hash, n, g, st, hashnum);
      h[hashnum] := h[hashnum].(count := h[hashnum].count + 1);
    } else {
      EnteredAway(d, hash, n, g, st, hashnum);
      top' := EnterAway(d, n, stack, top, hashnum, st);
    }
  }

  /** The end of the chain from a place on: the last link that is -1. */
  method LastOfChain<K(==)>(d: seq<K>, hash: K -> nat, h: array<Node>, link: nat, ghost c: Chains) returns (z: nat)
    requires Linked(d, hash, h[..], c) && In(c, link, 0)
    ensures z == c[link][|c[link]| - 1] && z < h.Length
  {
    z := link;
    ghost var a: nat := 0;
    OnTheChain(d, hash, h[..], c, link, a);
    while h[z].link != -1
      invariant In(c, link, a) && z == c[link][a] && z < h.Length
      invariant h[z].link == if a + 1 < |c[link]| then c[link][a + 1] else -1
      decreases |c[link]| - a
    {
      z := h[z].link;
      a := a + 1;
      OnTheChain(d, hash, h[..], c, link, a);
    }
  }

  lemma OnTheChain<K>(d: seq<K>, hash: K -> nat, h: seq<Node>, c: Chains, s: nat, a: nat)
    requires Linked(d, hash, h, c) && In(c, s, a)
    ensures c[s][a] < |h| && h[c[s][a]].link == (if a + 1 < |c[s]| then c[s][a + 1] else -1)
    ensures 0 <= h[c[s][a]].rowno < |d|
    ensures a == 0 ==> c[s][a] == s
  {
    assert OnChain(d, hash, h, c, s, a);
  }

  /** A key from the stack is put into the empty place i, at the end of its chain. */
  method PutOnChain<K(==)>(d: seq<K>, hash: K -> nat, h: array<Node>, i: nat, e: Node, ghost st: seq<Node>,
                           ghost c: Chains)
    returns (ghost c': Chains)
    requires i < h.Length && h[i].rowno == -1 && st != [] && e == st[|st| - 1] && Pass2(d, hash, h[..], st, c)
    modifies h
    ensures Pass2(d, hash, h[..], st[..|st| - 1], c')
    ensures h[i].rowno == e.rowno && forall x :: 0 <= x < h.Length && x != i ==> h[x].rowno == old(h[x].rowno)
  {
    ghost var g := h[..];
    WaitingEntry(d, hash, g, st, c);
    EndOfChain(d, hash, g, c, e, i);
    Pass2Step(d, hash, g, st, c, i, e, c[e.link][|c[e.link]| - 1]);
    assert 0 <= e.link;
    hide Pass2, Linked, Waiting;
    var z := LastOfChain(d, hash, h, e.link, c);
    h[i] := Node(e.rowno, -1, e.count);
    h[z] := h[z].(link := i);
    assert h[..] == Relinked(g, z, i, e);
    c' := Longer(c, e.link, i);
  }

  lemma WaitingEntry<K>(d: seq<K>, hash: K -> nat, h: seq<Node>, st: seq<Node>, c: Chains)
    requires Pass2(d, hash, h, st, c) && st != []
    ensures Linked(d, hash, h, c) && Waiting(d, hash, c, st[|st| - 1]) && 0 <= st[|st| - 1].rowno
    ensures In(c, st[|st| - 1].link, 0)
  {
  }

  /** The second pass: the displaced keys are taken from the stack and put into empty places. */
  method SecondPass<K(==)>(d: seq<K>, hash: K -> nat, h: array<Node>, stack: array<Node>, conflict: nat, ghost c0: Chains)
    returns (ghost c: Chains)
    requires h != stack && conflict <= stack.Length && conflict <= Free(h[..], 0)
    requires Pass2(d, hash, h[..], stack[..conflict], c0)
    modifies h
    ensures Indexed(d, hash, h[..], c)
  {
    hide *;
    c := c0;
    var top: nat, i: nat := conflict, 0;
    ghost var st := stack[..conflict];
    while top > 0 && i < h.Length
      invariant |st| == top <= stack.Length && i <= h.Length && top <= Free(h[..], i)
      invariant Pass2(d, hash, h[..], st, c) && forall k :: 0 <= k < top ==> stack[k] == st[k]
    {
      top, c := FillPlace(d, hash, h, i, stack, top, st, c);
      st := st[..top];
      i := i + 1;
    }
    FreeAtEnd(h[..], i);
    AllPlaced(d, hash, h[..], st, c);
  }

  lemma FreeAtEnd(h: seq<Node>, i: nat)
    requires i <= |h|
    ensures i == |h| ==> Free(h, i) == 0
  {
  }

  lemma AllPlaced<K>(d: seq<K>, hash: K -> nat, h: seq<Node>, st: seq<Node>, c: Chains)
    requires Pass2(d, hash, h, st, c) && |st| == 0
    ensures Indexed(d, hash, h, c)
  {
    assert st == [];
    hide Pass2;
  }

  /** One place of the second pass: if it is empty, the key on top of the stack gets it. */
  method FillPlace<K(==)>(d: seq<K>, hash: K -> nat, h: array<Node>, i: nat, stack: array<Node>, top: nat,
                          ghost st: seq<Node>, ghost c: Chains)
    returns (top': nat, ghost c': Chains)
    requires h != stack && 0 < top == |st| <= stack.Length && stack[top - 1] == st[top - 1]
    requires i < h.Length && top <= Free(h[..], i) && Pass2(d, hash, h[..], st, c)
    modifies h
    ensures top' == (if old(h[i]).rowno == -1 then top - 1 else top) && top' <= Free(h[..], i + 1)
    ensures Pass2(d, hash, h[..], st[..top'], c')
  {
    ghost var g := h[..];
    FreeNext(g, i);
    hide *;
    top', c' := top, c;
    assert st[..top] == st;
    if h[i].rowno == -1 {
      top' := top - 1;
      c' := PutOnChain(d, hash, h, i, stack[top'], st, c);
      FreeAfter(g, h[..], i + 1);
    }
  }

  lemma FreeNext(h: seq<Node>, i: nat)
    requires i < |h|
    ensures Free(h, i) == (if h[i].rowno == -1 then 1 else 0) + Free(h, i + 1)
  {
  }

  /** The first pass: every row is counted at its home or on the stack. */
  method FirstPass<K(==)>(d: seq<K>, hash: K -> nat, h: array<Node>, stack: array<Node>) returns (top: nat)
    requires h != stack && stack.Length == h.Length && Entered(d, hash, 0, h[..], [])
    modifies h, stack
    ensures top <= stack.Length && Entered(d, hash, |d|, h[..], stack[..top])
  {
    top := 0;
    assert stack[..0] == [];
    hide *;
    for i := 0 to |d|
      invariant top <= stack.Length && Entered(d, hash, i, h[..], stack[..top])
    {
      top := EnterRow(d, hash, i, h, stack, top, stack[..top]);
    }
  }

  /** multi_hash: for rows in groups, with no more keys than places and the hash in range. */
  method Build<K(==)>(d: seq<K>, keyCount: nat, hash: K -> nat) returns (index: array<Node>, conflict: nat, ghost c: Chains)
    requires Grouped(d) && Keys(d, |d|) <= keyCount && forall i :: 0 <= i < |d| ==> hash(d[i]) < keyCount
    ensures index.Length == keyCount && Indexed(d, hash, index[..], c) && conflict == Conflicts(d, hash, |d|)
  {
    var stack := new Node[keyCount](_ => EMPTY);
    index := new Node[keyCount](_ => EMPTY);
    NothingTaken(index[..]);
    Pass1Starts(d, hash, index[..]);
    hide Pass1, Conflicts, Grouped, Keys;
    conflict := FirstPass(d, hash, index, stack);
    AllEntered(d, hash, index[..], stack[..conflict]);
    hide *;
    c := SecondPass(d, hash, index, stack, conflict, FirstChains(index[..]));
  }

  lemma AllEntered<K>(d: seq<K>, hash: K -> nat, h: seq<Node>, st: seq<Node>)
    requires Entered(d, hash, |d|, h, st)
    ensures |st| <= Free(h, 0) && Pass2(d, hash, h, st, FirstChains(h)) && |st| == Conflicts(d, hash, |d|)
  {
    Pass2Starts(d, hash, h, st);
    RoomForAll(d, hash, h, st);
    hide Pass2, Free;
  }

  lemma Pass1Starts<K>(d: seq<K>, hash: K -> nat, h: seq<Node>)
    requires (forall s :: 0 <= s < |h| ==> h[s] == EMPTY) && Taken(h) == 0
    ensures Pass1(d, hash, 0, h, [])
  {
  }

  // ---------- searching ----------

  /** Where a search is: in an empty place, or at the a-th of the chain of s, having met only other keys. */
  ghost predicate Reached<K>(d: seq<K>, hash: K -> nat, h: seq<Node>, c: Chains, key: K, s: nat, from: nat, a: nat,
                             hp: nat)
  {
    hp < |h| && Indexed(d, hash, h, c) &&
    if h[hp].rowno == -1 then Answer(d, key, -1, 0)
    else
      0 <= h[hp].rowno < |d| && from <= a && Passed(d, h, c, key, s, from, a) && c[s][a] == hp && c[s][from] == hash(key)
  }

  lemma StartOfSearch<K>(d: seq<K>, hash: K -> nat, h: seq<Node>, c: Chains, key: K) returns (s: nat, from: nat)
    requires Indexed(d, hash, h, c) && hash(key) < |h|
    ensures Reached(d, hash, h, c, key, s, from, from, hash(key))
  {
    s, from := 0, 0;
    var x := hash(key);
    if h[x].rowno != -1 {
      s, from :| In(c, s, from) && c[s][from] == x;
      assert OnChain(d, hash, h, c, s, from);
    }
  }

  /** On to the next place, or to the end. */
  lemma NextOfSearch<K>(d: seq<K>, hash: K -> nat, h: seq<Node>, c: Chains, key: K, s: nat, from: nat, a: nat, hp: nat)
    requires Reached(d, hash, h, c, key, s, from, a, hp) && h[hp].rowno > -1 && d[h[hp].rowno] != key
    ensures In(c, s, a)
    ensures h[hp].link < 0 ==> Answer(d, key, -1, 0)
    ensures h[hp].link >= 0 ==> Reached(d, hash, h, c, key, s, from, a + 1, h[hp].link) && a + 1 < |c[s]|
  {
    OnTheChain(d, hash, h, c, s, a);
    if h[hp].link < 0 {
      Absent(d, hash, h, c, key, s, from, a);
    } else {
      assert In(c, s, a + 1);
      OnTheChain(d, hash, h, c, s, a + 1);
    }
  }

  lemma EndOfSearch<K>(d: seq<K>, hash: K -> nat, h: seq<Node>, c: Chains, key: K, s: nat, from: nat, a: nat, hp: nat)
    requires Reached(d, hash, h, c, key, s, from, a, hp) && (h[hp].rowno > -1 ==> d[h[hp].rowno] == key)
    ensures if h[hp].rowno < 0 then Answer(d, key, -1, 0)
            else h[hp].count >= 0 && Answer(d, key, h[hp].rowno, h[hp].count)
  {
    if h[hp].rowno > -1 { assert OnChain(d, hash, h, c, s, a); }
  }

  /** multi_hash_find: the first row of the key and the number of its rows, or -1. */
  method Find<K(==)>(d: seq<K>, hash: K -> nat, index: array<Node>, key: K, ghost c: Chains) returns (row: int, count: nat)
    requires Indexed(d, hash, index[..], c) && hash(key) < index.Length
    ensures Answer(d, key, row, count)
  {
    var hp: nat := hash(key);
    ghost var h := index[..];
    ghost var s: nat, from: nat := StartOfSearch(d, hash, h, c, key);
    ghost var a := from;
    hide Indexed, Answer, Passed;
    while index[hp].rowno > -1 && d[index[hp].rowno] != key
      invariant Reached(d, hash, h, c, key, s, from, a, hp)
      invariant index[hp].rowno > -1 ==> In(c, s, a)
      decreases if index[hp].rowno > -1 then |c[s]| - a else 0
    {
      NextOfSearch(d, hash, h, c, key, s, from, a, hp);
      if index[hp].link < 0 { return -1, 0; }
      hp := index[hp].link;
      a := a + 1;
    }
    EndOfSearch(d, hash, h, c, key, s, from, a, hp);
    if index[hp].rowno < 0 { return -1, 0; }
    row, count := index[hp].rowno, index[hp].count;
  }
}
