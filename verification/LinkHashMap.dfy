/** The hash table as the fields of a JSON object: a map, as long as the searches come to an end. */
module LinkHashMap {
  import opened Bytes
  import opened LinkHash

  ghost function AsMap<K, V>(c: seq<(K, V)>): map<K, V> {
    if c == [] then map[] else AsMap(c[..|c| - 1])[c[|c| - 1].0 := c[|c| - 1].1]
  }

  ghost predicate Unique<K, V>(c: seq<(K, V)>) { forall i, j :: 0 <= i < j < |c| ==> c[i].0 != c[j].0 }

  /** The map has exactly the entries. */
  lemma {:induction false} MapOf<K, V>(c: seq<(K, V)>, k: K)
    requires Unique(c)
    ensures k in AsMap(c) <==> HasKey(c, k)
    ensures forall i :: 0 <= i < |c| && c[i].0 == k ==> AsMap(c)[k] == c[i].1
    decreases |c|
  {
    if c != [] {
      var d := c[..|c| - 1];
      MapOf(d, k);
      assert forall i :: 0 <= i < |d| ==> d[i] == c[i];
      if HasKey(d, k) {
        var i :| 0 <= i < |d| && d[i].0 == k;
        assert c[i].0 == k;
      }
      if HasKey(c, k) {
        var i :| 0 <= i < |c| && c[i].0 == k;
        if i < |d| { assert d[i].0 == k; }
      }
    }
  }

  lemma KeyWithout<K, V>(c: seq<(K, V)>, p: nat, k: K)
    requires Unique(c) && p < |c|
    ensures var d := Without(c, p);
            (HasKey(d, k) <==> HasKey(c, k) && k != c[p].0) &&
            (HasKey(d, k) ==> exists i, j :: 0 <= i < |d| && 0 <= j < |c| && d[i] == c[j] && d[i].0 == k)
  {
    var d := Without(c, p);
    if HasKey(c, k) && k != c[p].0 {
      var i :| 0 <= i < |c| && c[i].0 == k;
      assert d[if i < p then i else i - 1] == c[i];
    }
    if HasKey(d, k) {
      var i :| 0 <= i < |d| && d[i].0 == k;
      assert d[i] == c[if i < p then i else i + 1];
    }
  }

  lemma UniqueWithout<K, V>(c: seq<(K, V)>, p: nat)
    requires Unique(c) && p < |c|
    ensures Unique(Without(c, p))
  {
    var d := Without(c, p);
    assert forall i :: 0 <= i < |d| ==> d[i] == c[if i < p then i else i + 1];
  }

  lemma {:induction false} MapWithout<K, V>(c: seq<(K, V)>, p: nat)
    requires Unique(c) && p < |c|
    ensures AsMap(Without(c, p)) == AsMap(c) - {c[p].0}
    decreases |c|
  {
    var d, last := c[..|c| - 1], c[|c| - 1];
    if p == |c| - 1 {
      assert Without(c, p) == d;
      MapOf(d, last.0);
      hide AsMap, Without;
      assert AsMap(d)[last.0 := last.1] - {last.0} == AsMap(d);
    } else {
      MapWithout(d, p);
      Peel(c, p);
      assert last.0 != c[p].0;
      assert (AsMap(d) - {c[p].0})[last.0 := last.1] == AsMap(d)[last.0 := last.1] - {c[p].0};
    }
  }

  lemma Peel<T>(c: seq<T>, p: nat)
    requires p < |c| - 1
    ensures var w := Without(c, p); w[..|w| - 1] == Without(c[..|c| - 1], p) && w[|w| - 1] == c[|c| - 1]
  {
  }

  lemma Extended<K, V>(c: seq<(K, V)>, k: K, v: V)
    requires Unique(c) && !HasKey(c, k)
    ensures Unique(c + [(k, v)]) && AsMap(c + [(k, v)]) == AsMap(c)[k := v]
  {
    var d := c + [(k, v)];
    assert d[..|d| - 1] == c;
  }

  /** The table is in order, its entries are these and their keys are different. */
  ghost predicate Holds<K, V>(t: LinkHash<K, V>, c: seq<(K, V)>)
    reads t, t.table
  {
    t.Valid() && t.Entries() == c && Unique(c)
  }

  /** The entries after a key has been given a value: a new one comes last. */
  ghost function Added<K, V>(c: seq<(K, V)>, k: K, v: V): seq<(K, V)> { Dropped(c, k) + [(k, v)] }

  /** The entries without that of the key, if there is one. */
  ghost function Dropped<K, V>(c: seq<(K, V)>, k: K): seq<(K, V)> {
    if HasKey(c, k) then var p :| 0 <= p < |c| && c[p].0 == k; Without(c, p) else c
  }

  lemma DroppedIs<K, V>(c: seq<(K, V)>, k: K)
    requires Unique(c)
    ensures Unique(Dropped(c, k)) && !HasKey(Dropped(c, k), k) && AsMap(Dropped(c, k)) == AsMap(c) - {k}
    ensures forall p :: 0 <= p < |c| && c[p].0 == k ==> Dropped(c, k) == Without(c, p)
  {
    MapOf(c, k);
    if HasKey(c, k) {
      var p :| 0 <= p < |c| && c[p].0 == k && Dropped(c, k) == Without(c, p);
      UniqueWithout(c, p);
      MapWithout(c, p);
      KeyWithout(c, p, k);
    } else {
      hide AsMap;
    }
  }

  lemma AddedIs<K, V>(c: seq<(K, V)>, k: K, v: V)
    requires Unique(c)
    ensures Unique(Added(c, k, v)) && AsMap(Added(c, k, v)) == AsMap(c)[k := v]
  {
    DroppedIs(c, k);
    Extended(Dropped(c, k), k, v);
    hide Dropped, AsMap;
  }

  /** json_object_object_del: the slot q of the key, if there is one, is freed, and no other slot changes. */
  method ObjectDel<K(==), V>(t: LinkHash<K, V>, k: K, ghost c: seq<(K, V)>) returns (ghost q: nat)
    requires Holds(t, c) && SearchEnds(t.table[..], k)
    modifies t, t.table
    ensures Holds(t, Dropped(c, k)) && t.table == old(t.table) && t.size == old(t.size)
    ensures if HasKey(c, k) then FreedFor(old(t.table[..]), t.table[..], k, q) && t.count == old(t.count) - 1
            else t.table[..] == old(t.table[..]) && t.count == old(t.count)
  {
    hide Dropped, HasKey, Unique, Without, Good;
    DroppedIs(c, k);
    var rc;
    ghost var p, o := 0, t.order;
    rc, p := t.Delete(k);
    NotThere(c, k);
    q := 0;
    if rc == 0 {
      KeyAt(c, p);
      q := o[p];
    }
  }

  lemma NotThere<K, V>(c: seq<(K, V)>, k: K)
    ensures !HasKey(c, k) ==> Dropped(c, k) == c
  {
  }

  lemma KeyAt<K, V>(c: seq<(K, V)>, p: nat)
    requires p < |c|
    ensures HasKey(c, c[p].0)
  {
  }

  /** Only slot q, which held the key, has changed: it is free now. */
  ghost predicate FreedFor<K, V>(s: Slots<K, V>, s': Slots<K, V>, k: K, q: nat) {
    Emptied(s, s', q) && s[q].mark.key == k
  }

  ghost predicate Untouched<K, V>(s: Slots<K, V>) { forall n :: 0 <= n < |s| ==> !s[n].mark.Freed? }

  /** Where no slot had been freed before, an entry that is replaced takes the slot it had. */
  lemma Refilled<K, V>(s0: Slots<K, V>, s1: Slots<K, V>, s2: Slots<K, V>, hash: K -> nat, k: K, v: V, q: nat, n: nat)
    requires Probed(s0, hash) && Untouched(s0) && FreedFor(s0, s1, k, q)
    requires Marked(s1, s2, n, Live(k, v)) && AllTaken(s1, Home(hash, k, |s0|), n) && !s1[n].mark.Live?
    ensures n == q && Untouched(s2)
  {
    var h := Home(hash, k, |s0|);
    hide Home;
    assert s1[n].mark == s0[n].mark || n == q;
    OneFirst(h, n, q);
    hide Before;
  }

  lemma OneFirst(h: nat, n: nat, q: nat)
    ensures n == q || Before(h, q, n) || Before(h, n, q)
  {
  }

  lemma StaysUntouched<K, V>(s: Slots<K, V>, s': Slots<K, V>, n: nat, m: Mark<K, V>)
    requires Untouched(s) && Marked(s, s', n, m) && m.Live?
    ensures Untouched(s')
  {
  }

  /** json_object_object_add: a key that is there is removed first. As long as nothing else has been deleted, no slot
      stays freed and some slot stays empty. */
  method ObjectAdd<K(==), V>(t: LinkHash<K, V>, k: K, v: V, ghost c: seq<(K, V)>)
    requires Holds(t, c) && SearchEnds(t.table[..], k)
    modifies t, t.table
    ensures Holds(t, Added(c, k, v))
    ensures (fresh(t.table) || t.table == old(t.table)) && (t.size == old(t.size) || t.size == 2 * old(t.size))
    ensures old(t.NoneFreed()) && old(t.size) >= 3 ==> t.NoneFreed() && t.SomeEmpty()
  {
    hide *;
    ghost var s0, size0 := t.table[..], t.size;
    Unfolded(t, c);
    ghost var q := ObjectDel(t, k, c);
    ghost var s1, room := t.table[..], !t.Overloaded();
    HoldsIs(t, Dropped(c, k));
    t.OverloadedIs();
    ghost var n := t.Insert(k, v);
    AddedIs(c, k, v);
    IsHeld(t, c, k, v);
    if room && Untouched(s0) && size0 >= 3 {
      if HasKey(c, k) {
        Refilled(s0, s1, t.table[..], t.hash, k, v, q, n);
      } else {
        StaysUntouched(s0, t.table[..], n, Live(k, v));
      }
      NothingFreed(t);
      t.SomeLeft();
    }
  }

  lemma Unfolded<K, V>(t: LinkHash<K, V>, c: seq<(K, V)>)
    requires Holds(t, c)
    ensures t.Valid() && Unique(c) && |t.table[..]| == t.size && Probed(t.table[..], t.hash)
    ensures t.NoneFreed() <==> Untouched(t.table[..])
  {
    t.Reveal();
    hide Good, Probed, Unique;
  }

  lemma IsHeld<K, V>(t: LinkHash<K, V>, c: seq<(K, V)>, k: K, v: V)
    requires t.Valid() && t.Entries() == Dropped(c, k) + [(k, v)] && Unique(Added(c, k, v))
    ensures Holds(t, Added(c, k, v))
  {
    hide Dropped, Unique;
  }

  lemma NothingFreed<K, V>(t: LinkHash<K, V>)
    requires Untouched(t.table[..])
    ensures t.NoneFreed()
  {
    assert forall n :: 0 <= n < t.table.Length ==> t.table[n] == t.table[..][n];
  }

  /** json_object_object_get. */
  method ObjectGet<K(==), V>(t: LinkHash<K, V>, k: K, ghost c: seq<(K, V)>) returns (v: Option<V>)
    requires Holds(t, c) && SearchEnds(t.table[..], k)
    ensures v == if k in AsMap(c) then Some(AsMap(c)[k]) else None
  {
    MapOf(c, k);
    v := t.Lookup(k);
  }

  // ---------- runs ----------

  datatype Op<K, V> = Add(k: K, v: V) | Del(k: K) | Get(k: K) | Resize(size: nat)

  ghost function Applied<K, V>(c: seq<(K, V)>, op: Op<K, V>): seq<(K, V)> {
    match op
    case Add(k, v) => Added(c, k, v)
    case Del(k) => Dropped(c, k)
    case _ => c
  }

  /** The entries after a run, in their order. */
  ghost function After<K, V>(c: seq<(K, V)>, ops: seq<Op<K, V>>): seq<(K, V)> {
    if ops == [] then c else Applied(After(c, ops[..|ops| - 1]), ops[|ops| - 1])
  }

  ghost function Look<K, V>(m: map<K, V>, k: K): Option<V> { if k in m then Some(m[k]) else None }

  /** What the lookups of a run yield, each from the map as it is then. */
  ghost function Answers<K, V>(m: map<K, V>, ops: seq<Op<K, V>>): seq<Option<V>> {
    if ops == [] then []
    else
      var before, op := ops[..|ops| - 1], ops[|ops| - 1];
      Answers(m, before) + if op.Get? then [Look(MapAfter(m, before), op.k)] else []
  }

  /** The run on a map. */
  ghost function MapAfter<K, V>(m: map<K, V>, ops: seq<Op<K, V>>): map<K, V> {
    if ops == [] then m
    else
      var before := MapAfter(m, ops[..|ops| - 1]);
      match ops[|ops| - 1]
      case Add(k, v) => before[k := v]
      case Del(k) => before - {k}
      case _ => before
  }

  /** The entries of a table do what a map does. */
  lemma {:induction false} RunIsMap<K, V>(c: seq<(K, V)>, ops: seq<Op<K, V>>)
    requires Unique(c)
    ensures Unique(After(c, ops)) && AsMap(After(c, ops)) == MapAfter(AsMap(c), ops)
    decreases |ops|
  {
    if ops != [] {
      var before, op := ops[..|ops| - 1], ops[|ops| - 1];
      RunIsMap(c, before);
      var b := After(c, before);
      hide AsMap, Added, Dropped, Unique;
      match op
      case Add(k, v) => AddedIs(b, k, v);
      case Del(k) => DroppedIs(b, k);
      case _ =>
    }
  }

  lemma OneMore<K, V>(c: seq<(K, V)>, m: map<K, V>, ops: seq<Op<K, V>>, n: nat)
    requires n < |ops|
    ensures After(c, ops[..n + 1]) == Applied(After(c, ops[..n]), ops[n])
    ensures Answers(m, ops[..n + 1])
         == Answers(m, ops[..n]) + if ops[n].Get? then [Look(MapAfter(m, ops[..n]), ops[n].k)] else []
  {
    assert ops[..n + 1][..n] == ops[..n];
  }

  lemma NothingYet<K, V>(c: seq<(K, V)>, m: map<K, V>, ops: seq<Op<K, V>>)
    ensures After(c, ops[..0]) == c && Answers(m, ops[..0]) == []
  {
  }

  /** The operation comes to an end and leaves the table in order. */
  ghost predicate CanDo<K, V>(t: LinkHash<K, V>, op: Op<K, V>)
    reads t, t.table
  {
    match op
    case Add(k, _) => SearchEnds(t.table[..], k)
    case Del(k) => SearchEnds(t.table[..], k)
    case Get(k) => SearchEnds(t.table[..], k)
    case Resize(n) => n > 0 && Roomy(t.count, n)
  }

  /** The run adds and looks up only, as reading an object does. */
  predicate Growing<K, V>(ops: seq<Op<K, V>>) { forall i :: 0 <= i < |ops| ==> ops[i].Add? || ops[i].Get? }

  /** Whether a search for the key will end. */
  method WillEnd<K(==), V>(t: LinkHash<K, V>, k: K) returns (b: bool)
    ensures b <==> SearchEnds(t.table[..], k)
  {
    b := exists n :: 0 <= n < t.table.Length && Stops(t.table[n].mark, k);
    assert forall n :: 0 <= n < t.table.Length ==> t.table[..][n] == t.table[n];
  }

  /** No slot is freed and some slot is empty. */
  ghost predicate Fresh<K, V>(t: LinkHash<K, V>)
    reads t, t.table
  {
    t.NoneFreed() && t.SomeEmpty() && t.size >= 3
  }

  lemma FreshEnds<K, V>(t: LinkHash<K, V>, k: K)
    requires t.SomeEmpty()
    ensures SearchEnds(t.table[..], k)
  {
    var n :| 0 <= n < t.table.Length && t.table[n].mark.Empty?;
    assert Stops(t.table[..][n].mark, k);
  }

  /** One operation of a run, unless it cannot be done. */
  method Perform<K(==), V>(t: LinkHash<K, V>, op: Op<K, V>, ghost c: seq<(K, V)>) returns (ok: bool, answer: seq<Option<V>>)
    requires Holds(t, c)
    modifies t, t.table
    ensures ok <==> old(CanDo(t, op))
    ensures fresh(t.table) || t.table == old(t.table)
    ensures if ok then Holds(t, Applied(c, op)) else Holds(t, c) && !CanDo(t, op)
    ensures answer == if ok && op.Get? then [Look(AsMap(c), op.k)] else []
    ensures old(Fresh(t)) && (op.Add? || op.Get?) ==> ok && Fresh(t)
  {
    hide Added, Dropped, AsMap, Unique, Good, Lists, Contents, SearchEnds, Roomy;
    answer := [];
    match op
    case Add(k, v) =>
      ok := WillEnd(t, k);
      if t.SomeEmpty() { FreshEnds(t, k); }
      if ok { ObjectAdd(t, k, v, c); }
    case Del(k) =>
      ok := WillEnd(t, k);
      if ok { ghost var q := ObjectDel(t, k, c); }
    case Get(k) =>
      ok := WillEnd(t, k);
      if t.SomeEmpty() { FreshEnds(t, k); }
      if ok {
        var v := ObjectGet(t, k, c);
        answer := [v];
      }
    case Resize(n) =>
      ok := n > 0 && Roomy(t.count, n);
      if ok { t.Resize(n); }
  }

  /** Any run of additions, deletions, lookups and resizes, up to an operation that cannot be done: the table is the map
      that the run makes, in order of insertion, and every lookup has yielded what the map held. A run that adds and
      looks up only, from a table without freed slots and with an empty one, is done to its end. */
  method Execute<K(==), V>(t: LinkHash<K, V>, ops: seq<Op<K, V>>, ghost c: seq<(K, V)>)
    returns (done: nat, answers: seq<Option<V>>)
    requires Holds(t, c)
    modifies t, t.table
    ensures fresh(t.table) || t.table == old(t.table)
    ensures done <= |ops| && Holds(t, After(c, ops[..done])) && AsMap(t.Entries()) == MapAfter(AsMap(c), ops[..done])
    ensures answers == Answers(AsMap(c), ops[..done])
    ensures done < |ops| ==> !CanDo(t, ops[done])
    ensures old(Fresh(t)) && Growing(ops) ==> done == |ops| && Fresh(t)
  {
    hide *;
    HoldsIs(t, c);
    NothingYet(c, AsMap(c), ops);
    done, answers := 0, [];
    while done < |ops|
      invariant fresh(t.table) || t.table == old(t.table)
      invariant done <= |ops| && Holds(t, After(c, ops[..done])) && answers == Answers(AsMap(c), ops[..done])
      invariant old(Fresh(t)) && Growing(ops) ==> Fresh(t)
    {
      ghost var b := After(c, ops[..done]);
      RunIsMap(c, ops[..done]);
      if Growing(ops) { AllGrow(ops, done); }
      var ok, answer := Perform(t, ops[done], b);
      if !ok {
        HoldsIs(t, b);
        return;
      }
      OneMore(c, AsMap(c), ops, done);
      answers := answers + answer;
      done := done + 1;
    }
    RunIsMap(c, ops[..done]);
    HoldsIs(t, After(c, ops[..done]));
  }

  lemma AllGrow<K, V>(ops: seq<Op<K, V>>, n: nat)
    requires Growing(ops) && n < |ops|
    ensures ops[n].Add? || ops[n].Get?
  {
  }

  lemma HoldsIs<K, V>(t: LinkHash<K, V>, c: seq<(K, V)>)
    requires Holds(t, c)
    ensures t.Valid() && t.Entries() == c && Unique(c)
  {
  }

  /** A new JSON object, filled field by field: no search can fail to end, whatever the keys and their hashes. */
  method NewObject<K(==), V>(hash: K -> nat, ops: seq<Op<K, V>>) returns (t: LinkHash<K, V>, answers: seq<Option<V>>)
    requires Growing(ops)
    ensures Holds(t, After([], ops)) && AsMap(t.Entries()) == MapAfter(map[], ops) && answers == Answers(map[], ops)
    ensures forall k :: SearchEnds(t.table[..], k)
  {
    hide *;
    t := new LinkHash<K, V>(16, hash);
    NewIsFresh(t);
    NoEntries<K, V>();
    var done;
    done, answers := Execute(t, ops, []);
    assert ops[..done] == ops;
    HoldsIs(t, After([], ops));
    FreshIs(t);
    forall k ensures SearchEnds(t.table[..], k) { FreshEnds(t, k); }
  }

  lemma NewIsFresh<K, V>(t: LinkHash<K, V>)
    requires t.Valid() && t.size >= 3 && t.Entries() == []
    requires forall n :: 0 <= n < t.size ==> t.table[n].mark.Empty?
    ensures Fresh(t) && Holds(t, [])
  {
    assert t.table[0].mark.Empty?;
  }

  lemma NoEntries<K, V>()
    ensures AsMap<K, V>([]) == map[]
  {
  }

  lemma FreshIs<K, V>(t: LinkHash<K, V>)
    requires Fresh(t)
    ensures t.SomeEmpty()
  {
  }

  // ---------- where the table goes wrong ----------

  /** After a resize to too few slots an entry that lies beyond them is not found any more. */
  lemma Lost<K, V>(s: Slots<K, V>, order: seq<nat>, hash: K -> nat, size: nat, n: nat)
    requires Lists(s, order) && Unique(Contents(s, order)) && 0 < size <= n < |s| && s[n].mark.Live?
    ensures forall i: nat :: var m := s[Probe(hash, s[n].mark.key, size, i)].mark;
                             !(m.Live? && m.key == s[n].mark.key)
  {
    var p := PositionOf(s, order, n);
    forall i: nat
      ensures var m := s[Probe(hash, s[n].mark.key, size, i)].mark; !(m.Live? && m.key == s[n].mark.key)
    {
      var x := Probe(hash, s[n].mark.key, size, i);
      if s[x].mark.Live? {
        var r := PositionOf(s, order, x);
        assert Contents(s, order)[r].0 == s[x].mark.key && Contents(s, order)[p].0 == s[n].mark.key;
      }
    }
  }

  /** Three entries in a table that is made to have one slot: the array has four, and the search for an entry of the
      table never ends. */
  method ShrinkTooFar() returns (t: LinkHash<nat, int>, k: nat)
    ensures t.size == 1 && t.table.Length == 4 && !t.Valid()
    ensures exists n :: 0 <= n < 4 && t.table[n].mark == Live(k, 0)
    ensures forall i: nat :: !Stops(t.table[Probe(t.hash, k, t.size, i)].mark, k)
  {
    hide *;
    t := new LinkHash<nat, int>(16, Identity);
    ghost var n := t.Insert(0, 0);
    n := t.Insert(1, 0);
    n := t.Insert(2, 0);
    ghost var e: seq<(nat, int)> := t.Entries();
    assert e == [(0, 0), (1, 0), (2, 0)];
    OneToFour();
    t.Resize(1);
    AllUntouched(t);
    ThreeInFour(t.table[..], t.order, t.head, t.tail);
    k := if t.table[0].mark.key == 0 then 1 else 0;
    OneSlot(t.table[..], t.order, k);
  }

  lemma OneToFour()
    ensures Grown(1, 3) == 4 && !Roomy(3, 1)
  {
    assert Grown(1, 1) == 1 && Grown(1, 2) == 2;
  }

  lemma AllUntouched<K, V>(t: LinkHash<K, V>)
    requires t.NoneFreed()
    ensures Untouched(t.table[..])
  {
  }

  lemma ThreeInFour(s: Slots<nat, int>, order: seq<nat>, head: int, tail: int)
    requires |s| > 0 && Good(s, Identity, order, head, tail) && Untouched(s) && Lists(s, order)
    requires Contents(s, order) == [(0, 0), (1, 0), (2, 0)]
    ensures s[0].mark.Live?
  {
    var n := order[0];
    assert Contents(s, order)[0] == (s[n].mark.key, s[n].mark.value);
    HomeOf(0, |s|);
    if n != 0 { assert Before(0, 0, n); }
  }

  lemma OneSlot(s: Slots<nat, int>, order: seq<nat>, k: nat)
    requires |s| > 0 && Lists(s, order) && Contents(s, order) == [(0, 0), (1, 0), (2, 0)]
    requires s[0].mark.Live? && k == if s[0].mark.key == 0 then 1 else 0
    ensures exists n :: 0 <= n < |s| && s[n].mark == Live(k, 0)
    ensures forall i: nat :: !Stops(s[Probe(Identity, k, 1, i)].mark, k)
  {
    assert Contents(s, order)[k] == (s[order[k]].mark.key, s[order[k]].mark.value);
  }

  function Identity(k: nat): nat { k }

  /** The first i slots are freed, the others empty. */
  ghost predicate Swept(s: Slots<nat, int>, i: nat) {
    forall n :: 0 <= n < |s| ==> if n < i then s[n].mark.Freed? else s[n].mark.Empty?
  }

  lemma SweptOn(s: Slots<nat, int>, s1: Slots<nat, int>, s2: Slots<nat, int>, i: nat, n: nat, q: nat)
    requires Swept(s, i) && i < |s| && Marked(s, s1, n, Live(i, 0)) && AllTaken(s, i, n)
    requires Emptied(s1, s2, q)
    ensures Swept(s2, i + 1)
  {
    assert Before(i, i, n) <==> n != i;
  }

  lemma HomeOf(i: nat, size: nat)
    requires i < size
    ensures Home(Identity, i, size) == i
  {
    SmallMod(i, size);
  }

  lemma SmallMod(i: nat, n: nat)
    requires i < n
    ensures i % n == i
  {
    assert i == i / n * n + i % n;
    Multiple(i / n, n);
  }

  lemma Multiple(q: nat, n: nat)
    ensures q >= 1 ==> q * n >= n
  {
    if q >= 1 { assert q * n == (q - 1) * n + n; }
  }

  lemma SweptEnds(s: Slots<nat, int>)
    requires Swept(s, |s|)
    ensures forall k :: !SearchEnds(s, k)
  {
  }

  /** One key is added and deleted again. */
  method Sweep(t: LinkHash<nat, int>, i: nat)
    requires t.Valid() && t.count == 0 && t.hash == Identity && i < t.size && Swept(t.table[..], i)
    modifies t, t.table
    ensures t.Valid() && t.count == 0 && t.size == old(t.size) && t.table == old(t.table)
    ensures Swept(t.table[..], i + 1)
  {
    hide Good, Lists, Contents, AllTaken, Swept, Without;
    HomeOf(i, t.size);
    ghost var n := t.Insert(i, 0);
    ghost var s1 := t.table[..];
    assert Stops(s1[n].mark, i) && t.Entries()[0].0 == i;
    hide Marked;
    var rc;
    ghost var p;
    ghost var o := t.order;
    rc, p := t.Delete(i);
    SweptOn(old(t.table[..]), s1, t.table[..], i, n, o[p]);
  }

  /** A table of any size in which additions and deletions have left only freed slots: it is empty, and no search in it
      comes to an end, however many slots it looks at. */
  method Saturate(size: nat) returns (t: LinkHash<nat, int>)
    requires size > 0
    ensures t.Valid() && t.size == size && t.count == 0
    ensures forall k, i: nat :: !Stops(t.table[Probe(t.hash, k, t.size, i)].mark, k)
  {
    hide Good, Contents, Lists;
    t := new LinkHash<nat, int>(size, Identity);
    for i := 0 to size
      invariant fresh(t) && fresh(t.table) && t.Valid() && t.size == size && t.hash == Identity && t.count == 0
      invariant Swept(t.table[..], i)
    {
      Sweep(t, i);
    }
    SweptEnds(t.table[..]);
    ghost var s := t.table[..];
    forall k, i: nat ensures !Stops(t.table[Probe(t.hash, k, t.size, i)].mark, k) {
      ProbeEnds(s, t.hash, k, t.size);
      assert s[..t.size] == s;
      assert s[Probe(t.hash, k, t.size, i)] == t.table[Probe(t.hash, k, t.size, i)];
    }
  }
}
