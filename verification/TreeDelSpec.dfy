/** Deletion from the height-balanced tree as a value. */
module TreeDelSpec {
  import opened Bytes
  import opened TreeSpec

  // ---------- rotations as deletion does them ----------

  /** R_rot: the left child comes up; depths are moved along, not computed anew. */
  function RRot<R>(t: Tree<R>): Tree<R>
    requires t.Node? && t.left.Node?
  {
    var l := t.left;
    var n := t.(left := l.right, ld := l.rd);
    l.(right := n, rd := Max(n.rd, n.ld) + 1)
  }

  function LRot<R>(t: Tree<R>): Tree<R>
    requires t.Node? && t.right.Node?
  {
    var r := t.right;
    var n := t.(right := r.left, rd := r.ld);
    r.(left := n, ld := Max(n.rd, n.ld) + 1)
  }

  /** R_blc, when the right side is too high: the inner grandchild comes up if there is one, else the child. */
  function RBlc<R>(t: Tree<R>): Tree<R>
    requires ExactNode(t) && t.rd - t.ld > 1
  {
    var c := t.right;
    var up :=
      if c.left.Nil? then c
      else
        var m := c.left;
        assert Exact(c) && Exact(m);
        var f := c.(left := m.right, ld := m.rd);
        assert f.rd == Height(f.right) && f.ld == Height(f.left);
        var f' := if f.rd - f.ld > 1 then LRot(f) else f;
        m.(right := f', rd := D(f'));
    var n := t.(right := up.left, rd := up.ld);
    assert Exact(c) && n.rd == Height(n.right) && n.ld == Height(n.left);
    var n' := if n.ld - n.rd > 1 then RRot(n) else n;
    up.(left := n', ld := D(n'))
  }

  /** L_blc, when the left side is too high. */
  function LBlc<R>(t: Tree<R>): Tree<R>
    requires ExactNode(t) && t.ld - t.rd > 1
  {
    var c := t.left;
    var up :=
      if c.right.Nil? then c
      else
        var m := c.right;
        assert Exact(c) && Exact(m);
        var f := c.(right := m.left, rd := m.ld);
        assert f.rd == Height(f.right) && f.ld == Height(f.left);
        var f' := if f.ld - f.rd > 1 then RRot(f) else f;
        m.(left := f', ld := D(f'));
    var n := t.(left := up.right, ld := up.rd);
    assert Exact(c) && n.rd == Height(n.right) && n.ld == Height(n.left);
    var n' := if n.rd - n.ld > 1 then LRot(n) else n;
    up.(right := n', rd := D(n'))
  }

  lemma RRotKeeps<R>(t: Tree<R>)
    requires ExactNode(t) && t.left.Node?
    ensures Exact(RRot(t)) && Inorder(RRot(t)) == Inorder(t)
  {
    DIsHeight(t.left.right);
    SingleRightKeeps(t);
    assert RRot(t) == SingleRight(t);
  }

  lemma LRotKeeps<R>(t: Tree<R>)
    requires ExactNode(t) && t.right.Node?
    ensures Exact(LRot(t)) && Inorder(LRot(t)) == Inorder(t)
  {
    DIsHeight(t.right.left);
    SingleLeftKeeps(t);
    assert LRot(t) == SingleLeft(t);
  }

  lemma RBlcKeeps<R>(t: Tree<R>)
    requires ExactNode(t) && t.rd - t.ld > 1
    ensures Exact(RBlc(t)) && RBlc(t).Node? && Inorder(RBlc(t)) == Inorder(t)
  {
    var c := t.right;
    InorderNode(t); InorderNode(c);
    if c.left.Nil? {
      var n := t.(right := c.left, rd := c.ld);
      BringUpLeft(t, c, n, if n.ld - n.rd > 1 then RRot(n) else n);
    } else {
      var m := c.left;
      assert Exact(c) && Exact(m);
      var f := c.(left := m.right, ld := m.rd);
      var f' := if f.rd - f.ld > 1 then LRot(f) else f;
      if f.rd - f.ld > 1 { LRotKeeps(f); }
      var up := m.(right := f', rd := D(f'));
      DIsHeight(f');
      InorderNode(m); InorderNode(f); InorderNode(up);
      assert Inorder(up) == Inorder(c) by {
        hide Inorder;
        Regroup3(Inorder(m.left), (m.ref, m.key), Inorder(m.right), (c.ref, c.key), Inorder(c.right));
      }
      var n := t.(right := up.left, rd := up.ld);
      BringUpLeft(t, up, n, if n.ld - n.rd > 1 then RRot(n) else n);
    }
  }

  /** The node `up`, made of everything right of t, takes t as its left child. */
  lemma BringUpLeft<R>(t: Tree<R>, up: Tree<R>, n: Tree<R>, n': Tree<R>)
    requires ExactNode(t) && Exact(up) && up.Node? && Inorder(up) == Inorder(t.right)
    requires n == t.(right := up.left, rd := up.ld) && n' == if n.ld - n.rd > 1 then RRot(n) else n
    ensures Exact(up.(left := n', ld := D(n')))
    ensures Inorder(up.(left := n', ld := D(n'))) == Inorder(t)
  {
    if n.ld - n.rd > 1 { RRotKeeps(n); }
    DIsHeight(n');
    var r := up.(left := n', ld := D(n'));
    InorderNode(r); InorderNode(n); InorderNode(t); InorderNode(up);
    hide Inorder;
    Regroup3(Inorder(t.left), (t.ref, t.key), Inorder(up.left), (up.ref, up.key), Inorder(up.right));
  }

  lemma LBlcKeeps<R>(t: Tree<R>)
    requires ExactNode(t) && t.ld - t.rd > 1
    ensures Exact(LBlc(t)) && LBlc(t).Node? && Inorder(LBlc(t)) == Inorder(t)
  {
    var c := t.left;
    InorderNode(t); InorderNode(c);
    if c.right.Nil? {
      var n := t.(left := c.right, ld := c.rd);
      BringUpRight(t, c, n, if n.rd - n.ld > 1 then LRot(n) else n);
    } else {
      var m := c.right;
      assert Exact(c) && Exact(m);
      var f := c.(right := m.left, rd := m.ld);
      var f' := if f.ld - f.rd > 1 then RRot(f) else f;
      if f.ld - f.rd > 1 { RRotKeeps(f); }
      var up := m.(left := f', ld := D(f'));
      DIsHeight(f');
      InorderNode(m); InorderNode(f); InorderNode(up);
      assert Inorder(up) == Inorder(c) by {
        hide Inorder;
        Regroup3(Inorder(c.left), (c.ref, c.key), Inorder(m.left), (m.ref, m.key), Inorder(m.right));
      }
      var n := t.(left := up.right, ld := up.rd);
      BringUpRight(t, up, n, if n.rd - n.ld > 1 then LRot(n) else n);
    }
  }

  lemma BringUpRight<R>(t: Tree<R>, up: Tree<R>, n: Tree<R>, n': Tree<R>)
    requires ExactNode(t) && Exact(up) && up.Node? && Inorder(up) == Inorder(t.left)
    requires n == t.(left := up.right, ld := up.rd) && n' == if n.rd - n.ld > 1 then LRot(n) else n
    ensures Exact(up.(right := n', rd := D(n')))
    ensures Inorder(up.(right := n', rd := D(n'))) == Inorder(t)
  {
    if n.rd - n.ld > 1 { LRotKeeps(n); }
    DIsHeight(n');
    var r := up.(right := n', rd := D(n'));
    InorderNode(r); InorderNode(n); InorderNode(t); InorderNode(up);
    hide Inorder;
    Regroup3(Inorder(up.left), (up.ref, up.key), Inorder(up.right), (t.ref, t.key), Inorder(t.right));
  }

  /** After the right subtree has shrunk to r: depth, and rebalancing if the left side is too high. */
  function ShrunkRight<R>(t: Tree<R>, r: Tree<R>): (q: Tree<R>)
    requires t.Node? && Exact(t) && Exact(r)
    ensures Exact(q) && q.Node? && Inorder(q) == Inorder(t.left) + [(t.ref, t.key)] + Inorder(r)
  {
    var n := t.(right := r, rd := D(r));
    DIsHeight(r);
    if n.ld - n.rd > 1 then LBlcKeeps(n); LBlc(n) else n
  }

  function ShrunkLeft<R>(t: Tree<R>, l: Tree<R>): (q: Tree<R>)
    requires t.Node? && Exact(t) && Exact(l)
    ensures Exact(q) && q.Node? && Inorder(q) == Inorder(l) + [(t.ref, t.key)] + Inorder(t.right)
  {
    var n := t.(left := l, ld := D(l));
    DIsHeight(l);
    if n.rd - n.ld > 1 then RBlcKeeps(n); RBlc(n) else n
  }

  // ---------- the replacement node ----------

  /** The rightmost node. */
  function Rightmost<R>(t: Tree<R>): (m: Tree<R>)
    requires t.Node?
    ensures m.Node?
  {
    if t.right.Nil? then t else Rightmost(t.right)
  }

  function Leftmost<R>(t: Tree<R>): (m: Tree<R>)
    requires t.Node?
    ensures m.Node?
  {
    if t.left.Nil? then t else Leftmost(t.left)
  }

  lemma Front<T>(x: T, a: seq<T>, y: T, b: seq<T>)
    ensures [x] + a + [y] + b == [x] + (a + [y] + b)
  {
  }

  lemma Back<T>(a: seq<T>, y: T, b: seq<T>, x: T)
    ensures a + [y] + (b + [x]) == a + [y] + b + [x]
  {
  }

  /** t_r: the tree without its rightmost node. */
  function DropRightmost<R>(t: Tree<R>): (q: Tree<R>)
    requires t.Node? && Exact(t)
    ensures Exact(q) && Inorder(t) == Inorder(q) + [(Rightmost(t).ref, Rightmost(t).key)]
    decreases t
  {
    if t.right.Nil? then t.left
    else
      var r := DropRightmost(t.right);
      Back(Inorder(t.left), (t.ref, t.key), Inorder(r), (Rightmost(t).ref, Rightmost(t).key));
      ShrunkRight(t, r)
  }

  function DropLeftmost<R>(t: Tree<R>): (q: Tree<R>)
    requires t.Node? && Exact(t)
    ensures Exact(q) && Inorder(t) == [(Leftmost(t).ref, Leftmost(t).key)] + Inorder(q)
    decreases t
  {
    if t.left.Nil? then t.right
    else
      var l := DropLeftmost(t.left);
      Front((Leftmost(t).ref, Leftmost(t).key), Inorder(l), (t.ref, t.key), Inorder(t.right));
      ShrunkLeft(t, l)
  }

  /** t_delete: the tree without its root. */
  function DropRoot<R>(t: Tree<R>): (q: Tree<R>)
    requires t.Node? && Exact(t)
    ensures Exact(q) && Inorder(q) == Inorder(t.left) + Inorder(t.right)
  {
    if t.right.Nil? then t.left
    else if t.left.Nil? then t.right
    else if t.ld >= t.rd then
      var m, l := Rightmost(t.left), DropRightmost(t.left);
      DIsHeight(l);
      Node(l, m.ref, m.key, D(l), t.rd, t.right)
    else
      var m, r := Leftmost(t.right), DropLeftmost(t.right);
      DIsHeight(r);
      Node(t.left, m.ref, m.key, t.ld, D(r), r)
  }

  /** BB_Tree_Del, when user_free lets the node go. */
  function Del<R>(t: Tree<R>, key: int): (q: Tree<R>)
    requires Exact(t)
    ensures Exact(q)
    decreases t
  {
    if t.Nil? then t
    else if t.key == key then DropRoot(t)
    else if t.key > key then
      if Level(t.left, key) == 0 then t else ShrunkLeft(t, Del(t.left, key))
    else
      if Level(t.right, key) == 0 then t else ShrunkRight(t, Del(t.right, key))
  }

  /** The level at which the search for the key ends on its node, the root being level 1; 0 if it does not. */
  function Level<R>(t: Tree<R>, key: int): (n: nat) {
    if t.Nil? then 0
    else if t.key == key then 1
    else
      var n := Level(if t.key > key then t.left else t.right, key);
      if n == 0 then 0 else n + 1
  }

  // ---------- what deletion does to the contents ----------

  /** An ascending sequence without the element of the key, if it has one. */
  function Remove<R>(s: seq<(R, int)>, key: int): (r: seq<(R, int)>) {
    if s == [] then []
    else if s[0].1 == key then s[1..]
    else [s[0]] + Remove(s[1..], key)
  }

  lemma {:induction false} RemoveAbsent<R>(s: seq<(R, int)>, key: int)
    requires forall i :: 0 <= i < |s| ==> s[i].1 != key
    ensures Remove(s, key) == s
    decreases |s|
  {
    if s != [] { RemoveAbsent(s[1..], key); }
  }

  /** Removing from the part in which the key can be. */
  lemma {:induction false} RemoveLeft<R>(a: seq<(R, int)>, x: (R, int), b: seq<(R, int)>, key: int)
    requires key < x.1 && forall i :: 0 <= i < |b| ==> x.1 < b[i].1
    ensures Remove(a + [x] + b, key) == Remove(a, key) + [x] + b
    decreases |a|
  {
    var s := a + [x] + b;
    if a == [] {
      assert s == [x] + b;
      RemoveAbsent(s, key);
    } else {
      assert s[0] == a[0] && s[1..] == a[1..] + [x] + b;
      if a[0].1 != key {
        RemoveLeft(a[1..], x, b, key);
        assert [a[0]] + (Remove(a[1..], key) + [x] + b) == [a[0]] + Remove(a[1..], key) + [x] + b;
      }
    }
  }

  lemma {:induction false} RemoveRight<R>(a: seq<(R, int)>, x: (R, int), b: seq<(R, int)>, key: int)
    requires x.1 < key && forall i :: 0 <= i < |a| ==> a[i].1 < x.1
    ensures Remove(a + [x] + b, key) == a + [x] + Remove(b, key)
    decreases |a|
  {
    var s := a + [x] + b;
    if a == [] {
      assert s[0] == x && s[1..] == b;
    } else {
      assert s[0] == a[0] && s[1..] == a[1..] + [x] + b;
      RemoveRight(a[1..], x, b, key);
      assert [a[0]] + (a[1..] + [x] + Remove(b, key)) == a + [x] + Remove(b, key);
    }
  }

  lemma {:induction false} RemoveHere<R>(a: seq<(R, int)>, x: (R, int), b: seq<(R, int)>)
    requires forall i :: 0 <= i < |a| ==> a[i].1 < x.1
    ensures Remove(a + [x] + b, x.1) == a + b
    decreases |a|
  {
    var s := a + [x] + b;
    if a == [] {
      assert s[0] == x && s[1..] == b;
      assert a + b == b;
    } else {
      assert s[0] == a[0] && s[1..] == a[1..] + [x] + b;
      RemoveHere(a[1..], x, b);
      assert [a[0]] + (a[1..] + b) == a + b;
    }
  }

  /** Deletion from an ordered tree of whatever balance removes exactly the element of the key, and the tree stays ordered;
      the level that it reports is 0 exactly when there is none, and then the tree is unchanged. */
  lemma DelContents<R>(t: Tree<R>, key: int)
    requires Exact(t) && Ordered(t)
    ensures Inorder(Del(t, key)) == Remove(Inorder(t), key)
    ensures Ordered(Del(t, key)) && !HasKey(Inorder(Del(t, key)), key)
    ensures Level(t, key) > 0 <==> HasKey(Inorder(t), key)
    ensures Level(t, key) == 0 ==> Del(t, key) == t
  {
    DelIsRemove(t, key);
    RemoveAscending(Inorder(t), key);
    hide Inorder, Del, Level, Remove;
  }

  lemma {:induction false} DelIsRemove<R>(t: Tree<R>, key: int)
    requires Exact(t) && Ordered(t)
    ensures Inorder(Del(t, key)) == Remove(Inorder(t), key)
    ensures Level(t, key) > 0 <==> HasKey(Inorder(t), key)
    ensures Level(t, key) == 0 ==> Del(t, key) == t
    decreases t
  {
    if t.Node? {
      var a, x, b := Inorder(t.left), (t.ref, t.key), Inorder(t.right);
      InorderNode(t);
      Halves(a, x, b);
      KeyParts(a, x, b, key);
      if key < t.key {
        DelIsRemove(t.left, key);
        RemoveLeft(a, x, b, key);
        hide Inorder, HasKey;
        if Level(t.left, key) == 0 { assert Del(t, key) == t; }
      } else if t.key < key {
        DelIsRemove(t.right, key);
        RemoveRight(a, x, b, key);
        hide Inorder, HasKey;
        if Level(t.right, key) == 0 { assert Del(t, key) == t; }
      } else {
        RemoveHere(a, x, b);
        assert HasKey(a + [x] + b, key);
      }
    }
  }

  lemma KeyParts<R>(a: seq<(R, int)>, x: (R, int), b: seq<(R, int)>, key: int)
    requires forall i :: 0 <= i < |a| ==> a[i].1 < x.1
    requires forall i :: 0 <= i < |b| ==> x.1 < b[i].1
    ensures var s := a + [x] + b;
            HasKey(s, key) <==> if key < x.1 then HasKey(a, key) else if x.1 < key then HasKey(b, key) else true
  {
    var s := a + [x] + b;
    assert s[|a|] == x;
    if HasKey(a, key) {
      var i :| 0 <= i < |a| && a[i].1 == key;
      assert s[i].1 == key;
    }
    if HasKey(b, key) {
      var i :| 0 <= i < |b| && b[i].1 == key;
      assert s[|a| + 1 + i].1 == key;
    }
    if HasKey(s, key) {
      var i :| 0 <= i < |s| && s[i].1 == key;
      if i < |a| {
        assert s[i] == a[i];
      } else if i > |a| {
        assert s[i] == b[i - |a| - 1];
      }
    }
  }

  /** What removal from a sequence means: one element less, the others in their places. */
  lemma {:induction false} RemovePresent<R>(s: seq<(R, int)>, key: int) returns (p: nat)
    requires Ascending(s) && HasKey(s, key)
    ensures p < |s| && s[p].1 == key && Remove(s, key) == s[..p] + s[p + 1..]
    decreases |s|
  {
    hide *;
    RemoveFirst(s, key);
    if s[0].1 == key {
      p := 0;
      assert s[..0] + s[1..] == s[1..];
    } else {
      TailKey(s, key);
      var q := RemovePresent(s[1..], key);
      p := q + 1;
      assert s[1..][q] == s[p];
      Unshift(s, q);
    }
  }

  lemma RemoveFirst<R>(s: seq<(R, int)>, key: int)
    requires HasKey(s, key)
    ensures s != [] && Remove(s, key) == if s[0].1 == key then s[1..] else [s[0]] + Remove(s[1..], key)
  {
  }

  lemma TailKey<R>(s: seq<(R, int)>, key: int)
    requires Ascending(s) && HasKey(s, key) && s != [] && s[0].1 != key
    ensures Ascending(s[1..]) && HasKey(s[1..], key)
  {
    TailAscending(s, key);
    hide Ascending;
    var i :| 0 <= i < |s| && s[i].1 == key;
    assert s[1..][i - 1].1 == key;
  }

  lemma Unshift<T>(s: seq<T>, q: nat)
    requires q + 1 < |s|
    ensures [s[0]] + (s[1..][..q] + s[1..][q + 1..]) == s[..q + 1] + s[q + 2..]
  {
  }

  lemma RemoveAscending<R>(s: seq<(R, int)>, key: int)
    requires Ascending(s)
    ensures Ascending(Remove(s, key)) && !HasKey(Remove(s, key), key)
  {
    if HasKey(s, key) {
      var p := RemovePresent(s, key);
      hide *;
      WithoutOne(s, p);
    } else {
      RemoveAbsent(s, key);
    }
  }

  lemma WithoutOne<R>(s: seq<(R, int)>, p: nat)
    requires Ascending(s) && p < |s|
    ensures Ascending(s[..p] + s[p + 1..]) && !HasKey(s[..p] + s[p + 1..], s[p].1)
  {
    var r := s[..p] + s[p + 1..];
    forall i, j | 0 <= i < j < |r| ensures r[i].1 < r[j].1 {
      assert r[i] == (if i < p then s[i] else s[i + 1]) && r[j] == if j < p then s[j] else s[j + 1];
    }
    OthersStay(s, p, s[p].1);
  }

  lemma RemoveKeys<R>(s: seq<(R, int)>, key: int, k: int)
    requires Ascending(s)
    ensures HasKey(Remove(s, key), k) <==> HasKey(s, k) && k != key
  {
    if HasKey(s, key) {
      var p := RemovePresent(s, key);
      hide *;
      OthersStay(s, p, k);
    } else {
      RemoveAbsent(s, key);
    }
  }

  lemma OthersStay<R>(s: seq<(R, int)>, p: nat, k: int)
    requires Ascending(s) && p < |s|
    ensures HasKey(s[..p] + s[p + 1..], k) <==> HasKey(s, k) && k != s[p].1
  {
    var r := s[..p] + s[p + 1..];
    if HasKey(s, k) && k != s[p].1 {
      var i :| 0 <= i < |s| && s[i].1 == k;
      assert r[if i < p then i else i - 1] == s[i];
    }
    if HasKey(r, k) {
      var i :| 0 <= i < |r| && r[i].1 == k;
      assert s[if i < p then i else i + 1] == r[i];
    }
  }

  // ---------- runs of additions and deletions ----------

  datatype Op = Adding(key: int) | Deleting(key: int)

  /** What an operation makes of a tree; an addition brings a node along. */
  predicate Step<R(==)>(t: Tree<R>, op: Op, node: Option<R>, t': Tree<R>)
    requires Exact(t)
  {
    match op
    case Adding(key) => node.Some? && t' == Add(t, key, node.value)
    case Deleting(key) => t' == Del(t, key)
  }

  /** The trees of a run that starts with an empty one. */
  predicate Run<R(==)>(ops: seq<Op>, nodes: seq<Option<R>>, trees: seq<Tree<R>>) {
    |nodes| == |ops| && |trees| == |ops| + 1 && trees[0] == Nil &&
    forall i :: 0 <= i < |ops| ==> Exact(trees[i]) && Step(trees[i], ops[i], nodes[i], trees[i + 1])
  }

  /** The key has been added, and not deleted since. */
  predicate Present(ops: seq<Op>, k: int) {
    ops != [] &&
    if ops[|ops| - 1].key == k then ops[|ops| - 1].Adding? else Present(ops[..|ops| - 1], k)
  }

  lemma StepKeys<R>(t: Tree<R>, op: Op, node: Option<R>, t': Tree<R>, k: int)
    requires Exact(t) && Ordered(t) && Step(t, op, node, t')
    ensures Exact(t') && Ordered(t')
    ensures HasKey(Inorder(t'), k) <==> if op.key == k then op.Adding? else HasKey(Inorder(t), k)
  {
    hide Inorder, Add, Del, Insert, Remove;
    match op
    case Adding(key) =>
      AddContents(t, key, node.value);
      InsertAscending(Inorder(t), key, node.value);
      InsertKeys(Inorder(t), key, node.value, k);
    case Deleting(key) =>
      DelContents(t, key);
      RemoveKeys(Inorder(t), key, k);
  }

  /** Every run of additions and deletions ends in an ordered tree with exact depths that holds exactly the keys added and
      not deleted since. */
  lemma {:induction false} MixedRuns<R>(ops: seq<Op>, nodes: seq<Option<R>>, trees: seq<Tree<R>>)
    requires Run(ops, nodes, trees)
    ensures Exact(trees[|ops|]) && Ordered(trees[|ops|])
    ensures forall k :: HasKey(Inorder(trees[|ops|]), k) <==> Present(ops, k)
    decreases |ops|
  {
    if ops != [] {
      var n := |ops| - 1;
      MixedRuns(ops[..n], nodes[..n], trees[..n + 1]);
      var t, t' := trees[n], trees[n + 1];
      assert Step(t, ops[n], nodes[n], t');
      hide Inorder, Step, Run;
      StepKeys(t, ops[n], nodes[n], t', 0);
      forall k ensures HasKey(Inorder(t'), k) <==> Present(ops, k) { StepKeys(t, ops[n], nodes[n], t', k); }
    }
  }
}
