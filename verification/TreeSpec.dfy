/** The height-balanced tree as a value: what insertion and deletion make of it. */
module TreeSpec {
  import opened Bytes

  /** A tree with the stored depths of its subtrees; `ref` stands for the node itself. */
  datatype Tree<R> = Nil | Node(left: Tree<R>, ref: R, key: int, ld: int, rd: int, right: Tree<R>)

  // ---------- what one wants to know about a tree ----------

  function Height<R>(t: Tree<R>): (h: nat) {
    if t.Nil? then 0 else 1 + Max(Height(t.left), Height(t.right))
  }

  /** Every stored depth is the true height of the subtree on that side. */
  predicate Exact<R>(t: Tree<R>) {
    t.Node? ==> t.ld == Height(t.left) && t.rd == Height(t.right) && Exact(t.left) && Exact(t.right)
  }

  /** The height-balance condition of Adelson-Velsky and Landis. */
  predicate Balanced<R>(t: Tree<R>) {
    t.Node? ==>
      -1 <= Height(t.left) - Height(t.right) <= 1 && Balanced(t.left) && Balanced(t.right)
  }

  /** The nodes in order, each with its key. */
  function Inorder<R>(t: Tree<R>): (s: seq<(R, int)>) {
    if t.Nil? then [] else Inorder(t.left) + [(t.ref, t.key)] + Inorder(t.right)
  }

  predicate Ascending<R>(s: seq<(R, int)>) {
    forall i, j :: 0 <= i < j < |s| ==> s[i].1 < s[j].1
  }

  predicate Ordered<R>(t: Tree<R>) { Ascending(Inorder(t)) }

  /** The height as the code computes it, from the stored depths of the node. */
  function D<R>(t: Tree<R>): int {
    if t.Nil? then 0 else Max(t.ld, t.rd) + 1
  }

  lemma DIsHeight<R>(t: Tree<R>)
    requires Exact(t)
    ensures D(t) == Height(t)
  {
  }

  // ---------- insertion (tree.c) ----------

  /** Single rotation to the right: the left child comes up. */
  function SingleRight<R>(t: Tree<R>): Tree<R>
    requires t.Node? && t.left.Node?
  {
    var l := t.left;
    var n := Node(l.right, t.ref, t.key, D(l.right), t.rd, t.right);
    Node(l.left, l.ref, l.key, l.ld, Max(n.ld, n.rd) + 1, n)
  }

  /** Double rotation: the left child's right child comes up. */
  function DoubleRight<R>(t: Tree<R>): Tree<R>
    requires t.Node? && t.left.Node? && t.left.right.Node?
  {
    var l, m := t.left, t.left.right;
    var a := Node(l.left, l.ref, l.key, l.ld, D(m.left), m.left);
    var b := Node(m.right, t.ref, t.key, D(m.right), t.rd, t.right);
    Node(a, m.ref, m.key, Max(a.ld, a.rd) + 1, Max(b.ld, b.rd) + 1, b)
  }

  function SingleLeft<R>(t: Tree<R>): Tree<R>
    requires t.Node? && t.right.Node?
  {
    var r := t.right;
    var n := Node(t.left, t.ref, t.key, t.ld, D(r.left), r.left);
    Node(n, r.ref, r.key, Max(n.ld, n.rd) + 1, r.rd, r.right)
  }

  function DoubleLeft<R>(t: Tree<R>): Tree<R>
    requires t.Node? && t.right.Node? && t.right.left.Node?
  {
    var r, m := t.right, t.right.left;
    var b := Node(m.right, r.ref, r.key, D(m.right), r.rd, r.right);
    var a := Node(t.left, t.ref, t.key, t.ld, D(m.left), m.left);
    Node(a, m.ref, m.key, Max(a.ld, a.rd) + 1, Max(b.ld, b.rd) + 1, b)
  }

  lemma Regroup3<T>(a: seq<T>, x: T, b: seq<T>, y: T, c: seq<T>)
    ensures a + [x] + b + [y] + c == a + [x] + (b + [y] + c)
  {
  }

  lemma Regroup4<T>(a: seq<T>, x: T, b: seq<T>, y: T, c: seq<T>, z: T, d: seq<T>)
    ensures a + [x] + b + [y] + (c + [z] + d) == a + [x] + (b + [y] + c) + [z] + d
    ensures a + [x] + b + [y] + (c + [z] + d) == a + [x] + (b + [y] + c + [z] + d)
  {
  }

  ghost predicate ExactNode<R>(t: Tree<R>) {
    t.Node? && Exact(t.left) && Exact(t.right) && t.ld == Height(t.left) && t.rd == Height(t.right)
  }

  lemma InorderNode<R>(t: Tree<R>)
    requires t.Node?
    ensures Inorder(t) == Inorder(t.left) + [(t.ref, t.key)] + Inorder(t.right)
  {
  }

  lemma SingleRightKeeps<R>(t: Tree<R>)
    requires ExactNode(t) && t.left.Node?
    ensures Exact(SingleRight(t)) && Inorder(SingleRight(t)) == Inorder(t)
  {
    var l, r := t.left, SingleRight(t);
    InorderNode(t); InorderNode(l); InorderNode(r); InorderNode(r.right);
    hide Inorder;
    Regroup3(Inorder(l.left), (l.ref, l.key), Inorder(l.right), (t.ref, t.key), Inorder(t.right));
  }

  lemma SingleLeftKeeps<R>(t: Tree<R>)
    requires ExactNode(t) && t.right.Node?
    ensures Exact(SingleLeft(t)) && Inorder(SingleLeft(t)) == Inorder(t)
  {
    var r, q := t.right, SingleLeft(t);
    InorderNode(t); InorderNode(r); InorderNode(q); InorderNode(q.left);
    hide Inorder;
    Regroup3(Inorder(t.left), (t.ref, t.key), Inorder(r.left), (r.ref, r.key), Inorder(r.right));
  }

  lemma DoubleRightKeeps<R>(t: Tree<R>)
    requires ExactNode(t) && t.left.Node? && t.left.right.Node?
    ensures Exact(DoubleRight(t)) && Inorder(DoubleRight(t)) == Inorder(t)
  {
    var l, m, r := t.left, t.left.right, DoubleRight(t);
    InorderNode(t); InorderNode(l); InorderNode(m);
    InorderNode(r); InorderNode(r.left); InorderNode(r.right);
    hide Inorder;
    Regroup4(Inorder(l.left), (l.ref, l.key), Inorder(m.left), (m.ref, m.key), Inorder(m.right), (t.ref, t.key),
             Inorder(t.right));
    Regroup3(Inorder(l.left), (l.ref, l.key), Inorder(m.left), (m.ref, m.key), Inorder(m.right));
  }

  lemma DoubleLeftKeeps<R>(t: Tree<R>)
    requires ExactNode(t) && t.right.Node? && t.right.left.Node?
    ensures Exact(DoubleLeft(t)) && Inorder(DoubleLeft(t)) == Inorder(t)
  {
    var r, m, q := t.right, t.right.left, DoubleLeft(t);
    InorderNode(t); InorderNode(r); InorderNode(m);
    InorderNode(q); InorderNode(q.left); InorderNode(q.right);
    hide Inorder;
    Regroup4(Inorder(t.left), (t.ref, t.key), Inorder(m.left), (m.ref, m.key), Inorder(m.right), (r.ref, r.key),
             Inorder(r.right));
  }

  /** After the left subtree has been replaced: depth, and rotation if it is too high. */
  function FixLeft<R>(t: Tree<R>, l: Tree<R>): Tree<R>
    requires t.Node? && Exact(t) && Exact(l) && l.Node?
  {
    var n := t.(left := l, ld := D(l));
    if n.ld - n.rd <= 1 then n
    else if l.ld >= l.rd then SingleRight(n)
    else DoubleRight(n)
  }

  function FixRight<R>(t: Tree<R>, r: Tree<R>): Tree<R>
    requires t.Node? && Exact(t) && Exact(r) && r.Node?
  {
    var n := t.(right := r, rd := D(r));
    if n.rd - n.ld <= 1 then n
    else if r.rd >= r.ld then SingleLeft(n)
    else DoubleLeft(n)
  }

  /** Inserts the key, with `node` as its node, unless it is there already. */
  function Add<R>(t: Tree<R>, key: int, node: R): (r: Tree<R>)
    requires Exact(t)
    ensures Exact(r) && r.Node?
    decreases t
  {
    if t.Nil? then Node(Nil, node, key, 0, 0, Nil)
    else if t.key > key then
      FixLeftKeeps(t, Add(t.left, key, node));
      FixLeft(t, Add(t.left, key, node))
    else if t.key < key then
      FixRightKeeps(t, Add(t.right, key, node));
      FixRight(t, Add(t.right, key, node))
    else t
  }

  lemma FixLeftKeeps<R>(t: Tree<R>, l: Tree<R>)
    requires t.Node? && Exact(t) && Exact(l) && l.Node?
    ensures Exact(FixLeft(t, l))
    ensures Inorder(FixLeft(t, l)) == Inorder(l) + [(t.ref, t.key)] + Inorder(t.right)
  {
    DIsHeight(l);
    var n := t.(left := l, ld := D(l));
    if n.ld - n.rd > 1 {
      if l.ld >= l.rd { SingleRightKeeps(n); } else { DoubleRightKeeps(n); }
    }
    hide Inorder;
  }

  lemma FixRightKeeps<R>(t: Tree<R>, r: Tree<R>)
    requires t.Node? && Exact(t) && Exact(r) && r.Node?
    ensures Exact(FixRight(t, r))
    ensures Inorder(FixRight(t, r)) == Inorder(t.left) + [(t.ref, t.key)] + Inorder(r)
  {
    DIsHeight(r);
    var n := t.(right := r, rd := D(r));
    if n.rd - n.ld > 1 {
      if r.rd >= r.ld { SingleLeftKeeps(n); } else { DoubleLeftKeeps(n); }
    }
    hide Inorder;
  }

  // ---------- what insertion does to the contents ----------

  /** Enters the key into an ascending sequence; a key that is there stays as it is. */
  function Insert<R>(s: seq<(R, int)>, key: int, node: R): (r: seq<(R, int)>) {
    if s == [] then [(node, key)]
    else if s[0].1 < key then [s[0]] + Insert(s[1..], key, node)
    else if s[0].1 == key then s
    else [(node, key)] + s
  }

  lemma Halves<R>(a: seq<(R, int)>, x: (R, int), b: seq<(R, int)>)
    requires Ascending(a + [x] + b)
    ensures Ascending(a) && Ascending(b)
    ensures forall i :: 0 <= i < |a| ==> a[i].1 < x.1
    ensures forall i :: 0 <= i < |b| ==> x.1 < b[i].1
  {
    var s := a + [x] + b;
    assert forall i :: 0 <= i < |a| ==> a[i] == s[i];
    assert forall i :: 0 <= i < |b| ==> b[i] == s[|a| + 1 + i];
    assert s[|a|] == x;
  }

  lemma {:induction false} InsertLeft<R>(a: seq<(R, int)>, x: (R, int), b: seq<(R, int)>, key: int, node: R)
    requires key < x.1
    ensures Insert(a + [x] + b, key, node) == Insert(a, key, node) + [x] + b
    decreases |a|
  {
    var s := a + [x] + b;
    if a == [] {
      assert s[0] == x;
      assert [(node, key)] + s == [(node, key)] + [x] + b;
    } else {
      assert s[0] == a[0] && s[1..] == a[1..] + [x] + b;
      InsertLeft(a[1..], x, b, key, node);
      assert [a[0]] + (Insert(a[1..], key, node) + [x] + b) == [a[0]] + Insert(a[1..], key, node) + [x] + b;
    }
  }

  lemma {:induction false} InsertRight<R>(a: seq<(R, int)>, x: (R, int), b: seq<(R, int)>, key: int, node: R)
    requires x.1 < key && forall i :: 0 <= i < |a| ==> a[i].1 < x.1
    ensures Insert(a + [x] + b, key, node) == a + [x] + Insert(b, key, node)
    decreases |a|
  {
    var s := a + [x] + b;
    if a == [] {
      assert s[0] == x && s[1..] == b;
    } else {
      assert s[0] == a[0] && s[1..] == a[1..] + [x] + b;
      InsertRight(a[1..], x, b, key, node);
      assert [a[0]] + (a[1..] + [x] + Insert(b, key, node)) == a + [x] + Insert(b, key, node);
    }
  }

  lemma {:induction false} InsertHere<R>(a: seq<(R, int)>, x: (R, int), b: seq<(R, int)>, node: R)
    requires forall i :: 0 <= i < |a| ==> a[i].1 < x.1
    ensures Insert(a + [x] + b, x.1, node) == a + [x] + b
    decreases |a|
  {
    var s := a + [x] + b;
    if a != [] {
      assert s[0] == a[0] && s[1..] == a[1..] + [x] + b;
      InsertHere(a[1..], x, b, node);
    }
  }

  /** Insertion into the tree is insertion into its sequence. */
  lemma {:induction false} AddContents<R>(t: Tree<R>, key: int, node: R)
    requires Exact(t) && Ordered(t)
    ensures Inorder(Add(t, key, node)) == Insert(Inorder(t), key, node)
    decreases t
  {
    if t.Node? {
      var a, x, b := Inorder(t.left), (t.ref, t.key), Inorder(t.right);
      InorderNode(t);
      Halves(a, x, b);
      if key < t.key {
        AddContents(t.left, key, node);
        FixLeftKeeps(t, Add(t.left, key, node));
        InsertLeft(a, x, b, key, node);
      } else if t.key < key {
        AddContents(t.right, key, node);
        FixRightKeeps(t, Add(t.right, key, node));
        InsertRight(a, x, b, key, node);
      } else {
        InsertHere(a, x, b, node);
      }
    }
  }

  predicate HasKey<R>(s: seq<(R, int)>, key: int) { exists i :: 0 <= i < |s| && s[i].1 == key }

  /** A key that is there: nothing changes. */
  lemma {:induction false} InsertPresent<R>(s: seq<(R, int)>, key: int, node: R)
    requires Ascending(s) && HasKey(s, key)
    ensures Insert(s, key, node) == s
    decreases |s|
  {
    var i :| 0 <= i < |s| && s[i].1 == key;
    if s[0].1 < key {
      assert s[1..][i - 1] == s[i];
      InsertPresent(s[1..], key, node);
    }
  }

  lemma TailAscending<R>(s: seq<(R, int)>, key: int)
    requires s != [] && Ascending(s)
    ensures Ascending(s[1..]) && (HasKey(s[1..], key) ==> HasKey(s, key))
  {
    assert forall i :: 0 <= i < |s| - 1 ==> s[1..][i] == s[i + 1];
  }

  /** A new key: one element more, between the smaller and the larger ones. */
  lemma {:induction false} InsertNew<R>(s: seq<(R, int)>, key: int, node: R) returns (p: nat)
    requires Ascending(s) && !HasKey(s, key)
    ensures p <= |s| && Insert(s, key, node) == s[..p] + [(node, key)] + s[p..]
    ensures forall i :: 0 <= i < p ==> s[i].1 < key
    ensures forall i :: p <= i < |s| ==> key < s[i].1
    decreases |s|
  {
    if s == [] || s[0].1 > key {
      p := 0;
    } else {
      assert s[0].1 != key;
      TailAscending(s, key);
      var q := InsertNew(s[1..], key, node);
      p := q + 1;
      hide HasKey, Ascending;
      Shift(s, q, (node, key));
      assert forall i :: 1 <= i < |s| ==> s[i] == s[1..][i - 1];
    }
  }

  lemma Shift<T>(s: seq<T>, q: nat, x: T)
    requires s != [] && q <= |s| - 1
    ensures [s[0]] + (s[1..][..q] + [x] + s[1..][q..]) == s[..q + 1] + [x] + s[q + 1..]
  {
  }

  lemma InsertAscending<R>(s: seq<(R, int)>, key: int, node: R)
    requires Ascending(s)
    ensures Ascending(Insert(s, key, node))
  {
    if HasKey(s, key) {
      InsertPresent(s, key, node);
    } else {
      var p := InsertNew(s, key, node);
      hide Insert, HasKey;
      var r := s[..p] + [(node, key)] + s[p..];
      assert forall i :: 0 <= i < |r| ==> r[i] == if i < p then s[i] else if i == p then (node, key) else s[i - 1];
    }
  }

  // ---------- balance ----------

  lemma FixLeftBalanced<R>(t: Tree<R>, l: Tree<R>)
    requires t.Node? && Exact(t) && Balanced(t) && Exact(l) && Balanced(l) && l.Node?
    requires Height(t.left) <= Height(l) <= Height(t.left) + 1
    ensures Balanced(FixLeft(t, l)) && Height(t) <= Height(FixLeft(t, l)) <= Height(t) + 1
  {
    DIsHeight(l);
    hide Inorder;
  }

  lemma FixRightBalanced<R>(t: Tree<R>, r: Tree<R>)
    requires t.Node? && Exact(t) && Balanced(t) && Exact(r) && Balanced(r) && r.Node?
    requires Height(t.right) <= Height(r) <= Height(t.right) + 1
    ensures Balanced(FixRight(t, r)) && Height(t) <= Height(FixRight(t, r)) <= Height(t) + 1
  {
    DIsHeight(r);
    hide Inorder;
  }

  /** Insertion keeps a balanced tree balanced, and its height grows by one at most. */
  lemma {:induction false} AddBalanced<R>(t: Tree<R>, key: int, node: R)
    requires Exact(t) && Balanced(t)
    ensures Balanced(Add(t, key, node)) && Height(t) <= Height(Add(t, key, node)) <= Height(t) + 1
    decreases t
  {
    if t.Node? {
      if key < t.key {
        AddBalanced(t.left, key, node);
        FixLeftBalanced(t, Add(t.left, key, node));
      } else if t.key < key {
        AddBalanced(t.right, key, node);
        FixRightBalanced(t, Add(t.right, key, node));
      }
    }
  }

  function Fib(n: nat): nat { if n < 2 then n else Fib(n - 1) + Fib(n - 2) }

  lemma {:induction false} FibMonotone(m: nat, n: nat)
    requires m <= n
    ensures Fib(m) <= Fib(n)
    decreases n
  {
    if m < n { FibMonotone(m, n - 1); }
  }

  /** A balanced tree of height h has at least Fib(h+2)-1 nodes, so its height is logarithmic. */
  lemma {:induction false} FewestNodes<R>(t: Tree<R>)
    requires Balanced(t)
    ensures |Inorder(t)| >= Fib(Height(t) + 2) - 1
    decreases t
  {
    if t.Nil? {
      assert Fib(2) == 1;
    } else {
      FewestNodes(t.left);
      FewestNodes(t.right);
      InorderNode(t);
      var h, a: int, b: int := Height(t), Height(t.left), Height(t.right);
      assert h == Max(a, b) + 1 && -1 <= a - b <= 1;
      hide *;
      FibStep(h, a, b);
    }
  }

  lemma FibStep(h: nat, a: nat, b: nat)
    requires (h == a + 1 && h <= b + 2) || (h == b + 1 && h <= a + 2)
    ensures Fib(a + 2) + Fib(b + 2) >= Fib(h + 2)
  {
    assert Fib(h + 2) == Fib(h + 1) + Fib(h);
    hide Fib;
    FibMonotone(h, a + 2);
    FibMonotone(h, b + 2);
  }

  /** The tree after a run of insertions into an empty one. */
  function AddAll<R>(items: seq<(R, int)>): (t: Tree<R>)
    ensures Exact(t)
  {
    if items == [] then Nil
    else
      var x := items[|items| - 1];
      Add(AddAll(items[..|items| - 1]), x.1, x.0)
  }

  /** Every insert-only run ends in an ordered, balanced tree with exact depths that holds exactly the inserted keys. */
  lemma {:induction false} InsertOnlyRuns<R>(items: seq<(R, int)>)
    ensures var t := AddAll(items); Exact(t) && Balanced(t) && Ordered(t)
    ensures forall k :: HasKey(Inorder(AddAll(items)), k) <==> HasKey(items, k)
    decreases |items|
  {
    if items != [] {
      var init, x := items[..|items| - 1], items[|items| - 1];
      InsertOnlyRuns(init);
      var t := AddAll(init);
      AddBalanced(t, x.1, x.0);
      AddContents(t, x.1, x.0);
      InsertAscending(Inorder(t), x.1, x.0);
      assert items == init + [x];
      forall k ensures HasKey(Inorder(AddAll(items)), k) <==> HasKey(items, k) {
        InsertKeys(Inorder(t), x.1, x.0, k);
        SnocKeys(init, x, k);
      }
    }
  }

  lemma SnocKeys<R>(s: seq<(R, int)>, x: (R, int), k: int)
    ensures HasKey(s + [x], k) <==> HasKey(s, k) || k == x.1
  {
    var r := s + [x];
    assert r[|s|] == x;
    if HasKey(s, k) {
      var i :| 0 <= i < |s| && s[i].1 == k;
      assert r[i].1 == k;
    }
  }

  lemma InsertKeys<R>(s: seq<(R, int)>, key: int, node: R, k: int)
    requires Ascending(s)
    ensures HasKey(Insert(s, key, node), k) <==> HasKey(s, k) || k == key
  {
    if HasKey(s, key) {
      InsertPresent(s, key, node);
    } else {
      var p := InsertNew(s, key, node);
      hide Insert;
      var r := s[..p] + [(node, key)] + s[p..];
      assert r[p] == (node, key);
      assert forall i :: 0 <= i < p ==> r[i] == s[i];
      assert forall i :: p <= i < |s| ==> r[i + 1] == s[i];
      if HasKey(s, k) {
        var i :| 0 <= i < |s| && s[i].1 == k;
        assert r[if i < p then i else i + 1].1 == k;
      }
    }
  }
}
