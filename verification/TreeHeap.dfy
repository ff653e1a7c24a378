/** The height-balanced tree in memory: nodes linked by pointers, relinked in place. */
module TreeHeap {
  import opened Bytes
  import opened TreeSpec
  import opened TreeDelSpec

  /** T_Tree; the record of a node stands for its key. */
  class TreeNode {
    var left: TreeNode?
    var right: TreeNode?
    var ldepth: int
    var rdepth: int
    const key: int

    constructor (key: int)
      ensures this.key == key && left == null && right == null && ldepth == 0 && rdepth == 0
    {
      this.key := key;
      left, right, ldepth, rdepth := null, null, 0, 0;
    }
  }

  type Shape = Tree<TreeNode>

  ghost function Root(t: Shape): (r: TreeNode?)
    ensures r == null <==> t.Nil?
  {
    if t.Nil? then null else t.ref
  }

  ghost function Nodes(t: Shape): (s: set<TreeNode>)
    ensures t.Node? ==> t.ref in s
  {
    if t.Nil? then {} else Nodes(t.left) + {t.ref} + Nodes(t.right)
  }

  /** The nodes in memory are linked as the value says, and no node is used twice. */
  ghost predicate Heap(t: Shape)
    reads Nodes(t)
  {
    t.Node? ==>
      Linked(t) && Apart(t) && Heap(t.left) && Heap(t.right)
  }

  ghost predicate Linked(t: Shape)
    requires t.Node?
    reads t.ref
  {
    t.ref.left == Root(t.left) && t.ref.right == Root(t.right) && t.ref.ldepth == t.ld && t.ref.rdepth == t.rd &&
    t.ref.key == t.key
  }

  ghost predicate Apart(t: Shape)
    requires t.Node?
  {
    t.ref !in Nodes(t.left) && t.ref !in Nodes(t.right) && Nodes(t.left) !! Nodes(t.right)
  }

  lemma Unfold(t: Shape)
    requires t.Node? && Heap(t)
    ensures Linked(t) && Apart(t) && Heap(t.left) && Heap(t.right)
    ensures Nodes(t) == Nodes(t.left) + {t.ref} + Nodes(t.right)
  {
  }

  lemma Fold(t: Shape)
    requires t.Node? && Linked(t) && Heap(t.left) && Heap(t.right)
    requires Apart(t)
    ensures Heap(t)
  {
  }

  lemma Cover(t: Shape)
    ensures t.Node? ==> Nodes(t) == Nodes(t.left) + {t.ref} + Nodes(t.right)
    ensures t.Nil? ==> Heap(t) && Nodes(t) == {}
  {
  }

  /** The depth of the tree below a pointer, from the depths stored in its node. */
  function Depth(tp: TreeNode?): int
    reads tp
  {
    if tp == null then 0 else Max(tp.ldepth, tp.rdepth) + 1
  }

  lemma DepthIsD(t: Shape)
    requires Heap(t)
    ensures Depth(Root(t)) == D(t)
  {
  }

  // ---------- insertion ----------

  /** The single exchange, when the left side is too high. */
  method ExchangeRight(sp: TreeNode, ghost t: Shape) returns (tp: TreeNode)
    requires t.Node? && t.left.Node? && sp == t.ref && Heap(t)
    modifies sp, sp.left
    ensures tp == Root(SingleRight(t)) && Heap(SingleRight(t)) && Nodes(SingleRight(t)) == Nodes(t)
  {
    hide Heap, Nodes, D;
    ghost var l, r := t.left, SingleRight(t);
    Unfold(t);
    Unfold(l);
    tp := sp.left;
    sp.left := tp.right;
    tp.right := sp;
    DepthIsD(l.right);
    sp.ldepth := Depth(sp.left);
    tp.rdepth := Max(sp.ldepth, sp.rdepth) + 1;
    assert Heap(l.left) && Heap(l.right) && Heap(t.right);
    Cover(r.right);
    Cover(r);
    Fold(r.right);
    Fold(r);
  }

  method ExchangeLeft(sp: TreeNode, ghost t: Shape) returns (tp: TreeNode)
    requires t.Node? && t.right.Node? && sp == t.ref && Heap(t)
    modifies sp, sp.right
    ensures tp == Root(SingleLeft(t)) && Heap(SingleLeft(t)) && Nodes(SingleLeft(t)) == Nodes(t)
  {
    hide Heap, Nodes, D;
    ghost var l, r := t.right, SingleLeft(t);
    Unfold(t);
    Unfold(l);
    tp := sp.right;
    sp.right := tp.left;
    tp.left := sp;
    DepthIsD(l.left);
    sp.rdepth := Depth(sp.right);
    tp.ldepth := Max(sp.ldepth, sp.rdepth) + 1;
    assert Heap(l.left) && Heap(l.right) && Heap(t.left);
    Cover(r.left);
    Cover(r);
    Fold(r.left);
    Fold(r);
  }

  /** The first half of the double exchange: m comes up over l, its left child's right child. */
  method ExchangeInnerRight(sl: TreeNode, ghost l: Shape) returns (tp: TreeNode, ghost u: Shape)
    requires l.Node? && l.right.Node? && sl == l.ref && Heap(l)
    modifies sl, sl.right
    ensures u == l.right.(left := l.(right := l.right.left, rd := D(l.right.left)))
    ensures tp == u.ref && Heap(u) && Nodes(u) == Nodes(l)
  {
    hide Heap, Nodes, D;
    ghost var m := l.right;
    Unfold(l);
    Unfold(m);
    tp := sl.right;
    sl.right := tp.left;
    tp.left := sl;
    DepthIsD(m.left);
    sl.rdepth := Depth(sl.right);
    assert Heap(l.left) && Heap(m.left) && Heap(m.right);
    u := m.(left := l.(right := m.left, rd := D(m.left)));
    Cover(u.left);
    Cover(u);
    Fold(u.left);
    Fold(u);
  }

  method ExchangeInnerLeft(sr: TreeNode, ghost l: Shape) returns (tp: TreeNode, ghost u: Shape)
    requires l.Node? && l.left.Node? && sr == l.ref && Heap(l)
    modifies sr, sr.left
    ensures u == l.left.(right := l.(left := l.left.right, ld := D(l.left.right)))
    ensures tp == u.ref && Heap(u) && Nodes(u) == Nodes(l)
  {
    hide Heap, Nodes, D;
    ghost var m := l.left;
    Unfold(l);
    Unfold(m);
    tp := sr.left;
    sr.left := tp.right;
    tp.right := sr;
    DepthIsD(m.right);
    sr.ldepth := Depth(sr.left);
    assert Heap(l.right) && Heap(m.left) && Heap(m.right);
    u := m.(right := l.(left := m.right, ld := D(m.right)));
    Cover(u.right);
    Cover(u);
    Fold(u.right);
    Fold(u);
  }

  /** The second half: m comes up over sp, and its depths are computed. */
  method ExchangeOuterRight(sp: TreeNode, tp: TreeNode, ghost t: Shape, ghost u: Shape)
    requires u.Node? && u.left.Node? && tp == u.ref && Heap(u)
    requires t.Node? && sp == t.ref && Heap(t.right) && Apart(t.(left := u))
    requires sp.right == Root(t.right) && sp.rdepth == t.rd && sp.key == t.key
    modifies sp, tp
    ensures var n := t.(left := u.right, ld := D(u.right));
            var r := u.(right := n, ld := D(u.left), rd := D(n));
            Heap(r) && Nodes(r) == Nodes(u) + {sp} + Nodes(t.right)
  {
    hide Heap, Nodes;
    Unfold(u);
    Unfold(u.left);
    sp.left := tp.right;
    DepthIsD(u.right);
    sp.ldepth := Depth(sp.left);
    tp.right := sp;
    tp.ldepth := Max(tp.left.ldepth, tp.left.rdepth) + 1;
    tp.rdepth := Max(tp.right.ldepth, tp.right.rdepth) + 1;
    ghost var n := t.(left := u.right, ld := D(u.right));
    ghost var r := u.(right := n, ld := D(u.left), rd := D(n));
    assert Heap(u.left) && Heap(u.right) && Heap(t.right);
    hide D;
    Cover(n);
    Cover(r);
    Fold(n);
    Fold(r);
  }

  method ExchangeOuterLeft(sp: TreeNode, tp: TreeNode, ghost t: Shape, ghost u: Shape)
    requires u.Node? && u.right.Node? && tp == u.ref && Heap(u)
    requires t.Node? && sp == t.ref && Heap(t.left) && Apart(t.(right := u))
    requires sp.left == Root(t.left) && sp.ldepth == t.ld && sp.key == t.key
    modifies sp, tp
    ensures var n := t.(right := u.left, rd := D(u.left));
            var r := u.(left := n, ld := D(n), rd := D(u.right));
            Heap(r) && Nodes(r) == Nodes(t.left) + {sp} + Nodes(u)
  {
    hide Heap, Nodes;
    Unfold(u);
    Unfold(u.right);
    sp.right := tp.left;
    DepthIsD(u.left);
    sp.rdepth := Depth(sp.right);
    tp.left := sp;
    tp.ldepth := Max(tp.left.ldepth, tp.left.rdepth) + 1;
    tp.rdepth := Max(tp.right.ldepth, tp.right.rdepth) + 1;
    ghost var n := t.(right := u.left, rd := D(u.left));
    ghost var r := u.(left := n, ld := D(n), rd := D(u.right));
    assert Heap(u.left) && Heap(u.right) && Heap(t.left);
    hide D;
    Cover(n);
    Cover(r);
    Fold(n);
    Fold(r);
  }

  /** The double exchange: the left child's right child comes up. */
  method ExchangeRightTwice(sp: TreeNode, ghost t: Shape) returns (tp: TreeNode)
    requires t.Node? && t.left.Node? && t.left.right.Node? && sp == t.ref && Heap(t)
    modifies sp, sp.left, sp.left.right
    ensures tp == Root(DoubleRight(t)) && Heap(DoubleRight(t)) && Nodes(DoubleRight(t)) == Nodes(t)
  {
    Unfold(t);
    Unfold(t.left);
    Cover(t.left.right);
    hide Heap, Nodes;
    assert allocated(Nodes(t.right));
    ghost var u;
    tp, u := ExchangeInnerRight(sp.left, t.left);
    assert Heap(t.right);
    ExchangeOuterRight(sp, tp, t, u);
  }

  method ExchangeLeftTwice(sp: TreeNode, ghost t: Shape) returns (tp: TreeNode)
    requires t.Node? && t.right.Node? && t.right.left.Node? && sp == t.ref && Heap(t)
    modifies sp, sp.right, sp.right.left
    ensures tp == Root(DoubleLeft(t)) && Heap(DoubleLeft(t)) && Nodes(DoubleLeft(t)) == Nodes(t)
  {
    Unfold(t);
    Unfold(t.right);
    Cover(t.right.left);
    hide Heap, Nodes;
    assert allocated(Nodes(t.left));
    ghost var u;
    tp, u := ExchangeInnerLeft(sp.right, t.right);
    assert Heap(t.left);
    ExchangeOuterLeft(sp, tp, t, u);
  }

  /** BB_Tree_Add after the insertion on the left, which has made the left subtree l. */
  method AddedLeft(sp: TreeNode, tp: TreeNode, ghost t: Shape, ghost l: Shape) returns (r: TreeNode)
    requires t.Node? && Exact(t) && sp == t.ref && Linked(t) && Heap(t.right)
    requires l.Node? && Exact(l) && tp == l.ref && Heap(l)
    requires Apart(t.(left := l))
    modifies {sp} + Nodes(l)
    ensures r == Root(FixLeft(t, l)) && Heap(FixLeft(t, l))
    ensures Nodes(FixLeft(t, l)) == Nodes(l) + {sp} + Nodes(t.right)
  {
    ghost var n := t.(left := l, ld := D(l));
    sp.left := tp;
    sp.ldepth := Max(tp.ldepth, tp.rdepth) + 1;
    assert Heap(n);
    if sp.ldepth - sp.rdepth <= 1 {
      r := sp;
    } else if tp.ldepth >= tp.rdepth {
      r := ExchangeRight(sp, n);
    } else {
      r := ExchangeRightTwice(sp, n);
    }
  }

  method AddedRight(sp: TreeNode, tp: TreeNode, ghost t: Shape, ghost l: Shape) returns (r: TreeNode)
    requires t.Node? && Exact(t) && sp == t.ref && Linked(t) && Heap(t.left)
    requires l.Node? && Exact(l) && tp == l.ref && Heap(l)
    requires Apart(t.(right := l))
    modifies {sp} + Nodes(l)
    ensures r == Root(FixRight(t, l)) && Heap(FixRight(t, l))
    ensures Nodes(FixRight(t, l)) == Nodes(t.left) + {sp} + Nodes(l)
  {
    ghost var n := t.(right := l, rd := D(l));
    sp.right := tp;
    sp.rdepth := Max(tp.ldepth, tp.rdepth) + 1;
    assert Heap(n);
    if sp.rdepth - sp.ldepth <= 1 {
      r := sp;
    } else if tp.rdepth >= tp.ldepth {
      r := ExchangeLeft(sp, n);
    } else {
      r := ExchangeLeftTwice(sp, n);
    }
  }

  lemma AddStep(t: Shape, key: int)
    requires t.Node?
    ensures Level(t, key) == 0 <==> t.key != key && Level(if t.key > key then t.left else t.right, key) == 0
  {
  }

  /** BB_Tree_Add: `node` is the node of the key afterwards, a new one exactly if the search for the key fails. */
  method BBTreeAdd(sp: TreeNode?, key: int, ghost t: Shape) returns (r: TreeNode, ghost node: TreeNode)
    requires sp == Root(t) && Heap(t) && Exact(t)
    modifies Nodes(t)
    ensures r == Root(Add(t, key, node)) && Heap(Add(t, key, node))
    ensures Nodes(Add(t, key, node)) == Nodes(t) + {node}
    ensures if Level(t, key) == 0 then fresh(node) else node in Nodes(t)
    decreases t
  {
    if sp == null {
      r := new TreeNode(key);
      node := r;
      assert Heap(Node(Nil, r, key, 0, 0, Nil));
    } else {
      Unfold(t);
      AddStep(t, key);
      hide Heap, Nodes, FixLeft, FixRight, D, Level;
      if sp.key > key {
        assert allocated(Nodes(t.right));
        ghost var l;
        var tp;
        tp, node := BBTreeAdd(sp.left, key, t.left);
        l := Add(t.left, key, node);
        assert Heap(t.right);
        r := AddedLeft(sp, tp, t, l);
      } else if sp.key < key {
        assert allocated(Nodes(t.left));
        ghost var l;
        var tp;
        tp, node := BBTreeAdd(sp.right, key, t.right);
        l := Add(t.right, key, node);
        assert Heap(t.left);
        r := AddedRight(sp, tp, t, l);
      } else {
        r := sp;
        node := sp;
      }
    }
  }
}
