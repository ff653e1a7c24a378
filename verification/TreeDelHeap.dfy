/** Deletion from the height-balanced tree in memory. */
module TreeDelHeap {
  import opened Bytes
  import opened TreeSpec
  import opened TreeDelSpec
  import opened TreeDelBalance
  import opened TreeHeap

  // ---------- the rotations of deletion ----------

  method Rrot(tp: TreeNode, ghost t: Shape) returns (r: TreeNode)
    requires t.Node? && t.left.Node? && tp == t.ref && Heap(t)
    modifies tp, tp.left
    ensures r == Root(RRot(t)) && Heap(RRot(t)) && Nodes(RRot(t)) == Nodes(t)
  {
    hide Heap, Nodes, D;
    ghost var l, q := t.left, RRot(t);
    Unfold(t);
    Unfold(l);
    r := tp.left;
    tp.left := r.right;
    tp.ldepth := r.rdepth;
    r.right := tp;
    r.rdepth := Max(r.right.rdepth, r.right.ldepth) + 1;
    assert Heap(l.left) && Heap(l.right) && Heap(t.right);
    Cover(q.right);
    Cover(q);
    Fold(q.right);
    Fold(q);
  }

  method Lrot(tp: TreeNode, ghost t: Shape) returns (r: TreeNode)
    requires t.Node? && t.right.Node? && tp == t.ref && Heap(t)
    modifies tp, tp.right
    ensures r == Root(LRot(t)) && Heap(LRot(t)) && Nodes(LRot(t)) == Nodes(t)
  {
    hide Heap, Nodes, D;
    ghost var l, q := t.right, LRot(t);
    Unfold(t);
    Unfold(l);
    r := tp.right;
    tp.right := r.left;
    tp.rdepth := r.ldepth;
    r.left := tp;
    r.ldepth := Max(r.left.rdepth, r.left.ldepth) + 1;
    assert Heap(l.left) && Heap(l.right) && Heap(t.left);
    Cover(q.left);
    Cover(q);
    Fold(q.left);
    Fold(q);
  }

  /** A node, rotated if its left side is too high. */
  method SwingRight(tp: TreeNode, ghost n: Shape) returns (r: TreeNode)
    requires n.Node? && tp == n.ref && Heap(n) && (n.ld - n.rd > 1 ==> n.left.Node?)
    modifies tp, tp.left
    ensures r == Root(SwungRight(n)) && Heap(SwungRight(n)) && Nodes(SwungRight(n)) == Nodes(n)
  {
    r := tp;
    if tp.ldepth - tp.rdepth > 1 { r := Rrot(tp, n); }
  }

  method SwingLeft(tp: TreeNode, ghost n: Shape) returns (r: TreeNode)
    requires n.Node? && tp == n.ref && Heap(n) && (n.rd - n.ld > 1 ==> n.right.Node?)
    modifies tp, tp.right
    ensures r == Root(SwungLeft(n)) && Heap(SwungLeft(n)) && Nodes(SwungLeft(n)) == Nodes(n)
  {
    r := tp;
    if tp.rdepth - tp.ldepth > 1 { r := Lrot(tp, n); }
  }

  /** A node takes the left subtree of r as its right one. */
  method PassLeft(tp: TreeNode, r: TreeNode, ghost t: Shape, ghost u: Shape)
    requires u.Node? && r == u.ref && Heap(u)
    requires t.Node? && tp == t.ref && Heap(t.left) && Apart(t.(right := u))
    requires tp.left == Root(t.left) && tp.ldepth == t.ld && tp.key == t.key
    modifies tp
    ensures var n := t.(right := u.left, rd := u.ld);
            Heap(n) && Nodes(n) == Nodes(t.left) + {tp} + Nodes(u.left)
    ensures tp.left == Root(t.left)
  {
    ghost var n := t.(right := u.left, rd := u.ld);
    hide Heap, Nodes;
    Unfold(u);
    tp.right := r.left;
    tp.rdepth := r.ldepth;
    assert Heap(u.left) && Heap(t.left);
    Cover(n);
    Fold(n);
  }

  method PassRight(tp: TreeNode, r: TreeNode, ghost t: Shape, ghost u: Shape)
    requires u.Node? && r == u.ref && Heap(u)
    requires t.Node? && tp == t.ref && Heap(t.right) && Apart(t.(left := u))
    requires tp.right == Root(t.right) && tp.rdepth == t.rd && tp.key == t.key
    modifies tp
    ensures var n := t.(left := u.right, ld := u.rd);
            Heap(n) && Nodes(n) == Nodes(u.right) + {tp} + Nodes(t.right)
    ensures tp.right == Root(t.right)
  {
    ghost var n := t.(left := u.right, ld := u.rd);
    hide Heap, Nodes;
    Unfold(u);
    tp.left := r.right;
    tp.ldepth := r.rdepth;
    assert Heap(u.right) && Heap(t.right);
    Cover(n);
    Fold(n);
  }

  /** The left subtree of r becomes l. */
  method SetLeft(r: TreeNode, ghost u: Shape, l: TreeNode, ghost lt: Shape)
    requires u.Node? && r == u.ref && r.right == Root(u.right) && r.rdepth == u.rd && r.key == u.key && Heap(u.right)
    requires l == Root(lt) && Heap(lt) && Apart(u.(left := lt))
    modifies r
    ensures var q := u.(left := lt, ld := D(lt));
            Heap(q) && Nodes(q) == Nodes(lt) + {r} + Nodes(u.right)
  {
    DepthIsD(lt);
    hide Heap, Nodes, D;
    r.left := l;
    r.ldepth := Max(r.left.rdepth, r.left.ldepth) + 1;
    assert Heap(lt) && Heap(u.right);
    Cover(u.(left := lt, ld := D(lt)));
    Fold(u.(left := lt, ld := D(lt)));
  }

  method SetRight(r: TreeNode, ghost u: Shape, l: TreeNode, ghost lt: Shape)
    requires u.Node? && r == u.ref && r.left == Root(u.left) && r.ldepth == u.ld && r.key == u.key && Heap(u.left)
    requires l == Root(lt) && Heap(lt) && Apart(u.(right := lt))
    modifies r
    ensures var q := u.(right := lt, rd := D(lt));
            Heap(q) && Nodes(q) == Nodes(u.left) + {r} + Nodes(lt)
  {
    DepthIsD(lt);
    hide Heap, Nodes, D;
    r.right := l;
    r.rdepth := Max(r.right.rdepth, r.right.ldepth) + 1;
    assert Heap(lt) && Heap(u.left);
    Cover(u.(right := lt, rd := D(lt)));
    Fold(u.(right := lt, rd := D(lt)));
  }

  /** tp goes below r, as its left child, and is rotated if its left side is too high. */
  method HangLeft(tp: TreeNode, r: TreeNode, ghost t: Shape, ghost u: Shape)
    requires u.Node? && r == u.ref && Heap(u)
    requires t.Node? && tp == t.ref && Heap(t.left) && Apart(t.(right := u)) && (t.ld - u.ld > 1 ==> t.left.Node?)
    requires tp.left == Root(t.left) && tp.ldepth == t.ld && tp.key == t.key
    modifies tp, r, tp.left
    ensures var n := SwungRight(t.(right := u.left, rd := u.ld));
            var q := u.(left := n, ld := D(n));
            Heap(q) && Nodes(q) == Nodes(t.left) + {tp} + Nodes(u)
  {
    ghost var n := t.(right := u.left, rd := u.ld);
    Unfold(u);
    hide Heap, Nodes, D, SwungRight;
    assert allocated(Nodes(u.right));
    PassLeft(tp, r, t, u);
    assert Heap(u.right);
    var l := SwingRight(tp, n);
    assert Heap(u.right);
    SetLeft(r, u, l, SwungRight(n));
  }

  method HangRight(tp: TreeNode, r: TreeNode, ghost t: Shape, ghost u: Shape)
    requires u.Node? && r == u.ref && Heap(u)
    requires t.Node? && tp == t.ref && Heap(t.right) && Apart(t.(left := u)) && (t.rd - u.rd > 1 ==> t.right.Node?)
    requires tp.right == Root(t.right) && tp.rdepth == t.rd && tp.key == t.key
    modifies tp, r, tp.right
    ensures var n := SwungLeft(t.(left := u.right, ld := u.rd));
            var q := u.(right := n, rd := D(n));
            Heap(q) && Nodes(q) == Nodes(u) + {tp} + Nodes(t.right)
  {
    ghost var n := t.(left := u.right, ld := u.rd);
    Unfold(u);
    hide Heap, Nodes, D, SwungLeft;
    assert allocated(Nodes(u.left));
    PassRight(tp, r, t, u);
    assert Heap(u.left);
    var l := SwingLeft(tp, n);
    assert Heap(u.left);
    SetRight(r, u, l, SwungLeft(n));
  }

  // ---------- rebalancing ----------

  /** The inner half of R_blc: the left child of c comes up over c. */
  method LiftLeft(c: TreeNode, ghost ct: Shape) returns (r: TreeNode, ghost u: Shape)
    requires ct.Node? && ct.left.Node? && c == ct.ref && Heap(ct) && Exact(ct)
    modifies Nodes(ct)
    ensures var f := ct.(left := ct.left.right, ld := ct.left.rd);
            (f.rd - f.ld > 1 ==> f.right.Node?) && u == ct.left.(right := SwungLeft(f), rd := D(SwungLeft(f)))
    ensures r == u.ref && Heap(u) && Nodes(u) == Nodes(ct)
  {
    ghost var m := ct.left;
    ghost var f := ct.(left := m.right, ld := m.rd);
    assert f.rd - f.ld > 1 ==> f.right.Node?;
    Unfold(ct);
    Unfold(m);
    hide Heap, Nodes, D, SwungLeft, Exact;
    assert allocated(Nodes(m.left));
    r := c.left;
    PassRight(c, r, ct, m);
    assert Heap(m.left);
    var l := SwingLeft(c, f);
    assert Heap(m.left);
    SetRight(r, m, l, SwungLeft(f));
    u := m.(right := SwungLeft(f), rd := D(SwungLeft(f)));
  }

  method LiftRight(c: TreeNode, ghost ct: Shape) returns (r: TreeNode, ghost u: Shape)
    requires ct.Node? && ct.right.Node? && c == ct.ref && Heap(ct) && Exact(ct)
    modifies Nodes(ct)
    ensures var f := ct.(right := ct.right.left, rd := ct.right.ld);
            (f.ld - f.rd > 1 ==> f.left.Node?) && u == ct.right.(left := SwungRight(f), ld := D(SwungRight(f)))
    ensures r == u.ref && Heap(u) && Nodes(u) == Nodes(ct)
  {
    ghost var m := ct.right;
    ghost var f := ct.(right := m.left, rd := m.ld);
    assert f.ld - f.rd > 1 ==> f.left.Node?;
    Unfold(ct);
    Unfold(m);
    hide Heap, Nodes, D, SwungRight, Exact;
    assert allocated(Nodes(m.right));
    r := c.right;
    PassLeft(c, r, ct, m);
    assert Heap(m.right);
    var l := SwingRight(c, f);
    assert Heap(m.right);
    SetLeft(r, m, l, SwungRight(f));
    u := m.(left := SwungRight(f), ld := D(SwungRight(f)));
  }

  /** R_blc with no inner grandchild. */
  lemma RBlcPlain(t: Shape)
    requires ExactNode(t) && t.rd - t.ld > 1 && t.right.Node? && t.right.left.Nil?
    ensures var n := t.(right := t.right.left, rd := t.right.ld);
            (n.ld - n.rd > 1 ==> n.left.Node?) &&
            RBlc(t) == t.right.(left := SwungRight(n), ld := D(SwungRight(n)))
  {
    assert Exact(t.right);
  }

  lemma LBlcPlain(t: Shape)
    requires ExactNode(t) && t.ld - t.rd > 1 && t.left.Node? && t.left.right.Nil?
    ensures var n := t.(left := t.left.right, ld := t.left.rd);
            (n.rd - n.ld > 1 ==> n.right.Node?) &&
            LBlc(t) == t.left.(right := SwungLeft(n), rd := D(SwungLeft(n)))
  {
    assert Exact(t.left);
  }

  method Rblc(tp: TreeNode, ghost t: Shape) returns (r: TreeNode)
    requires t.Node? && tp == t.ref && Heap(t) && Exact(t) && t.rd - t.ld > 1
    modifies Nodes(t)
    ensures r == Root(RBlc(t)) && Heap(RBlc(t)) && Nodes(RBlc(t)) == Nodes(t)
  {
    assert ExactNode(t) && t.right.Node? && Exact(t.right);
    Unfold(t);
    hide Heap, Nodes, D, SwungRight, SwungLeft, Exact, RBlc, Height;
    Cover(t.right);
    r := tp.right;
    ghost var u := t.right;
    assert allocated(Nodes(t.left));
    if r.left != null {
      ghost var f := u.(left := u.left.right, ld := u.left.rd);
      RBlcNodes(t, f, t.(right := u.left.left, rd := u.left.ld));
      r, u := LiftLeft(r, u);
      assert Heap(t.left);
    } else {
      RBlcPlain(t);
    }
    HangLeft(tp, r, t, u);
  }

  method Lblc(tp: TreeNode, ghost t: Shape) returns (r: TreeNode)
    requires t.Node? && tp == t.ref && Heap(t) && Exact(t) && t.ld - t.rd > 1
    modifies Nodes(t)
    ensures r == Root(LBlc(t)) && Heap(LBlc(t)) && Nodes(LBlc(t)) == Nodes(t)
  {
    assert ExactNode(t) && t.left.Node? && Exact(t.left);
    Unfold(t);
    hide Heap, Nodes, D, SwungRight, SwungLeft, Exact, LBlc, Height;
    Cover(t.left);
    r := tp.left;
    ghost var u := t.left;
    assert allocated(Nodes(t.right));
    if r.right != null {
      ghost var f := u.(right := u.right.left, rd := u.right.ld);
      LBlcNodes(t, f, t.(left := u.right.right, ld := u.right.rd));
      r, u := LiftRight(r, u);
      assert Heap(t.right);
    } else {
      LBlcPlain(t);
    }
    HangRight(tp, r, t, u);
  }

  /** The step up after the left subtree has become l. */
  method ShrinkLeft(tp: TreeNode, ghost t: Shape, ghost l: Shape) returns (r: TreeNode)
    requires t.Node? && tp == t.ref && Exact(t) && Exact(l) && Heap(t.(left := l, ld := D(l)))
    modifies Nodes(t.(left := l, ld := D(l)))
    ensures r == Root(ShrunkLeft(t, l)) && Heap(ShrunkLeft(t, l))
    ensures Nodes(ShrunkLeft(t, l)) == Nodes(l) + {tp} + Nodes(t.right)
  {
    ghost var n := t.(left := l, ld := D(l));
    DIsHeight(l);
    Cover(n);
    Unfold(n);
    hide Heap, Nodes, D, RBlc, Inorder;
    r := tp;
    if tp.rdepth - tp.ldepth > 1 { r := Rblc(tp, n); }
  }

  method ShrinkRight(tp: TreeNode, ghost t: Shape, ghost l: Shape) returns (r: TreeNode)
    requires t.Node? && tp == t.ref && Exact(t) && Exact(l) && Heap(t.(right := l, rd := D(l)))
    modifies Nodes(t.(right := l, rd := D(l)))
    ensures r == Root(ShrunkRight(t, l)) && Heap(ShrunkRight(t, l))
    ensures Nodes(ShrunkRight(t, l)) == Nodes(t.left) + {tp} + Nodes(l)
  {
    ghost var n := t.(right := l, rd := D(l));
    DIsHeight(l);
    Cover(n);
    Unfold(n);
    hide Heap, Nodes, D, LBlc, Inorder;
    r := tp;
    if tp.ldepth - tp.rdepth > 1 { r := Lblc(tp, n); }
  }

  // ---------- the replacement node ----------

  /** What t_r and t_l have done to the tree t: m is out of it, and q, rooted in r, is left over. */
  ghost predicate TakenOut(t: Shape, m: TreeNode, q: Shape, r: TreeNode?)
    reads Nodes(q)
  {
    r == Root(q) && Heap(q) && m !in Nodes(q) && Nodes(t) == Nodes(q) + {m}
  }

  lemma DepthBelow(t: Shape)
    requires Exact(t) && t.Node?
    ensures t.ld == D(t.left) && t.rd == D(t.right)
  {
    DIsHeight(t.left);
    DIsHeight(t.right);
  }

  lemma DropStepRight(t: Shape, q: Shape)
    requires t.Node? && t.right.Node? && Exact(t) && q == DropRightmost(t.right)
    ensures Exact(q) && DropRightmost(t) == ShrunkRight(t, q) && Rightmost(t) == Rightmost(t.right)
    ensures t.right.right.Nil? ==> q == t.right.left && D(q) == t.right.ld
  {
    DepthBelow(t.right);
  }

  lemma DropStepLeft(t: Shape, q: Shape)
    requires t.Node? && t.left.Node? && Exact(t) && q == DropLeftmost(t.left)
    ensures Exact(q) && DropLeftmost(t) == ShrunkLeft(t, q) && Leftmost(t) == Leftmost(t.left)
    ensures t.left.left.Nil? ==> q == t.left.right && D(q) == t.left.rd
  {
    DepthBelow(t.left);
  }

  /** The right pointer and depth of a node after m has been taken out below it, leaving q. */
  method RelinkRight(tp: TreeNode, m: TreeNode, r: TreeNode, ghost t: Shape, ghost q: Shape)
    requires t.Node? && tp == t.ref && Linked(t) && Apart(t) && Heap(t.left) && t.right.Node?
    requires t.right.right.Nil? ==> m == r == t.right.ref && Heap(t.right) && q == t.right.left && D(q) == t.right.ld
    requires t.right.right.Node? ==> TakenOut(t.right, m, q, r) && q.Node?
    modifies tp
    ensures TakenOut(t, m, t.(right := q, rd := D(q)), tp)
  {
    ghost var n := t.(right := q, rd := D(q));
    Cover(t);
    Cover(n);
    Cover(t.right);
    if t.right.right.Nil? { Unfold(t.right); Cover(t.right.right); }
    hide Heap, Nodes;
    if m == r {
      tp.right := m.left;
      tp.rdepth := m.ldepth;
    } else {
      DepthIsD(q);
      tp.right := r;
      tp.rdepth := Max(tp.right.rdepth, tp.right.ldepth) + 1;
    }
    hide D;
    assert Heap(t.left) && Heap(q);
    Fold(n);
  }

  method RelinkLeft(tp: TreeNode, m: TreeNode, r: TreeNode, ghost t: Shape, ghost q: Shape)
    requires t.Node? && tp == t.ref && Linked(t) && Apart(t) && Heap(t.right) && t.left.Node?
    requires t.left.left.Nil? ==> m == r == t.left.ref && Heap(t.left) && q == t.left.right && D(q) == t.left.rd
    requires t.left.left.Node? ==> TakenOut(t.left, m, q, r) && q.Node?
    modifies tp
    ensures TakenOut(t, m, t.(left := q, ld := D(q)), tp)
  {
    ghost var n := t.(left := q, ld := D(q));
    Cover(t);
    Cover(n);
    Cover(t.left);
    if t.left.left.Nil? { Unfold(t.left); Cover(t.left.left); }
    hide Heap, Nodes;
    if m == r {
      tp.left := m.right;
      tp.ldepth := m.rdepth;
    } else {
      DepthIsD(q);
      tp.left := r;
      tp.ldepth := Max(tp.left.rdepth, tp.left.ldepth) + 1;
    }
    hide D;
    assert Heap(t.right) && Heap(q);
    Fold(n);
  }

  /** t_r: if the node itself is the rightmost, it is given back and nothing is done; otherwise the rightmost node is
      taken out and r is what is left. */
  method TakeRightmost(tp: TreeNode, ghost t: Shape) returns (m: TreeNode, r: TreeNode)
    requires t.Node? && tp == t.ref && Heap(t) && Exact(t)
    modifies Nodes(t)
    ensures m == Rightmost(t).ref && m.key == Rightmost(t).key && m in Nodes(t)
    ensures t.right.Nil? ==> m == tp == r && Heap(t)
    ensures t.right.Node? ==> TakenOut(t, m, DropRightmost(t), r)
    decreases t
  {
    Unfold(t);
    if tp.right == null {
      m, r := tp, tp;
    } else {
      ghost var q := DropRightmost(t.right);
      DropStepRight(t, q);
      assert Exact(t.right) && (t.right.right.Node? ==> q.Node?);
      hide Exact, D, Inorder, DropRightmost, Rightmost, ShrunkRight, Heap, Nodes;
      assert allocated(Nodes(t.left));
      m, r := TakeRightmost(tp.right, t.right);
      assert Heap(t.left);
      RelinkRight(tp, m, r, t, q);
      Cover(t.(right := q, rd := D(q)));
      r := ShrinkRight(tp, t, q);
    }
  }

  method TakeLeftmost(tp: TreeNode, ghost t: Shape) returns (m: TreeNode, r: TreeNode)
    requires t.Node? && tp == t.ref && Heap(t) && Exact(t)
    modifies Nodes(t)
    ensures m == Leftmost(t).ref && m.key == Leftmost(t).key && m in Nodes(t)
    ensures t.left.Nil? ==> m == tp == r && Heap(t)
    ensures t.left.Node? ==> TakenOut(t, m, DropLeftmost(t), r)
    decreases t
  {
    Unfold(t);
    if tp.left == null {
      m, r := tp, tp;
    } else {
      ghost var q := DropLeftmost(t.left);
      DropStepLeft(t, q);
      assert Exact(t.left) && (t.left.left.Node? ==> q.Node?);
      hide Exact, D, Inorder, DropLeftmost, Leftmost, ShrunkLeft, Heap, Nodes;
      assert allocated(Nodes(t.right));
      m, r := TakeLeftmost(tp.left, t.left);
      assert Heap(t.right);
      RelinkLeft(tp, m, r, t, q);
      Cover(t.(left := q, ld := D(q)));
      r := ShrinkLeft(tp, t, q);
    }
  }

  // ---------- deletion ----------

  lemma DropRootStep(t: Shape)
    requires t.Node? && Exact(t) && t.left.Node? && t.right.Node?
    ensures Exact(t.left) && Exact(t.right)
    ensures t.ld >= t.rd ==>
      var m, l := Rightmost(t.left), DropRightmost(t.left);
      DropRoot(t) == Node(l, m.ref, m.key, D(l), t.rd, t.right) && (t.left.right.Node? ==> l.Node?) &&
      (t.left.right.Nil? ==> m == t.left && l == t.left.left && D(l) == t.left.ld)
    ensures t.ld < t.rd ==>
      var m, r := Leftmost(t.right), DropLeftmost(t.right);
      DropRoot(t) == Node(t.left, m.ref, m.key, t.ld, D(r), r) && (t.right.left.Node? ==> r.Node?) &&
      (t.right.left.Nil? ==> m == t.right && r == t.right.right && D(r) == t.right.rd)
  {
    DepthBelow(t.left);
    DepthBelow(t.right);
  }

  /** The node taken out of the left subtree takes the place of the root tp. */
  method ReplaceFromLeft(tp: TreeNode, m: TreeNode, rest: TreeNode, ghost t: Shape, ghost l: Shape)
    requires t.Node? && t.left.Node? && tp == t.ref && Linked(t) && Apart(t) && Heap(t.right)
    requires m in Nodes(t.left)
    requires t.left.right.Nil? ==> m == rest == t.left.ref && Heap(t.left) && l == t.left.left && D(l) == t.left.ld
    requires t.left.right.Node? ==> TakenOut(t.left, m, l, rest) && l.Node?
    modifies m
    ensures var q := Node(l, m, m.key, D(l), t.rd, t.right);
            Heap(q) && Nodes(q) == Nodes(t) - {tp}
  {
    ghost var q := Node(l, m, m.key, D(l), t.rd, t.right);
    Cover(t);
    Cover(q);
    Cover(t.left);
    if t.left.right.Nil? { Unfold(t.left); Cover(t.left.right); }
    hide Heap, Nodes;
    if m != rest {
      DepthIsD(l);
      m.left := rest;
      m.ldepth := Max(rest.rdepth, rest.ldepth) + 1;
    }
    hide D;
    m.right := tp.right;
    m.rdepth := tp.rdepth;
    assert Heap(t.right) && Heap(l);
    Fold(q);
  }

  method ReplaceFromRight(tp: TreeNode, m: TreeNode, rest: TreeNode, ghost t: Shape, ghost r: Shape)
    requires t.Node? && t.right.Node? && tp == t.ref && Linked(t) && Apart(t) && Heap(t.left)
    requires m in Nodes(t.right)
    requires t.right.left.Nil? ==> m == rest == t.right.ref && Heap(t.right) && r == t.right.right && D(r) == t.right.rd
    requires t.right.left.Node? ==> TakenOut(t.right, m, r, rest) && r.Node?
    modifies m
    ensures var q := Node(t.left, m, m.key, t.ld, D(r), r);
            Heap(q) && Nodes(q) == Nodes(t) - {tp}
  {
    ghost var q := Node(t.left, m, m.key, t.ld, D(r), r);
    Cover(t);
    Cover(q);
    Cover(t.right);
    if t.right.left.Nil? { Unfold(t.right); Cover(t.right.left); }
    hide Heap, Nodes;
    if m != rest {
      DepthIsD(r);
      m.right := rest;
      m.rdepth := Max(rest.rdepth, rest.ldepth) + 1;
    }
    hide D;
    m.left := tp.left;
    m.ldepth := tp.ldepth;
    assert Heap(t.left) && Heap(r);
    Fold(q);
  }

  /** t_delete: user_free may refuse; otherwise the root goes. */
  method TDelete(tp: TreeNode, refuses: int -> bool, ghost t: Shape) returns (refused: bool, r: TreeNode?)
    requires t.Node? && tp == t.ref && Heap(t) && Exact(t)
    modifies Nodes(t)
    ensures refused == refuses(t.key)
    ensures refused ==> Heap(t)
    ensures !refused ==> r == Root(DropRoot(t)) && Heap(DropRoot(t)) && Nodes(DropRoot(t)) == Nodes(t) - {tp}
  {
    Unfold(t);
    if refuses(tp.key) { return true, null; }
    refused := false;
    if tp.right == null {
      r := tp.left;
    } else if tp.left == null {
      r := tp.right;
    } else {
      DropRootStep(t);
      hide Exact, D, Inorder, DropRightmost, Rightmost, DropLeftmost, Leftmost, DropRoot, Heap, Nodes;
      Cover(t);
      if tp.ldepth >= tp.rdepth {
        assert allocated(Nodes(t.right));
        var m, rest := TakeRightmost(tp.left, t.left);
        assert Heap(t.right);
        ReplaceFromLeft(tp, m, rest, t, DropRightmost(t.left));
        r := m;
      } else {
        assert allocated(Nodes(t.left));
        var m, rest := TakeLeftmost(tp.right, t.right);
        assert Heap(t.left);
        ReplaceFromRight(tp, m, rest, t, DropLeftmost(t.right));
        r := m;
      }
    }
  }

  /** The way down to the key, one step. */
  lemma DelStep(t: Shape, key: int)
    requires t.Node? && Exact(t)
    ensures Exact(t.left) && Exact(t.right)
    ensures t.key == key ==> Level(t, key) == 1 && Del(t, key) == DropRoot(t)
    ensures t.key > key ==> Level(t, key) == if Level(t.left, key) == 0 then 0 else Level(t.left, key) + 1
    ensures t.key < key ==> Level(t, key) == if Level(t.right, key) == 0 then 0 else Level(t.right, key) + 1
    ensures t.key > key && Level(t.left, key) > 0 ==> Del(t, key) == ShrunkLeft(t, Del(t.left, key))
    ensures t.key < key && Level(t.right, key) > 0 ==> Del(t, key) == ShrunkRight(t, Del(t.right, key))
    ensures t.left.Nil? ==> Level(t.left, key) == 0
    ensures t.right.Nil? ==> Level(t.right, key) == 0
  {
    hide Inorder, D, DropRoot, ShrunkLeft, ShrunkRight;
  }

  /** The left pointer and depth of a node below which something has been deleted. */
  method ReattachLeft(tp: TreeNode, l: TreeNode?, ghost t: Shape, ghost lt: Shape)
    requires t.Node? && tp == t.ref && Linked(t) && Apart(t) && Heap(t.right)
    requires l == Root(lt) && Heap(lt) && Nodes(lt) <= Nodes(t.left)
    modifies tp
    ensures Heap(t.(left := lt, ld := D(lt)))
  {
    ghost var n := t.(left := lt, ld := D(lt));
    DepthIsD(lt);
    hide Heap, Nodes, D;
    tp.left := l;
    tp.ldepth := Depth(tp.left);
    assert Heap(lt) && Heap(t.right);
    Fold(n);
  }

  method ReattachRight(tp: TreeNode, l: TreeNode?, ghost t: Shape, ghost lt: Shape)
    requires t.Node? && tp == t.ref && Linked(t) && Apart(t) && Heap(t.left)
    requires l == Root(lt) && Heap(lt) && Nodes(lt) <= Nodes(t.right)
    modifies tp
    ensures Heap(t.(right := lt, rd := D(lt)))
  {
    ghost var n := t.(right := lt, rd := D(lt));
    DepthIsD(lt);
    hide Heap, Nodes, D;
    tp.right := l;
    tp.rdepth := Depth(tp.right);
    assert Heap(lt) && Heap(t.left);
    Fold(n);
  }

  /** The tree after a deletion that has reported flg. */
  ghost function Left(t: Shape, key: int, flg: nat): Shape
    requires Exact(t)
  {
    if flg == 0 then t else Del(t, key)
  }

  /** What BB_Tree_Del has done to t. */
  ghost predicate Deleted(t: Shape, key: int, flg: nat, r: TreeNode?, gone: TreeNode?)
    requires Exact(t)
    reads Nodes(Left(t, key, flg))
  {
    var q := Left(t, key, flg);
    r == Root(q) && Heap(q) && Nodes(q) == Nodes(t) - {gone} &&
    if flg == 0 then gone == null else gone != null && gone in Nodes(t) && gone.key == key
  }

  /** BB_Tree_Del after the deletion on the left, which has reported `below`. */
  method DeletedLeft(tp: TreeNode, l: TreeNode?, below: nat, key: int, ghost t: Shape, ghost gone: TreeNode?)
    returns (r: TreeNode, flg: nat)
    requires t.Node? && tp == t.ref && Exact(t) && t.key > key && (below > 0 ==> Level(t.left, key) > 0)
    requires Linked(t) && Apart(t) && Heap(t.right) && Deleted(t.left, key, below, l, gone)
    modifies {tp} + Nodes(t.right) + Nodes(Left(t.left, key, below))
    ensures flg == (if below > 0 then below + 1 else 0) && Deleted(t, key, flg, r, gone)
  {
    ghost var q := Left(t.left, key, below);
    DelStep(t, key);
    Cover(t);
    hide Exact, D, Inorder, Heap, Nodes, Level, Del, ShrunkLeft;
    if below > 0 {
      ReattachLeft(tp, l, t, q);
      Cover(t.(left := q, ld := D(q)));
      r := ShrinkLeft(tp, t, q);
      flg := below + 1;
    } else {
      r, flg := tp, 0;
      tp.left := l;
      assert Heap(t.right) && Heap(t.left);
      Fold(t);
    }
  }

  method DeletedRight(tp: TreeNode, l: TreeNode?, below: nat, key: int, ghost t: Shape, ghost gone: TreeNode?)
    returns (r: TreeNode, flg: nat)
    requires t.Node? && tp == t.ref && Exact(t) && t.key < key && (below > 0 ==> Level(t.right, key) > 0)
    requires Linked(t) && Apart(t) && Heap(t.left) && Deleted(t.right, key, below, l, gone)
    modifies {tp} + Nodes(t.left) + Nodes(Left(t.right, key, below))
    ensures flg == (if below > 0 then below + 1 else 0) && Deleted(t, key, flg, r, gone)
  {
    ghost var q := Left(t.right, key, below);
    DelStep(t, key);
    Cover(t);
    hide Exact, D, Inorder, Heap, Nodes, Level, Del, ShrunkRight;
    if below > 0 {
      ReattachRight(tp, l, t, q);
      Cover(t.(right := q, rd := D(q)));
      r := ShrinkRight(tp, t, q);
      flg := below + 1;
    } else {
      r, flg := tp, 0;
      tp.right := l;
      assert Heap(t.right) && Heap(t.left);
      Fold(t);
    }
  }

  /** BB_Tree_Del: flg is the level of the node `gone` that has been removed, or 0 with the tree as it was. */
  method BBTreeDel(tp: TreeNode?, key: int, refuses: int -> bool, ghost t: Shape)
    returns (r: TreeNode?, flg: nat, ghost gone: TreeNode?)
    requires tp == Root(t) && Heap(t) && Exact(t)
    modifies Nodes(t)
    ensures flg == if refuses(key) then 0 else Level(t, key)
    ensures Deleted(t, key, flg, r, gone)
    decreases t
  {
    if tp == null { return tp, 0, null; }
    Unfold(t);
    DelStep(t, key);
    hide Exact, D, Inorder, DropRoot, Heap, Nodes, Level, Del, ShrunkLeft, ShrunkRight;
    gone := null;
    if tp.key == key {
      var refused, rest := TDelete(tp, refuses, t);
      if refused {
        r, flg := tp, 0;
      } else {
        r, flg, gone := rest, 1, tp;
      }
    } else if tp.key > key {
      if tp.left == null { return tp, 0, null; }
      assert allocated(Nodes(t.right));
      var l, below;
      l, below, gone := BBTreeDel(tp.left, key, refuses, t.left);
      assert Heap(t.right);
      r, flg := DeletedLeft(tp, l, below, key, t, gone);
    } else {
      if tp.right == null { return tp, 0, null; }
      assert allocated(Nodes(t.left));
      var l, below;
      l, below, gone := BBTreeDel(tp.right, key, refuses, t.right);
      assert Heap(t.left);
      r, flg := DeletedRight(tp, l, below, key, t, gone);
    }
  }

  lemma NextTree(ops: seq<Op>, i: nat, nodes: seq<Option<TreeNode>>, trees: seq<Shape>, n: Option<TreeNode>, t': Shape)
    requires i < |ops| && Run(ops[..i], nodes, trees) && Exact(trees[i]) && Step(trees[i], ops[i], n, t')
    ensures Run(ops[..i + 1], nodes + [n], trees + [t'])
  {
    hide Exact, Add, Del;
    var more, m := trees + [t'], nodes + [n];
    assert forall j :: 0 <= j <= i ==> more[j] == trees[j];
    assert forall j :: 0 <= j < i ==> m[j] == nodes[j] && ops[..i + 1][j] == ops[..i][j];
  }

  /** Any run of additions and deletions on nodes in memory: the nodes are linked as the run of the values says, so the
      keys that they hold are those added and not deleted since. */
  method Execute(ops: seq<Op>) returns (root: TreeNode?, ghost t: Shape)
    ensures root == Root(t) && Heap(t) && fresh(Nodes(t)) && Exact(t) && Ordered(t)
    ensures forall k :: HasKey(Inorder(t), k) <==> Present(ops, k)
  {
    root, t := null, Nil;
    ghost var trees: seq<Shape>, nodes: seq<Option<TreeNode>> := [t], [];
    assert Run(ops[..0], nodes, trees) && Heap(t) && Nodes(t) == {};
    hide Heap, Nodes, Add, Del, Exact, Inorder, Run, Level;
    for i := 0 to |ops|
      invariant Run(ops[..i], nodes, trees) && |trees| == i + 1 && t == trees[i] && Exact(t)
      invariant root == Root(t) && Heap(t) && fresh(Nodes(t))
    {
      ghost var t', n;
      match ops[i] {
      case Adding(key) =>
        ghost var node;
        root, node := BBTreeAdd(root, key, t);
        t', n := Add(t, key, node), Some(node);
      case Deleting(key) =>
        var flg;
        ghost var gone;
        root, flg, gone := BBTreeDel(root, key, _ => false, t);
        LeftIs(t, key);
        t', n := Del(t, key), None;
      }
      NextTree(ops, i, nodes, trees, n, t');
      trees, nodes, t := trees + [t'], nodes + [n], t';
    }
    assert ops[..|ops|] == ops;
    MixedRuns(ops, nodes, trees);
  }

  lemma LeftIs(t: Shape, key: int)
    requires Exact(t)
    ensures Left(t, key, Level(t, key)) == Del(t, key) && Exact(Del(t, key))
  {
  }
}
