/** Exactly when the rebalancing step of deletion restores balance: it always brings up the inner grandchild. */
module TreeDelBalance {
  import opened Bytes
  import opened TreeSpec
  import opened TreeDelSpec

  /** The right side is too high by one; the test looks at stored depths only. */
  predicate RBlcGood<R>(t: Tree<R>)
    requires t.Node? && t.right.Node?
  {
    var c := t.right;
    if c.left.Nil? || c.ld > c.rd then true
    else if c.right.Nil? then false
    else
      var m, o := c.left, c.right;
      if c.ld == c.rd then m.rd >= m.ld || o.ld <= o.rd
      else if m.ld > m.rd then o.ld < o.rd
      else if m.ld == m.rd then o.ld <= o.rd
      else o.ld <= o.rd && t.left.Node? && t.left.ld >= t.left.rd && (o.ld < o.rd || t.left.ld == t.left.rd)
  }

  predicate LBlcGood<R>(t: Tree<R>)
    requires t.Node? && t.left.Node?
  {
    var c := t.left;
    if c.right.Nil? || c.rd > c.ld then true
    else if c.left.Nil? then false
    else
      var m, o := c.right, c.left;
      if c.rd == c.ld then m.ld >= m.rd || o.rd <= o.ld
      else if m.rd > m.ld then o.rd < o.ld
      else if m.rd == m.ld then o.rd <= o.ld
      else o.rd <= o.ld && t.right.Node? && t.right.rd >= t.right.ld && (o.rd < o.ld || t.right.rd == t.right.ld)
  }

  /** One side too high by exactly one more than allowed, both sides balanced themselves. */
  ghost predicate Tipped<R>(t: Tree<R>) {
    ExactNode(t) && Balanced(t.left) && Balanced(t.right)
  }

  lemma BalancedNode<R>(t: Tree<R>)
    requires t.Node? && Exact(t)
    ensures Balanced(t) <==> -1 <= t.ld - t.rd <= 1 && Balanced(t.left) && Balanced(t.right)
    ensures Height(t) == Max(t.ld, t.rd) + 1
  {
  }

  /** A left rotation in the middle: balanced or not, by the depths of the three subtrees. */
  lemma LRotBalanced<R>(f: Tree<R>)
    requires ExactNode(f) && f.right.Node? && Balanced(f.left) && Balanced(f.right)
    ensures var o := f.right; var d := Max(f.ld, o.ld) + 1;
            (Balanced(LRot(f)) <==> -1 <= f.ld - o.ld <= 1 && -1 <= d - o.rd <= 1) &&
            Height(LRot(f)) == Max(d, o.rd) + 1
  {
    LRotKeeps(f);
    assert Exact(f.right);
    BalancedNode(f.right);
    BalancedNode(LRot(f));
    BalancedNode(LRot(f).left);
    hide Inorder, Balanced, Height;
  }

  lemma RRotBalanced<R>(f: Tree<R>)
    requires ExactNode(f) && f.left.Node? && Balanced(f.left) && Balanced(f.right)
    ensures var o := f.left; var d := Max(f.rd, o.rd) + 1;
            (Balanced(RRot(f)) <==> -1 <= f.rd - o.rd <= 1 && -1 <= d - o.ld <= 1) &&
            Height(RRot(f)) == Max(d, o.ld) + 1
  {
    RRotKeeps(f);
    assert Exact(f.left);
    BalancedNode(f.left);
    BalancedNode(RRot(f));
    BalancedNode(RRot(f).right);
    hide Inorder, Balanced, Height;
  }

  predicate Near(a: int, b: int) { -1 <= a - b <= 1 }

  /** A node with subtrees of heights h and k is balanced and one higher than the higher of them. */
  predicate Join(height: int, h: int, k: int) { Near(h, k) && height == Max(h, k) + 1 }

  /** A node with subtrees of heights k and j, j belonging to a node with subtrees of heights u and v: rotated if j is
      too high, is it balanced, and how high is it? */
  predicate SwungOK(k: int, j: int, u: int, v: int) {
    if j - k > 1 then Near(k, u) && Near(Max(k, u) + 1, v) else Near(k, j)
  }

  function SwungHeight(k: int, j: int, u: int, v: int): int {
    if j - k > 1 then Max(Max(k, u) + 1, v) + 1 else Max(k, j) + 1
  }

  /** The heights around R_blc: h left of the tipped node, p and q below its right child, and so on downwards. */
  lemma Heights(h: int, p: int, q: int, a: int, b: int, u: int, v: int, x: int, y: int)
    requires h >= 0 && Join(h + 2, p, q) && p >= 1 && Join(p, a, b) && a >= 0 && b >= 0
    requires q >= 1 ==> Join(q, u, v) && u >= 0 && v >= 0
    requires h >= 1 ==> Join(h, x, y) && x >= 0 && y >= 0
    ensures (SwungOK(b, q, u, v) && SwungOK(a, h, y, x) && Near(SwungHeight(a, h, y, x), SwungHeight(b, q, u, v)))
            <==> HeightsGood(h, p, q, a, b, u, v, x, y)
    ensures HeightsGood(h, p, q, a, b, u, v, x, y) ==>
              h + 2 <= Max(SwungHeight(a, h, y, x), SwungHeight(b, q, u, v)) + 1 <= h + 3
  {
    if p > q {
    } else if p == q {
      if b >= a { } else { }
    } else if a > b {
    } else if a == b {
    } else {
    }
  }

  predicate HeightsGood(h: int, p: int, q: int, a: int, b: int, u: int, v: int, x: int, y: int) {
    p > q ||
    (q >= 1 &&
      if p == q then b >= a || u <= v
      else if a > b then u < v
      else if a == b then u <= v
      else u <= v && h >= 1 && x >= y && (u < v || x == y))
  }

  /** R_blc restores balance if and only if its test holds. */
  lemma RBlcBalanced<R>(t: Tree<R>)
    requires Tipped(t) && t.rd == t.ld + 2
    ensures t.right.Node? && (Balanced(RBlc(t)) <==> RBlcGood(t))
    ensures Balanced(RBlc(t)) ==> t.ld + 2 <= Height(RBlc(t)) <= t.ld + 3
  {
    var c, r := t.right, RBlc(t);
    RBlcKeeps(t);
    BalancedNode(c);
    BalancedNode(r);
    assert Exact(c);
    if c.left.Nil? {
      hide Inorder;
      BalancedNode(r.left);
    } else {
      RBlcInner(t);
    }
  }

  /** What the depths of a balanced tree say. */
  lemma Depths<R>(t: Tree<R>)
    requires Exact(t) && Balanced(t)
    ensures t.Node? ==> Join(Height(t), t.ld, t.rd) && t.ld >= 0 && t.rd >= 0
    ensures t.Node? ==> Exact(t.left) && Exact(t.right) && Balanced(t.left) && Balanced(t.right)
    ensures t.Node? ==> t.ld == Height(t.left) && t.rd == Height(t.right)
    ensures t.Node? <==> Height(t) >= 1
  {
  }

  function LD<R>(t: Tree<R>): int { if t.Nil? then 0 else t.ld }

  function RD<R>(t: Tree<R>): int { if t.Nil? then 0 else t.rd }

  /** The shape of R_blc's result when there is an inner grandchild. */
  lemma RBlcShape<R>(t: Tree<R>, f: Tree<R>, n: Tree<R>)
    requires Tipped(t) && t.rd == t.ld + 2 && t.right.Node? && t.right.left.Node?
    requires f == t.right.(left := t.right.left.right, ld := t.right.left.rd)
    requires n == t.(right := t.right.left.left, rd := t.right.left.ld)
    ensures ExactNode(f) && ExactNode(n) && RBlc(t).Node?
    ensures f.rd - f.ld > 1 ==> f.right.Node?
    ensures n.ld - n.rd > 1 ==> n.left.Node?
    ensures RBlc(t).left == SwungRight(n) && RBlc(t).right == SwungLeft(f)
    ensures Exact(RBlc(t)) && RBlc(t).Node?
  {
    RBlcKeeps(t);
    assert Exact(t.right) && Exact(t.right.left);
    hide Inorder;
  }

  /** A node whose right side may be too high, rotated if it is. */
  function SwungLeft<R>(f: Tree<R>): Tree<R>
    requires f.Node? && (f.rd - f.ld > 1 ==> f.right.Node?)
  {
    if f.rd - f.ld > 1 then LRot(f) else f
  }

  function SwungRight<R>(n: Tree<R>): Tree<R>
    requires n.Node? && (n.ld - n.rd > 1 ==> n.left.Node?)
  {
    if n.ld - n.rd > 1 then RRot(n) else n
  }

  lemma SwungLeftBalanced<R>(f: Tree<R>)
    requires ExactNode(f) && (f.rd - f.ld > 1 ==> f.right.Node?) && Balanced(f.left) && Balanced(f.right)
    ensures Balanced(SwungLeft(f)) <==> SwungOK(f.ld, f.rd, LD(f.right), RD(f.right))
    ensures Height(SwungLeft(f)) == SwungHeight(f.ld, f.rd, LD(f.right), RD(f.right))
  {
    hide Inorder, Balanced, Height, LRot, Exact;
    if f.rd - f.ld > 1 { LRotBalanced(f); } else { NodeOf(f); BalancedNode(f); }
  }

  lemma SwungRightBalanced<R>(n: Tree<R>)
    requires ExactNode(n) && (n.ld - n.rd > 1 ==> n.left.Node?) && Balanced(n.left) && Balanced(n.right)
    ensures Balanced(SwungRight(n)) <==> SwungOK(n.rd, n.ld, RD(n.left), LD(n.left))
    ensures Height(SwungRight(n)) == SwungHeight(n.rd, n.ld, RD(n.left), LD(n.left))
  {
    hide Inorder, Balanced, Height, RRot, Exact;
    if n.ld - n.rd > 1 { RRotBalanced(n); } else { NodeOf(n); BalancedNode(n); }
  }

  lemma RBlcInner<R>(t: Tree<R>)
    requires Tipped(t) && t.rd == t.ld + 2 && t.right.Node? && t.right.left.Node?
    ensures Balanced(RBlc(t)) <==> RBlcGood(t)
    ensures Balanced(RBlc(t)) ==> t.ld + 2 <= Height(RBlc(t)) <= t.ld + 3
  {
    hide Inorder, Balanced, Height, RBlc, LRot, RRot, Exact, RBlcGood, HeightsGood;
    hide SwungLeft, SwungRight, SwungOK, SwungHeight;
    var c, m, o, r := t.right, t.right.left, t.right.right, RBlc(t);
    var f := c.(left := m.right, ld := m.rd);
    var n := t.(right := m.left, rd := m.ld);
    RBlcShape(t, f, n);
    Depths(t.left);
    Depths(c);
    Depths(m);
    Depths(o);
    BalancedNode(r);
    DepthsOf(r);
    SwungLeftBalanced(f);
    SwungRightBalanced(n);
    Heights(t.ld, c.ld, c.rd, m.ld, m.rd, LD(o), RD(o), LD(t.left), RD(t.left));
    GoodIsGood(t);
  }

  lemma GoodIsGood<R>(t: Tree<R>)
    requires t.Node? && t.right.Node? && t.right.left.Node? && t.right.ld >= 0 && t.right.rd >= 0
    requires t.right.right.Node? <==> t.right.rd >= 1
    requires t.left.Node? <==> t.ld >= 1
    ensures RBlcGood(t) <==>
            HeightsGood(t.ld, t.right.ld, t.right.rd, t.right.left.ld, t.right.left.rd,
                        LD(t.right.right), RD(t.right.right), LD(t.left), RD(t.left))
  {
  }

  lemma DepthsOf<R>(t: Tree<R>)
    requires t.Node? && Exact(t)
    ensures t.ld == Height(t.left) && t.rd == Height(t.right)
  {
  }

  lemma NodeOf<R>(t: Tree<R>)
    requires ExactNode(t)
    ensures Exact(t)
  {
  }

  // ---------- the mirror image ----------

  function Mirror<R>(t: Tree<R>): (m: Tree<R>)
    ensures m.Nil? <==> t.Nil?
  {
    if t.Nil? then Nil else Node(Mirror(t.right), t.ref, t.key, t.rd, t.ld, Mirror(t.left))
  }

  lemma MirrorStep<R>(t: Tree<R>)
    ensures t.Node? ==> Mirror(t) == Node(Mirror(t.right), t.ref, t.key, t.rd, t.ld, Mirror(t.left))
  {
  }

  lemma {:induction false} MirrorKeeps<R>(t: Tree<R>)
    ensures Height(Mirror(t)) == Height(t)
    ensures Balanced(Mirror(t)) <==> Balanced(t)
    ensures Exact(Mirror(t)) <==> Exact(t)
    decreases t
  {
    if t.Node? {
      MirrorKeeps(t.left);
      MirrorKeeps(t.right);
    }
  }

  lemma MirrorNode<R>(t: Tree<R>)
    requires ExactNode(t)
    ensures ExactNode(Mirror(t))
  {
    MirrorKeeps(t.left);
    MirrorKeeps(t.right);
  }

  lemma MirrorLRot<R>(f: Tree<R>)
    requires f.Node? && f.left.Node?
    ensures Mirror(RRot(f)) == LRot(Mirror(f))
  {
  }

  lemma MirrorRRot<R>(f: Tree<R>)
    requires f.Node? && f.right.Node?
    ensures Mirror(LRot(f)) == RRot(Mirror(f))
  {
  }

  lemma MirrorBlc<R>(t: Tree<R>)
    requires ExactNode(t) && t.ld - t.rd > 1
    ensures ExactNode(Mirror(t)) && Mirror(LBlc(t)) == RBlc(Mirror(t))
  {
    MirrorNode(t);
    assert Exact(t.left) && t.left.Node?;
    if t.left.right.Nil? { MirrorOuter(t); } else { MirrorInner(t); }
  }

  lemma MirrorOuter<R>(t: Tree<R>)
    requires ExactNode(t) && t.ld - t.rd > 1 && t.left.Node? && t.left.right.Nil? && ExactNode(Mirror(t))
    ensures Mirror(LBlc(t)) == RBlc(Mirror(t))
  {
    var c := t.left;
    var n := t.(left := c.right, ld := c.rd);
    assert Exact(c);
    hide Inorder, Height, Balanced, Exact, LRot, RRot;
    if n.rd - n.ld > 1 { MirrorRRot(n); }
    MirrorD(if n.rd - n.ld > 1 then LRot(n) else n);
  }

  lemma MirrorD<R>(t: Tree<R>)
    ensures D(Mirror(t)) == D(t)
  {
  }

  /** The two nodes below the inner grandchild that L_blc brings up, before they are rotated. */
  lemma LBlcNodes<R>(t: Tree<R>, f: Tree<R>, n: Tree<R>)
    requires ExactNode(t) && t.ld - t.rd > 1 && t.left.Node? && t.left.right.Node?
    requires f == t.left.(right := t.left.right.left, rd := t.left.right.ld)
    requires n == t.(left := t.left.right.right, ld := t.left.right.rd)
    ensures f.ld - f.rd > 1 ==> f.left.Node?
    ensures n.rd - n.ld > 1 ==> n.right.Node?
    ensures LBlc(t) == Node(SwungRight(f), t.left.right.ref, t.left.right.key, D(SwungRight(f)), D(SwungLeft(n)),
                            SwungLeft(n))
  {
    assert Exact(t.left) && Exact(t.left.right);
    hide Inorder, Balanced, D;
  }

  lemma RBlcNodes<R>(t: Tree<R>, f: Tree<R>, n: Tree<R>)
    requires ExactNode(t) && t.rd - t.ld > 1 && t.right.Node? && t.right.left.Node?
    requires f == t.right.(left := t.right.left.right, ld := t.right.left.rd)
    requires n == t.(right := t.right.left.left, rd := t.right.left.ld)
    ensures f.rd - f.ld > 1 ==> f.right.Node?
    ensures n.ld - n.rd > 1 ==> n.left.Node?
    ensures RBlc(t) == Node(SwungRight(n), t.right.left.ref, t.right.left.key, D(SwungRight(n)), D(SwungLeft(f)),
                            SwungLeft(f))
  {
    assert Exact(t.right) && Exact(t.right.left);
    hide Inorder, Balanced, D;
  }

  lemma MirrorSwung<R>(f: Tree<R>, n: Tree<R>)
    requires f.Node? && (f.ld - f.rd > 1 ==> f.left.Node?)
    requires n.Node? && (n.rd - n.ld > 1 ==> n.right.Node?)
    ensures Mirror(SwungRight(f)) == SwungLeft(Mirror(f)) && D(Mirror(SwungRight(f))) == D(SwungRight(f))
    ensures Mirror(SwungLeft(n)) == SwungRight(Mirror(n)) && D(Mirror(SwungLeft(n))) == D(SwungLeft(n))
  {
    if f.ld - f.rd > 1 { MirrorLRot(f); }
    if n.rd - n.ld > 1 { MirrorRRot(n); }
    MirrorD(SwungRight(f));
    MirrorD(SwungLeft(n));
    hide D, LRot, RRot;
  }

  lemma MirrorInner<R>(t: Tree<R>)
    requires ExactNode(t) && t.ld - t.rd > 1 && t.left.Node? && t.left.right.Node? && ExactNode(Mirror(t))
    ensures Mirror(LBlc(t)) == RBlc(Mirror(t))
  {
    hide Mirror, LBlc, RBlc, Inorder, Height, Balanced, Exact, LRot, RRot, D, SwungLeft, SwungRight;
    var m := t.left.right;
    var f := t.left.(right := m.left, rd := m.ld);
    var n := t.(left := m.right, ld := m.rd);
    MirrorStep(t);
    MirrorStep(t.left);
    MirrorStep(m);
    MirrorStep(f);
    MirrorStep(n);
    MirrorStep(LBlc(t));
    LBlcNodes(t, f, n);
    MirrorSwung(f, n);
    RBlcNodes(Mirror(t), Mirror(f), Mirror(n));
  }

  lemma MirrorGood<R>(t: Tree<R>)
    requires t.Node? && t.left.Node?
    ensures LBlcGood(t) <==> RBlcGood(Mirror(t))
  {
    if t.left.right.Node? && t.left.left.Node? {
      var a, b := Mirror(t.left.right), Mirror(t.left.left);
      assert a.ld == t.left.right.rd && b.rd == t.left.left.ld;
    }
  }

  /** L_blc restores balance if and only if its test holds. */
  lemma LBlcBalanced<R>(t: Tree<R>)
    requires Tipped(t) && t.ld == t.rd + 2
    ensures t.left.Node? && (Balanced(LBlc(t)) <==> LBlcGood(t))
    ensures Balanced(LBlc(t)) ==> t.rd + 2 <= Height(LBlc(t)) <= t.rd + 3
  {
    assert t.left.Node?;
    hide Inorder;
    MirrorKeeps(t.left);
    MirrorKeeps(t.right);
    MirrorBlc(t);
    MirrorGood(t);
    MirrorKeeps(LBlc(t));
    hide LBlc, RBlc, LBlcGood, RBlcGood, Balanced;
    RBlcBalanced(Mirror(t));
  }

  // ---------- deletion ----------

  /** One step up from a shrunk left subtree: balance is lost exactly where R_blc is called and its test fails. */
  lemma ShrunkLeftBalanced<R>(t: Tree<R>, l: Tree<R>)
    requires Exact(t) && t.Node? && Balanced(t) && Exact(l) && Balanced(l)
    requires Height(t.left) - 1 <= Height(l) <= Height(t.left)
    ensures var n := t.(left := l, ld := D(l));
            n.rd - n.ld > 1 ==> n.rd == n.ld + 2 && n.right.Node?
    ensures var n := t.(left := l, ld := D(l));
            Balanced(ShrunkLeft(t, l)) <==> (n.rd - n.ld > 1 ==> RBlcGood(n))
    ensures Balanced(ShrunkLeft(t, l)) ==> Height(t) - 1 <= Height(ShrunkLeft(t, l)) <= Height(t)
  {
    hide Inorder;
    DIsHeight(l);
    var n := t.(left := l, ld := D(l));
    if n.rd - n.ld > 1 {
      RBlcBalanced(n);
      hide RBlc, RBlcGood;
    }
  }

  lemma ShrunkRightBalanced<R>(t: Tree<R>, r: Tree<R>)
    requires Exact(t) && t.Node? && Balanced(t) && Exact(r) && Balanced(r)
    requires Height(t.right) - 1 <= Height(r) <= Height(t.right)
    ensures var n := t.(right := r, rd := D(r));
            n.ld - n.rd > 1 ==> n.ld == n.rd + 2 && n.left.Node?
    ensures var n := t.(right := r, rd := D(r));
            Balanced(ShrunkRight(t, r)) <==> (n.ld - n.rd > 1 ==> LBlcGood(n))
    ensures Balanced(ShrunkRight(t, r)) ==> Height(t) - 1 <= Height(ShrunkRight(t, r)) <= Height(t)
  {
    hide Inorder;
    DIsHeight(r);
    var n := t.(right := r, rd := D(r));
    if n.ld - n.rd > 1 {
      LBlcBalanced(n);
      hide LBlc, LBlcGood;
    }
  }

  /** The step up after the left subtree has become l meets the test of R_blc, if it comes to R_blc. */
  predicate LeftStepGood<R>(t: Tree<R>, l: Tree<R>)
    requires t.Node? && Exact(t) && Exact(l)
  {
    var n := t.(left := l, ld := D(l));
    DIsHeight(l);
    n.rd - n.ld > 1 ==> RBlcGood(n)
  }

  predicate RightStepGood<R>(t: Tree<R>, r: Tree<R>)
    requires t.Node? && Exact(t) && Exact(r)
  {
    var n := t.(right := r, rd := D(r));
    DIsHeight(r);
    n.ld - n.rd > 1 ==> LBlcGood(n)
  }

  /** Every rebalancing step while the rightmost node is taken out meets its test. */
  predicate RightmostGood<R>(t: Tree<R>)
    requires t.Node? && Exact(t)
    decreases t
  {
    t.right.Node? ==> RightmostGood(t.right) && RightStepGood(t, DropRightmost(t.right))
  }

  predicate LeftmostGood<R>(t: Tree<R>)
    requires t.Node? && Exact(t)
    decreases t
  {
    t.left.Node? ==> LeftmostGood(t.left) && LeftStepGood(t, DropLeftmost(t.left))
  }

  /** Every rebalancing step of a deletion meets its test. */
  predicate DelGood<R>(t: Tree<R>, key: int)
    requires Exact(t)
    decreases t
  {
    if t.Nil? then true
    else if t.key == key then
      t.left.Node? && t.right.Node? ==> if t.ld >= t.rd then RightmostGood(t.left) else LeftmostGood(t.right)
    else if t.key > key then
      Level(t.left, key) > 0 ==> DelGood(t.left, key) && LeftStepGood(t, Del(t.left, key))
    else
      Level(t.right, key) > 0 ==> DelGood(t.right, key) && RightStepGood(t, Del(t.right, key))
  }

  /** Balanced, and as high as before or one less. */
  predicate Shrunk<R>(t: Tree<R>, q: Tree<R>) { Balanced(q) && Height(t) - 1 <= Height(q) <= Height(t) }

  lemma {:induction false} DropRightmostBalanced<R>(t: Tree<R>)
    requires t.Node? && Exact(t) && Balanced(t) && RightmostGood(t)
    ensures Shrunk(t, DropRightmost(t))
    decreases t
  {
    if t.right.Node? {
      DropRightmostBalanced(t.right);
      ShrunkRightBalanced(t, DropRightmost(t.right));
      hide Inorder, LBlcGood, LBlc, Balanced, Height, ShrunkRight;
    } else {
      hide Inorder;
    }
  }

  lemma {:induction false} DropLeftmostBalanced<R>(t: Tree<R>)
    requires t.Node? && Exact(t) && Balanced(t) && LeftmostGood(t)
    ensures Shrunk(t, DropLeftmost(t))
    decreases t
  {
    if t.left.Node? {
      DropLeftmostBalanced(t.left);
      ShrunkLeftBalanced(t, DropLeftmost(t.left));
      hide Inorder, RBlcGood, RBlc, Balanced, Height, ShrunkLeft;
    } else {
      hide Inorder;
    }
  }

  lemma DropRootBalanced<R>(t: Tree<R>)
    requires t.Node? && Exact(t) && Balanced(t) && DelGood(t, t.key)
    ensures Shrunk(t, DropRoot(t))
  {
    hide Inorder, RightmostGood, LeftmostGood, DropRightmost, DropLeftmost, Level, Del;
    if t.left.Node? && t.right.Node? {
      if t.ld >= t.rd {
        DropRightmostBalanced(t.left);
        DIsHeight(DropRightmost(t.left));
      } else {
        DropLeftmostBalanced(t.right);
        DIsHeight(DropLeftmost(t.right));
      }
    }
  }

  /** A deletion whose rebalancing steps meet their tests keeps the tree balanced. */
  lemma {:induction false} DelBalanced<R>(t: Tree<R>, key: int)
    requires Exact(t) && Balanced(t) && DelGood(t, key)
    ensures Shrunk(t, Del(t, key))
    decreases t
  {
    if t.Nil? {
    } else if t.key == key {
      DropRootBalanced(t);
      hide Inorder, DropRoot, Shrunk, DelGood;
    } else if t.key > key {
      if Level(t.left, key) > 0 {
        DelBalanced(t.left, key);
        ShrunkLeftBalanced(t, Del(t.left, key));
        hide Inorder, RBlcGood, RBlc, Balanced, Height, ShrunkLeft;
      }
    } else if Level(t.right, key) > 0 {
      DelBalanced(t.right, key);
      ShrunkRightBalanced(t, Del(t.right, key));
      hide Inorder, LBlcGood, LBlc, Balanced, Height, ShrunkRight;
    }
  }

  /** Deletion can lose the balance: 20 over (10 over 5) and (40 over 30 and (60 over 50)), without 5. */
  lemma DelCanUnbalance()
    ensures var t := Node(Node(Node(Nil, 'a', 5, 0, 0, Nil), 'b', 10, 1, 0, Nil), 'c', 20, 2, 3,
                          Node(Node(Nil, 'd', 30, 0, 0, Nil), 'e', 40, 1, 2,
                               Node(Node(Nil, 'f', 50, 0, 0, Nil), 'g', 60, 1, 0, Nil)));
            Exact(t) && Balanced(t) && !Balanced(Del(t, 5))
  {
    var x, d := Node(Nil, 'a', 5, 0, 0, Nil), Node(Nil, 'd', 30, 0, 0, Nil);
    var g := Node(Node(Nil, 'f', 50, 0, 0, Nil), 'g', 60, 1, 0, Nil);
    var l, r := Node(x, 'b', 10, 1, 0, Nil), Node(d, 'e', 40, 1, 2, g);
    assert Exact(x) && Exact(d) && Exact(g) && Height(x) == 1 && Height(d) == 1 && Height(g) == 2;
    assert Exact(l) && Exact(r) && Height(l) == 2 && Height(r) == 3;
    assert Balanced(l) && Balanced(r);
    var t := Node(l, 'c', 20, 2, 3, r);
    assert Exact(t) && Balanced(t);
    assert Level(l, 5) == 2 && Del(x, 5) == Nil;
    var l' := Del(l, 5);
    assert l' == Node(Nil, 'b', 10, 0, 0, Nil);
    ShrunkLeftBalanced(t, l');
  }
}
