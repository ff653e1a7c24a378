/** A balance that deletion has lost is not found again: deletion keeps the tree balanced exactly if every step does. */
module TreeDelExact {
  import opened Bytes
  import opened TreeSpec
  import opened TreeDelSpec
  import opened TreeDelBalance

  /** Unbalanced below the root: no later rotation repairs that. */
  predicate Buried<R>(q: Tree<R>) { q.Node? && !(Balanced(q.left) && Balanced(q.right)) }

  /** Unbalanced, either below the root, or with the height it had before, so that nothing rotates above. */
  predicate Spoiled<R>(t: Tree<R>, q: Tree<R>) { Buried(q) || (!Balanced(q) && Height(q) == Height(t)) }

  /** If R_blc leaves both sides balanced and yet is too high on one, it has not lowered the tree. */
  lemma HeightsBad(h: int, p: int, q: int, a: int, b: int, u: int, v: int, x: int, y: int)
    requires h >= 0 && Join(h + 2, p, q) && p >= 1 && Join(p, a, b) && a >= 0 && b >= 0
    requires q >= 1 ==> Join(q, u, v) && u >= 0 && v >= 0
    requires h >= 1 ==> Join(h, x, y) && x >= 0 && y >= 0
    requires SwungOK(b, q, u, v) && SwungOK(a, h, y, x)
    requires !Near(SwungHeight(a, h, y, x), SwungHeight(b, q, u, v))
    ensures Max(SwungHeight(a, h, y, x), SwungHeight(b, q, u, v)) + 1 == h + 3
  {
  }

  lemma RBlcFails<R>(t: Tree<R>)
    requires Tipped(t) && t.rd == t.ld + 2 && t.right.Node? && !Balanced(RBlc(t))
    ensures Buried(RBlc(t)) || Height(RBlc(t)) == t.ld + 3
  {
    if t.right.left.Nil? {
      RBlcBalanced(t);
      hide *;
    } else {
      RBlcFailsInner(t);
    }
  }

  lemma RBlcFailsInner<R>(t: Tree<R>)
    requires Tipped(t) && t.rd == t.ld + 2 && t.right.Node? && t.right.left.Node? && !Balanced(RBlc(t))
    ensures Buried(RBlc(t)) || Height(RBlc(t)) == t.ld + 3
  {
    hide Inorder, Balanced, Height, RBlc, LRot, RRot, Exact, SwungLeft, SwungRight, SwungOK, SwungHeight;
    var c, m, o, r := t.right, t.right.left, t.right.right, RBlc(t);
    var f := c.(left := m.right, ld := m.rd);
    var n := t.(right := m.left, rd := m.ld);
    RBlcShape(t, f, n);
    Depths(t.left);
    Depths(c);
    Depths(m);
    Depths(o);
    BalancedNode(r);
    DepthsOf(r);
    SwungLeftBalanced(f);
    SwungRightBalanced(n);
    if !Buried(r) {
      HeightsBad(t.ld, c.ld, c.rd, m.ld, m.rd, LD(o), RD(o), LD(t.left), RD(t.left));
    }
  }

  lemma LBlcFails<R>(t: Tree<R>)
    requires Tipped(t) && t.ld == t.rd + 2 && t.left.Node? && !Balanced(LBlc(t))
    ensures Buried(LBlc(t)) || Height(LBlc(t)) == t.rd + 3
  {
    hide Inorder;
    MirrorKeeps(t.left);
    MirrorKeeps(t.right);
    MirrorBlc(t);
    var r := LBlc(t);
    MirrorKeeps(r);
    MirrorStep(r);
    if r.Node? {
      MirrorKeeps(r.left);
      MirrorKeeps(r.right);
    }
    hide LBlc, RBlc, Balanced;
    RBlcFails(Mirror(t));
  }

  /** A step that does not meet its test, above a side that is in order. */
  lemma LeftStepFails<R>(t: Tree<R>, l: Tree<R>)
    requires Exact(t) && t.Node? && Balanced(t) && Exact(l) && Shrunk(t.left, l) && !LeftStepGood(t, l)
    ensures Spoiled(t, ShrunkLeft(t, l))
  {
    hide Inorder;
    DIsHeight(l);
    ShrunkLeftBalanced(t, l);
    var n := t.(left := l, ld := D(l));
    RBlcFails(n);
    hide RBlc, RBlcGood;
  }

  lemma RightStepFails<R>(t: Tree<R>, r: Tree<R>)
    requires Exact(t) && t.Node? && Balanced(t) && Exact(r) && Shrunk(t.right, r) && !RightStepGood(t, r)
    ensures Spoiled(t, ShrunkRight(t, r))
  {
    hide Inorder;
    DIsHeight(r);
    ShrunkRightBalanced(t, r);
    var n := t.(right := r, rd := D(r));
    LBlcFails(n);
    hide LBlc, LBlcGood;
  }

  // ---------- steps above a spoiled side ----------

  lemma SwungBuried<R>(n: Tree<R>)
    requires n.Node? && (n.ld - n.rd > 1 ==> n.left.Node?) && Buried(n.left)
    ensures !Balanced(SwungRight(n))
  {
  }

  lemma SwungBuriedLeft<R>(n: Tree<R>)
    requires n.Node? && (n.rd - n.ld > 1 ==> n.right.Node?) && Buried(n.right)
    ensures !Balanced(SwungLeft(n))
  {
  }

  /** What R_blc puts on the left: the node itself, with its left subtree, rotated or not. */
  lemma RBlcLeft<R>(t: Tree<R>) returns (n: Tree<R>)
    requires ExactNode(t) && t.rd - t.ld > 1
    ensures n.Node? && n.left == t.left && (n.ld - n.rd > 1 ==> n.left.Node?)
    ensures RBlc(t).Node? && RBlc(t).left == SwungRight(n)
  {
    assert t.right.Node? && Exact(t.right);
    if t.right.left.Nil? {
      n := t.(right := t.right.left, rd := t.right.ld);
    } else {
      var m := t.right.left;
      n := t.(right := m.left, rd := m.ld);
      RBlcNodes(t, t.right.(left := m.right, ld := m.rd), n);
      hide RBlc;
    }
  }

  lemma LBlcRight<R>(t: Tree<R>) returns (n: Tree<R>)
    requires ExactNode(t) && t.ld - t.rd > 1
    ensures n.Node? && n.right == t.right && (n.rd - n.ld > 1 ==> n.right.Node?)
    ensures LBlc(t).Node? && LBlc(t).right == SwungLeft(n)
  {
    assert t.left.Node? && Exact(t.left);
    if t.left.right.Nil? {
      n := t.(left := t.left.right, ld := t.left.rd);
    } else {
      var m := t.left.right;
      n := t.(left := m.right, ld := m.rd);
      LBlcNodes(t, t.left.(right := m.left, rd := m.ld), n);
      hide LBlc;
    }
  }

  /** A spoiled side stays unbalanced, below the root of the result. */
  lemma StaysLeft<R>(t: Tree<R>, l: Tree<R>)
    requires Exact(t) && t.Node? && Balanced(t) && Exact(l) && Spoiled(t.left, l)
    ensures Buried(ShrunkLeft(t, l))
  {
    hide Inorder;
    DIsHeight(l);
    var n := t.(left := l, ld := D(l));
    if n.rd - n.ld > 1 {
      var n' := RBlcLeft(n);
      SwungBuried(n');
      hide RBlc, SwungRight;
    }
  }

  lemma StaysRight<R>(t: Tree<R>, r: Tree<R>)
    requires Exact(t) && t.Node? && Balanced(t) && Exact(r) && Spoiled(t.right, r)
    ensures Buried(ShrunkRight(t, r))
  {
    hide Inorder;
    DIsHeight(r);
    var n := t.(right := r, rd := D(r));
    if n.ld - n.rd > 1 {
      var n' := LBlcRight(n);
      SwungBuriedLeft(n');
      hide LBlc, SwungLeft;
    }
  }

  // ---------- whole deletions ----------

  lemma {:induction false} DropRightmostFails<R>(t: Tree<R>)
    requires t.Node? && Exact(t) && Balanced(t) && !RightmostGood(t)
    ensures Spoiled(t, DropRightmost(t))
    decreases t
  {
    hide Inorder, ShrunkRight, Spoiled, Height, RightStepGood;
    if RightmostGood(t.right) {
      DropRightmostBalanced(t.right);
      RightStepFails(t, DropRightmost(t.right));
    } else {
      DropRightmostFails(t.right);
      StaysRight(t, DropRightmost(t.right));
      SpoiledAbove(t, ShrunkRight(t, DropRightmost(t.right)));
    }
  }

  lemma SpoiledAbove<R>(t: Tree<R>, q: Tree<R>)
    requires Buried(q)
    ensures Spoiled(t, q) && !Balanced(q)
  {
  }

  lemma {:induction false} DropLeftmostFails<R>(t: Tree<R>)
    requires t.Node? && Exact(t) && Balanced(t) && !LeftmostGood(t)
    ensures Spoiled(t, DropLeftmost(t))
    decreases t
  {
    hide Inorder, ShrunkLeft, Spoiled, Height, LeftStepGood;
    if LeftmostGood(t.left) {
      DropLeftmostBalanced(t.left);
      LeftStepFails(t, DropLeftmost(t.left));
    } else {
      DropLeftmostFails(t.left);
      StaysLeft(t, DropLeftmost(t.left));
      SpoiledAbove(t, ShrunkLeft(t, DropLeftmost(t.left)));
    }
  }

  lemma DropRootFails<R>(t: Tree<R>)
    requires t.Node? && Exact(t) && Balanced(t) && !DelGood(t, t.key)
    ensures Buried(DropRoot(t))
  {
    hide Inorder, RightmostGood, LeftmostGood, DropRightmost, DropLeftmost, Level, Del;
    if t.ld >= t.rd { DropRightmostFails(t.left); } else { DropLeftmostFails(t.right); }
  }

  lemma {:induction false} DelFails<R>(t: Tree<R>, key: int)
    requires Exact(t) && Balanced(t) && !DelGood(t, key)
    ensures Spoiled(t, Del(t, key))
    decreases t
  {
    hide Inorder, ShrunkLeft, ShrunkRight, Spoiled, Height, LeftStepGood, RightStepGood, DropRoot;
    if t.key == key {
      DropRootFails(t);
      SpoiledAbove(t, DropRoot(t));
    } else if t.key > key {
      if DelGood(t.left, key) {
        DelBalanced(t.left, key);
        LeftStepFails(t, Del(t.left, key));
      } else {
        DelFails(t.left, key);
        StaysLeft(t, Del(t.left, key));
        SpoiledAbove(t, ShrunkLeft(t, Del(t.left, key)));
      }
    } else if DelGood(t.right, key) {
      DelBalanced(t.right, key);
      RightStepFails(t, Del(t.right, key));
    } else {
      DelFails(t.right, key);
      StaysRight(t, Del(t.right, key));
      SpoiledAbove(t, ShrunkRight(t, Del(t.right, key)));
    }
  }

  // ---------- a condition that can be read off the tree ----------

  /** The right side is nowhere the lower one on the way to the rightmost node. */
  predicate LeansRight<R>(t: Tree<R>) {
    t.Node? && t.right.Node? ==> t.ld <= t.rd && LeansRight(t.right)
  }

  predicate LeansLeft<R>(t: Tree<R>) {
    t.Node? && t.left.Node? ==> t.rd <= t.ld && LeansLeft(t.left)
  }

  /** Nowhere on the way to the key, and from there to the node that takes its place, is the side taken the lower one. */
  predicate LeansTo<R>(t: Tree<R>, key: int) {
    t.Node? ==>
      if t.key == key then t.left.Node? && t.right.Node? ==> if t.ld >= t.rd then LeansRight(t.left) else LeansLeft(t.right)
      else if t.key > key then t.rd <= t.ld && LeansTo(t.left, key)
      else t.ld <= t.rd && LeansTo(t.right, key)
  }

  lemma LeftStepEasy<R>(t: Tree<R>, l: Tree<R>)
    requires t.Node? && Exact(t) && Exact(l) && Shrunk(t.left, l) && t.rd <= t.ld
    ensures LeftStepGood(t, l)
  {
    DIsHeight(l);
    hide RBlcGood, Balanced, Inorder;
  }

  lemma RightStepEasy<R>(t: Tree<R>, r: Tree<R>)
    requires t.Node? && Exact(t) && Exact(r) && Shrunk(t.right, r) && t.ld <= t.rd
    ensures RightStepGood(t, r)
  {
    DIsHeight(r);
    hide LBlcGood, Balanced, Inorder;
  }

  lemma {:induction false} RightmostEasy<R>(t: Tree<R>)
    requires t.Node? && Exact(t) && Balanced(t) && LeansRight(t)
    ensures RightmostGood(t)
    decreases t
  {
    if t.right.Node? {
      RightmostEasy(t.right);
      DropRightmostBalanced(t.right);
      hide Shrunk, RightStepGood, Inorder;
      RightStepEasy(t, DropRightmost(t.right));
    }
  }

  lemma {:induction false} LeftmostEasy<R>(t: Tree<R>)
    requires t.Node? && Exact(t) && Balanced(t) && LeansLeft(t)
    ensures LeftmostGood(t)
    decreases t
  {
    if t.left.Node? {
      LeftmostEasy(t.left);
      DropLeftmostBalanced(t.left);
      hide Shrunk, LeftStepGood, Inorder;
      LeftStepEasy(t, DropLeftmost(t.left));
    }
  }

  /** Where the tree leans to the key everywhere, as a completely filled one does, deletion keeps it balanced. */
  lemma {:induction false} LeaningIsGood<R>(t: Tree<R>, key: int)
    requires Exact(t) && Balanced(t) && LeansTo(t, key)
    ensures DelGood(t, key)
    decreases t
  {
    hide Shrunk, LeftStepGood, RightStepGood, LeansRight, LeansLeft, RightmostGood, LeftmostGood, Inorder;
    if t.Nil? {
    } else if t.key == key {
      if t.left.Node? && t.right.Node? {
        if t.ld >= t.rd { RightmostEasy(t.left); } else { LeftmostEasy(t.right); }
      }
    } else if t.key > key {
      LeaningIsGood(t.left, key);
      DelBalanced(t.left, key);
      LeftStepEasy(t, Del(t.left, key));
    } else {
      LeaningIsGood(t.right, key);
      DelBalanced(t.right, key);
      RightStepEasy(t, Del(t.right, key));
    }
  }

  /** Deletion from a balanced tree gives a balanced one if and only if every rebalancing step meets its test. */
  lemma DelBalancedExactly<R>(t: Tree<R>, key: int)
    requires Exact(t) && Balanced(t)
    ensures Balanced(Del(t, key)) <==> DelGood(t, key)
  {
    hide Del, DelGood, Inorder, Exact;
    if DelGood(t, key) { DelBalanced(t, key); } else { DelFails(t, key); }
  }
}
