/** Searching the height-balanced tree: the node of a key, or its nearest neighbour above or below. */
module TreeQuery {
  import opened TreeSpec
  import opened TreeHeap

  type Entries = seq<(TreeNode, int)>

  /** The search for the least key above `key` (unless strict, for the key itself first), `best` found on the way. */
  ghost function Above(t: Shape, key: int, strict: bool, best: TreeNode?): TreeNode? {
    if t.Nil? then best
    else if !strict && t.key == key then t.ref
    else if t.key <= key then Above(t.right, key, strict, best)
    else Above(t.left, key, strict, t.ref)
  }

  ghost function Below(t: Shape, key: int, strict: bool, best: TreeNode?): TreeNode? {
    if t.Nil? then best
    else if !strict && t.key == key then t.ref
    else if t.key >= key then Below(t.left, key, strict, best)
    else Below(t.right, key, strict, t.ref)
  }

  predicate Over(k: int, key: int, strict: bool) { if strict then k > key else k >= key }

  predicate Under(k: int, key: int, strict: bool) { if strict then k < key else k <= key }

  /** The node holds the least of the keys over `key`; if there is none, it is `other`. */
  ghost predicate LeastOver(s: Entries, r: TreeNode?, key: int, strict: bool, other: TreeNode?) {
    if forall e <- s :: !Over(e.1, key, strict) then r == other
    else exists e <- s :: e.0 == r && Over(e.1, key, strict) && forall f <- s :: Over(f.1, key, strict) ==> e.1 <= f.1
  }

  ghost predicate GreatestUnder(s: Entries, r: TreeNode?, key: int, strict: bool, other: TreeNode?) {
    if forall e <- s :: !Under(e.1, key, strict) then r == other
    else exists e <- s :: e.0 == r && Under(e.1, key, strict) && forall f <- s :: Under(f.1, key, strict) ==> f.1 <= e.1
  }

  /** The entries of an ordered node: those before its own are less, those after it greater. */
  ghost predicate Around(s: Entries, a: Entries, x: (TreeNode, int), b: Entries) {
    (forall e <- s :: e in a || e == x || e in b) && (forall e <- a :: e in s) && x in s && (forall e <- b :: e in s) &&
    (forall e <- a :: e.1 < x.1) && (forall e <- b :: x.1 < e.1)
  }

  lemma EntriesOf(t: Shape)
    requires t.Node? && Ordered(t)
    ensures Around(Inorder(t), Inorder(t.left), (t.ref, t.key), Inorder(t.right))
    ensures Ordered(t.left) && Ordered(t.right)
  {
    InorderNode(t);
    Halves(Inorder(t.left), (t.ref, t.key), Inorder(t.right));
  }

  /** The least over the key among the later entries is the least of all. */
  lemma LeastLater(s: Entries, a: Entries, x: (TreeNode, int), b: Entries, r: TreeNode?, key: int, strict: bool,
                   other: TreeNode?)
    requires Around(s, a, x, b) && !Over(x.1, key, strict) && LeastOver(b, r, key, strict, other)
    ensures LeastOver(s, r, key, strict, other)
  {
    if e :| e in b && Over(e.1, key, strict) {
      var m :| m in b && m.0 == r && Over(m.1, key, strict) && forall f <- b :: Over(f.1, key, strict) ==> m.1 <= f.1;
      assert m in s;
    }
  }

  lemma LeastEarlier(s: Entries, a: Entries, x: (TreeNode, int), b: Entries, r: TreeNode?, key: int, strict: bool,
                     other: TreeNode?)
    requires Around(s, a, x, b) && Over(x.1, key, strict) && LeastOver(a, r, key, strict, x.0)
    ensures LeastOver(s, r, key, strict, other)
  {
    if e :| e in a && Over(e.1, key, strict) {
      var m :| m in a && m.0 == r && Over(m.1, key, strict) && forall f <- a :: Over(f.1, key, strict) ==> m.1 <= f.1;
      assert m in s;
    } else {
      assert x in s;
    }
  }

  lemma GreatestEarlier(s: Entries, a: Entries, x: (TreeNode, int), b: Entries, r: TreeNode?, key: int, strict: bool,
                        other: TreeNode?)
    requires Around(s, a, x, b) && !Under(x.1, key, strict) && GreatestUnder(a, r, key, strict, other)
    ensures GreatestUnder(s, r, key, strict, other)
  {
    if e :| e in a && Under(e.1, key, strict) {
      var m :| m in a && m.0 == r && Under(m.1, key, strict) && forall f <- a :: Under(f.1, key, strict) ==> f.1 <= m.1;
      assert m in s;
    }
  }

  lemma GreatestLater(s: Entries, a: Entries, x: (TreeNode, int), b: Entries, r: TreeNode?, key: int, strict: bool,
                      other: TreeNode?)
    requires Around(s, a, x, b) && Under(x.1, key, strict) && GreatestUnder(b, r, key, strict, x.0)
    ensures GreatestUnder(s, r, key, strict, other)
  {
    if e :| e in b && Under(e.1, key, strict) {
      var m :| m in b && m.0 == r && Under(m.1, key, strict) && forall f <- b :: Under(f.1, key, strict) ==> f.1 <= m.1;
      assert m in s;
    } else {
      assert x in s;
    }
  }

  /** The entry of the key itself. */
  lemma ItsOwn(s: Entries, a: Entries, x: (TreeNode, int), b: Entries, other: TreeNode?)
    requires Around(s, a, x, b)
    ensures LeastOver(s, x.0, x.1, false, other) && GreatestUnder(s, x.0, x.1, false, other)
  {
    assert x in s;
  }

  /** The search above ends on the node with the least key over the given one. */
  lemma {:induction false} AboveIsLeast(t: Shape, key: int, strict: bool, best: TreeNode?)
    requires Ordered(t)
    ensures LeastOver(Inorder(t), Above(t, key, strict, best), key, strict, best)
    decreases t
  {
    if t.Node? {
      EntriesOf(t);
      hide Inorder, Ordered, LeastOver, GreatestUnder, Around;
      var s, a, x, b := Inorder(t), Inorder(t.left), (t.ref, t.key), Inorder(t.right);
      if !strict && t.key == key {
        ItsOwn(s, a, x, b, best);
      } else if t.key <= key {
        AboveIsLeast(t.right, key, strict, best);
        LeastLater(s, a, x, b, Above(t.right, key, strict, best), key, strict, best);
      } else {
        AboveIsLeast(t.left, key, strict, t.ref);
        LeastEarlier(s, a, x, b, Above(t.left, key, strict, t.ref), key, strict, best);
      }
    }
  }

  lemma {:induction false} BelowIsGreatest(t: Shape, key: int, strict: bool, best: TreeNode?)
    requires Ordered(t)
    ensures GreatestUnder(Inorder(t), Below(t, key, strict, best), key, strict, best)
    decreases t
  {
    if t.Node? {
      EntriesOf(t);
      hide Inorder, Ordered, LeastOver, GreatestUnder, Around;
      var s, a, x, b := Inorder(t), Inorder(t.left), (t.ref, t.key), Inorder(t.right);
      if !strict && t.key == key {
        ItsOwn(s, a, x, b, best);
      } else if t.key >= key {
        BelowIsGreatest(t.left, key, strict, best);
        GreatestEarlier(s, a, x, b, Below(t.left, key, strict, best), key, strict, best);
      } else {
        BelowIsGreatest(t.right, key, strict, t.ref);
        GreatestLater(s, a, x, b, Below(t.right, key, strict, t.ref), key, strict, best);
      }
    }
  }

  /** BB_Tree_Find: the node of the key, if the tree has one. */
  method BBTreeFind(root: TreeNode?, key: int, ghost t: Shape) returns (r: TreeNode?)
    requires root == Root(t) && Heap(t) && Ordered(t)
    ensures if r == null then forall e <- Inorder(t) :: e.1 != key else (r, key) in Inorder(t)
  {
    r := root;
    ghost var c := t;
    while r != null
      invariant r == Root(c) && Heap(c) && Ordered(c)
      invariant forall e <- Inorder(c) :: e in Inorder(t)
      invariant forall e <- Inorder(t) :: e.1 == key ==> e in Inorder(c)
      decreases c
    {
      EntriesOf(c);
      hide Inorder, Ordered;
      if r.key == key { return r; }
      if r.key <= key {
        r := r.right;
        c := c.right;
      } else {
        r := r.left;
        c := c.left;
      }
    }
  }

  /** BB_Tree_GT: the node of the least key above the given one. */
  method BBTreeGT(root: TreeNode?, key: int, ghost t: Shape) returns (r: TreeNode?)
    requires root == Root(t) && Heap(t) && Ordered(t)
    ensures LeastOver(Inorder(t), r, key, true, null)
  {
    AboveIsLeast(t, key, true, null);
    var sp := root;
    ghost var c := t;
    r := null;
    while sp != null
      invariant sp == Root(c) && Heap(c)
      invariant Above(c, key, true, r) == Above(t, key, true, null)
      decreases c
    {
      if sp.key <= key {
        sp := sp.right;
        c := c.right;
      } else {
        r := sp;
        sp := sp.left;
        c := c.left;
      }
    }
  }

  /** BB_Tree_GTEQ: the node of the key, or else of the least key above it. */
  method BBTreeGTEQ(root: TreeNode?, key: int, ghost t: Shape) returns (r: TreeNode?)
    requires root == Root(t) && Heap(t) && Ordered(t)
    ensures LeastOver(Inorder(t), r, key, false, null)
  {
    AboveIsLeast(t, key, false, null);
    var sp := root;
    ghost var c := t;
    r := null;
    while sp != null
      invariant sp == Root(c) && Heap(c)
      invariant Above(c, key, false, r) == Above(t, key, false, null)
      decreases c
    {
      if sp.key == key { return sp; }
      if sp.key < key {
        sp := sp.right;
        c := c.right;
      } else {
        r := sp;
        sp := sp.left;
        c := c.left;
      }
    }
  }

  /** BB_Tree_LT: the node of the greatest key below the given one. */
  method BBTreeLT(root: TreeNode?, key: int, ghost t: Shape) returns (r: TreeNode?)
    requires root == Root(t) && Heap(t) && Ordered(t)
    ensures GreatestUnder(Inorder(t), r, key, true, null)
  {
    BelowIsGreatest(t, key, true, null);
    var sp := root;
    ghost var c := t;
    r := null;
    while sp != null
      invariant sp == Root(c) && Heap(c)
      invariant Below(c, key, true, r) == Below(t, key, true, null)
      decreases c
    {
      if sp.key >= key {
        sp := sp.left;
        c := c.left;
      } else {
        r := sp;
        sp := sp.right;
        c := c.right;
      }
    }
  }

  /** BB_Tree_LTEQ: the node of the key, or else of the greatest key below it. */
  method BBTreeLTEQ(root: TreeNode?, key: int, ghost t: Shape) returns (r: TreeNode?)
    requires root == Root(t) && Heap(t) && Ordered(t)
    ensures GreatestUnder(Inorder(t), r, key, false, null)
  {
    BelowIsGreatest(t, key, false, null);
    var sp := root;
    ghost var c := t;
    r := null;
    while sp != null
      invariant sp == Root(c) && Heap(c)
      invariant Below(c, key, false, r) == Below(t, key, false, null)
      decreases c
    {
      if sp.key == key { return sp; }
      if sp.key > key {
        sp := sp.left;
        c := c.left;
      } else {
        r := sp;
        sp := sp.right;
        c := c.right;
      }
    }
  }
}
