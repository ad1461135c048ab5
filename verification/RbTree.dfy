module RbTree {
  import opened RbShape
  import opened RbHeap
  import opened RbMap

  method LeftRotate(root: RbNode?, x: RbNode) returns (root': RbNode?)
    requires x.right != null && x !in {x.right, x.right.left, x.parent}
    requires x.right !in {x.right.left, x.parent}
    requires x.parent != null ==> x.parent != x.right.left && (x == x.parent.left) != (x == x.parent.right)
    modifies x, x.right, x.right.left, x.parent
    ensures var y, b, p := old(x.right), old(x.right.left), old(x.parent);
            && x.left == old(x.left) && x.right == b && x.parent == y
            && y.left == x && y.right == old(y.right) && y.parent == p
            && (b != null ==> b.parent == x && b.left == old(b.left) && b.right == old(b.right))
            && (p != null ==> p.left == old(if x == p.left then x.right else p.left) &&
                              p.right == old(if x == p.right then x.right else p.right) && p.parent == old(p.parent))
            && root' == if p == null then y else root
    ensures forall n: RbNode | n in old({x, x.right, x.right.left, x.parent}) ::
              n.color == old(n.color) && n.hash == old(n.hash) && n.list == old(n.list)
  {
    root' := root;
    var y := x.right;
    x.right := y.left;
    if y.left != null {
      y.left.parent := x;
    }
    y.parent := x.parent;
    if x.parent == null {
      root' := y;
    } else if x == x.parent.left {
      x.parent.left := y;
    } else {
      x.parent.right := y;
    }
    y.left := x;
    x.parent := y;
  }

  method RotateLeftAt(root: RbNode?, x: RbNode, ghost s: set<RbNode>, ghost c: Path, ghost t: Tree)
    returns (root': RbNode?)
    requires Holds(s, root, c, t) && RootOf(t) == x && t.r.Node?
    modifies s
    ensures Holds(s, root', c, RotateLeft(t))
  {
    RotateLeftApart(t);
    ghost var a, b, d, y := t.l, t.r.l, t.r.r, t.r.k.node;
    assert Distinct(t.r) && Rep(t.r, x);
    assert Rep(a, x) && Rep(b, y) && Rep(d, y);
    assert b.Node? ==> Distinct(b) && Rep(b.l, b.k.node) && Rep(b.r, b.k.node);
    root' := LeftRotate(root, x);
    assert b.Node? ==> Rep(b.l, b.k.node) && Rep(b.r, b.k.node);
    assert Rep(a, x) && Rep(d, y);
    assert RepPath(c, y);
  }

  method RightRotate(root: RbNode?, y: RbNode) returns (root': RbNode?)
    requires y.left != null && y !in {y.left, y.left.right, y.parent}
    requires y.left !in {y.left.right, y.parent}
    requires y.parent != null ==> y.parent != y.left.right && (y == y.parent.left) != (y == y.parent.right)
    modifies y, y.left, y.left.right, y.parent
    ensures var x, b, p := old(y.left), old(y.left.right), old(y.parent);
            && y.right == old(y.right) && y.left == b && y.parent == x
            && x.right == y && x.left == old(x.left) && x.parent == p
            && (b != null ==> b.parent == y && b.left == old(b.left) && b.right == old(b.right))
            && (p != null ==> p.left == old(if y == p.left then y.left else p.left) &&
                              p.right == old(if y == p.right then y.left else p.right) && p.parent == old(p.parent))
            && root' == if p == null then x else root
    ensures forall n: RbNode | n in old({y, y.left, y.left.right, y.parent}) ::
              n.color == old(n.color) && n.hash == old(n.hash) && n.list == old(n.list)
  {
    root' := root;
    var x := y.left;
    y.left := x.right;
    if x.right != null {
      x.right.parent := y;
    }
    x.parent := y.parent;
    if y.parent == null {
      root' := x;
    } else if y == y.parent.left {
      y.parent.left := x;
    } else {
      y.parent.right := x;
    }
    x.right := y;
    y.parent := x;
  }

  method RotateRightAt(root: RbNode?, y: RbNode, ghost s: set<RbNode>, ghost c: Path, ghost t: Tree)
    returns (root': RbNode?)
    requires Holds(s, root, c, t) && RootOf(t) == y && t.l.Node?
    modifies s
    ensures Holds(s, root', c, RotateRight(t))
  {
    RotateRightApart(t);
    ghost var a, b, d, x := t.l.l, t.l.r, t.r, t.l.k.node;
    assert Distinct(t.l) && Rep(t.l, y);
    assert Rep(a, x) && Rep(b, x) && Rep(d, y);
    assert b.Node? ==> Distinct(b) && Rep(b.l, b.k.node) && Rep(b.r, b.k.node);
    root' := RightRotate(root, y);
    assert b.Node? ==> Rep(b.l, b.k.node) && Rep(b.r, b.k.node);
    assert Rep(a, x) && Rep(d, y);
    assert RepPath(c, x);
    assert Rep(Node(b, t.k, d), x);
  }

  /** `n->color = color` */
  method Paint(n: RbNode, color: Color, ghost s: set<RbNode>, ghost root: RbNode?, ghost c: Path, ghost t: Tree)
    requires Holds(s, root, c, t) && RootOf(t) == n
    modifies s
    ensures Holds(s, root, c, Node(t.l, Recolor(t.k, color), t.r))
  {
    n.color := color;
  }

  method Transplant(root: RbNode?, u: RbNode, v: RbNode?) returns (root': RbNode?)
    requires v != null ==> v != u.parent
    requires u.parent != null ==> (u == u.parent.left) != (u == u.parent.right)
    modifies u.parent, v
    ensures var p := old(u.parent);
            && (p != null ==> p.left == old(if u == p.left then v else p.left) &&
                              p.right == old(if u == p.right then v else p.right) && (p != u ==> p.parent == old(p.parent)))
            && (v != null ==> v.left == old(v.left) && v.right == old(v.right) && v.parent == p)
            && root' == if p == null then v else root
    ensures forall n: RbNode | n in old({u.parent, v}) ::
              n.color == old(n.color) && n.hash == old(n.hash) && n.list == old(n.list)
  {
    root' := root;
    if u.parent == null {
      root' := v;
    } else if u == u.parent.left {
      u.parent.left := v;
    } else {
      u.parent.right := v;
    }
    if v != null {
      v.parent := u.parent;
    }
  }

  /** A node with at most one child leaves the tree. */
  method SpliceOut(root: RbNode?, z: RbNode, v: RbNode?, ghost s: set<RbNode>, ghost c: Path, ghost t: Tree, ghost u: Tree)
    returns (root': RbNode?)
    requires Holds(s, root, c, t) && RootOf(t) == z && v == RootOf(u)
    requires (t.l.Leaf? && u == t.r) || (t.r.Leaf? && u == t.l)
    modifies s
    ensures Holds(s - {z}, root', c, u)
    ensures z.color == old(z.color) && z.hash == old(z.hash) && z.list == old(z.list)
  {
    assert Distinct(u) && Rep(u, z);
    assert u.Node? ==> Rep(u.l, v) && Rep(u.r, v);
    root' := Transplant(root, z, v);
    assert u.Node? ==> Rep(u.l, v) && Rep(u.r, v);
    assert RepPath(c, v);
  }

  // ----- insertion -----

  /** The new node is linked into the empty place the descent ended in. */
  method Attach(root: RbNode?, z: RbNode, y: RbNode?, ghost s: set<RbNode>, ghost c: Path, ghost k: Cell)
    returns (root': RbNode?)
    requires Holds(s, root, c, Leaf) && y == Holder(c) && z !in s
    requires Stored(k, null, null, null) && k.node == z
    requires !c.Top? ==> (c.InL? <==> z.hash < c.k.hash)
    modifies s, z
    ensures Holds(s + {z}, root', c, Node(Leaf, k, Leaf))
  {
    z.parent := y;
    if y == null {
      root' := z;
    } else if z.hash < y.hash {
      y.left := z;
      root' := root;
    } else {
      y.right := z;
      root' := root;
    }
    assert RepPath(c, z);
  }

  /** Case 1 of the insert fixup: a red uncle. */
  method PushRedUp(p: RbNode, y: RbNode, ghost s: set<RbNode>, ghost root: RbNode?, ghost c: Path, ghost t: Tree)
    requires Holds(s, root, c, t) && RedUnderRed(c) && t.Node?
    requires p == Holder(c) && Sibling(c.up).Node? && y == RootOf(Sibling(c.up))
    modifies s
    ensures Holds(s, root, c.up.up, InsertRecolored(c, t))
  {
    ghost var u := Sibling(c.up);
    Zip(s, root, c, t);
    Paint(p, Black, s, root, c.up, Grow(c, t));
    ghost var q := Blacken(Grow(c, t));
    ZipAcross(s, root, c.up, q);
    Paint(y, Black, s, root, Across(c.up, q), u);
    Zip(s, root, Across(c.up, q), Blacken(u));
    ghost var g := Grow(Across(c.up, q), Blacken(u));
    assert p.parent == g.k.node by {
      assert Rep(g, Holder(c.up.up));
      assert Rep(q, g.k.node);
    }
    Paint(p.parent, Red, s, root, c.up.up, g);
  }

  /** Cases 2 and 3 with the parent a left child: up to two rotations, after
      which `z'` sits below a black parent. */
  method LiftFromLeft(root: RbNode?, z: RbNode, ghost s: set<RbNode>, ghost c: Path, ghost t: Tree)
    returns (root': RbNode?, z': RbNode, ghost c': Path, ghost t': Tree)
    requires Holds(s, root, c, t) && RedUnderRed(c) && RootOf(t) == z
    requires c.up.InL?
    modifies s
    ensures Holds(s, root', c', t') && RootOf(t') == z' && HolderBlack(c')
    ensures Plug(c', t') == Plug(c.up.up, InsertRotated(c, t))
  {
    root', z' := root, z;
    ghost var g := c.up;
    ghost var p := Grow(c, t);
    Zip(s, root, c, t);
    assert c.InR? ==> RootOf(c.l) != z;
    if z == z.parent.right {
      z' := z.parent;
      root' := RotateLeftAt(root', z', s, g, p);
      p := RotateLeft(p);
    }
    Zip(s, root', InL(g, p.k, p.r), p.l);
    Paint(z'.parent, Black, s, root', g, p);
    ghost var q := Blacken(p);
    Zip(s, root', g, q);
    assert z'.parent.parent == g.k.node by {
      assert Rep(q, g.k.node);
      assert Rep(q.l, q.k.node);
    }
    Paint(z'.parent.parent, Red, s, root', g.up, Node(q, g.k, g.r));
    ghost var w := Node(q, Recolor(g.k, Red), g.r);
    assert z'.parent.parent == g.k.node by {
      assert Rep(w, Holder(g.up));
      assert Rep(q, g.k.node);
      assert Rep(q.l, q.k.node);
    }
    root' := RotateRightAt(root', z'.parent.parent, s, g.up, w);
    c', t' := InL(g.up, q.k, Node(q.r, w.k, g.r)), q.l;
    Zip(s, root', c', t');
  }

  method LiftFromRight(root: RbNode?, z: RbNode, ghost s: set<RbNode>, ghost c: Path, ghost t: Tree)
    returns (root': RbNode?, z': RbNode, ghost c': Path, ghost t': Tree)
    requires Holds(s, root, c, t) && RedUnderRed(c) && RootOf(t) == z
    requires c.up.InR?
    modifies s
    ensures Holds(s, root', c', t') && RootOf(t') == z' && HolderBlack(c')
    ensures Plug(c', t') == Plug(c.up.up, InsertRotated(c, t))
  {
    root', z' := root, z;
    ghost var g := c.up;
    ghost var p := Grow(c, t);
    Zip(s, root, c, t);
    assert c.InL? ==> RootOf(c.r) != z;
    if z == z.parent.left {
      z' := z.parent;
      root' := RotateRightAt(root', z', s, g, p);
      p := RotateRight(p);
    }
    Zip(s, root', InR(p.l, p.k, g), p.r);
    Paint(z'.parent, Black, s, root', g, p);
    ghost var q := Blacken(p);
    Zip(s, root', g, q);
    assert z'.parent.parent == g.k.node by {
      assert Rep(q, g.k.node);
      assert Rep(q.r, q.k.node);
    }
    Paint(z'.parent.parent, Red, s, root', g.up, Node(g.l, g.k, q));
    ghost var w := Node(g.l, Recolor(g.k, Red), q);
    assert z'.parent.parent == g.k.node by {
      assert Rep(w, Holder(g.up));
      assert Rep(q, g.k.node);
      assert Rep(q.r, q.k.node);
    }
    root' := RotateLeftAt(root', z'.parent.parent, s, g.up, w);
    c', t' := InR(Node(g.l, w.k, q.l), q.k, g.up), q.r;
    Zip(s, root', c', t');
  }

  /** One pass of the insert fixup's loop. */
  method InsertPass(root: RbNode?, z: RbNode, ghost s: set<RbNode>, ghost c: Path, ghost t: Tree)
    returns (root': RbNode?, z': RbNode, ghost c': Path, ghost t': Tree)
    requires Holds(s, root, c, t) && RootOf(t) == z && IsRed(t) && RbOk(t) && PathOk(c, BlackHeight(t))
    requires !c.Top? && c.k.color.Red?
    modifies s
    ensures Holds(s, root', c', t') && RootOf(t') == z'
    ensures FixInsert(c', t') == FixInsert(c, t)
    ensures HolderBlack(c') || (Depth(c') < Depth(c) && IsRed(t') && RbOk(t') && PathOk(c', BlackHeight(t')))
  {
    root', z' := root, z;
    ghost var g := c.up;
    ghost var u := Sibling(g);
    assert RedUnderRed(c) && PathOk(g, BlackHeight(t));
    assert z.parent == c.k.node && z.parent.parent == g.k.node;
    assert RepPath(g, c.k.node);
    assert Rep(u, g.k.node);
    if z.parent == z.parent.parent.left {
      assert g.InL?;
      var y := z.parent.parent.right;
      if y != null && y.color == Red {
        PushRedUp(z.parent, y, s, root, c, t);
        InsertRecoloredOk(c, t);
        c', t' := g.up, InsertRecolored(c, t);
        z' := GrandparentAfter(z, s, root, c, t);
      } else {
        root', z', c', t' := LiftFromLeft(root, z, s, c, t);
      }
    } else {
      assert g.InR?;
      var y := z.parent.parent.left;
      if y != null && y.color == Red {
        PushRedUp(z.parent, y, s, root, c, t);
        InsertRecoloredOk(c, t);
        c', t' := g.up, InsertRecolored(c, t);
        z' := GrandparentAfter(z, s, root, c, t);
      } else {
        root', z', c', t' := LiftFromRight(root, z, s, c, t);
      }
    }
  }

  /** `z->parent->parent` after case 1. */
  method GrandparentAfter(z: RbNode, ghost s: set<RbNode>, ghost root: RbNode?, ghost c: Path, ghost t: Tree)
    returns (g: RbNode)
    requires RedUnderRed(c) && RootOf(t) == z && Holds(s, root, c.up.up, InsertRecolored(c, t))
    ensures g == c.up.k.node
  {
    ghost var w := InsertRecolored(c, t);
    ghost var q := if c.up.InL? then w.l else w.r;
    assert Rep(w, Holder(c.up.up)) && Rep(q, w.k.node);
    assert Rep(if c.InL? then q.l else q.r, q.k.node);
    g := z.parent.parent;
  }

  /** `root->color = RBT_BLACK` */
  method BlackenRoot(root: RbNode?, ghost s: set<RbNode>, ghost c: Path, ghost t: Tree)
    requires Holds(s, root, c, t) && (t.Node? || !c.Top?)
    modifies s
    ensures Holds(s, root, Top, Blacken(Plug(c, t)))
  {
    OriginHolds(c, RootOf(t));
    ZipAll(s, root, c, t);
    Paint(root, Black, s, root, Top, Plug(c, t));
  }

  method InsertFixup(root: RbNode?, z: RbNode, ghost s: set<RbNode>, ghost c: Path, ghost t: Tree)
    returns (root': RbNode?)
    requires Holds(s, root, c, t) && RootOf(t) == z && IsRed(t) && RbOk(t) && PathOk(c, BlackHeight(t))
    modifies s
    ensures Holds(s, root', Top, FixInsert(c, t))
  {
    root' := root;
    var z' := z;
    ghost var c', t' := c, t;
    OriginHolds(c', z');
    while z' != root' && z'.parent.color == Red
      invariant Holds(s, root', c', t') && RootOf(t') == z'
      invariant t'.Node? && (z' == root' <==> c'.Top?) && z'.parent == Holder(c')
      invariant !c'.Top? ==> c'.k.node.color == c'.k.color
      invariant !c'.Top? && c'.k.color.Red? ==> IsRed(t') && RbOk(t') && PathOk(c', BlackHeight(t'))
      invariant FixInsert(c', t') == FixInsert(c, t)
      decreases if c'.Top? || c'.k.color.Black? then 0 else 1 + Depth(c')
    {
      root', z', c', t' := InsertPass(root', z', s, c', t');
      OriginHolds(c', z');
    }
    BlackenRoot(root', s, c', t');
  }

  // ----- deletion -----

  /** Case 1 with the hole on the left: the sibling is red. */
  method StraightenLeft(root: RbNode?, xp: RbNode, w: RbNode, ghost s: set<RbNode>, ghost c: Path, ghost t: Tree)
    returns (root': RbNode?)
    requires Holds(s, root, c, t) && c.InL? && xp == c.k.node
    requires IsRed(c.r) && c.r.l.Node? && w == RootOf(c.r)
    modifies s
    ensures Holds(s, root', Straightened(c), t)
  {
    ghost var v := Blacken(c.r);
    ZipAcross(s, root, c, t);
    Paint(w, Black, s, root, Across(c, t), c.r);
    Zip(s, root, Across(c, t), v);
    ghost var g := Grow(Across(c, t), v);
    Paint(xp, Red, s, root, c.up, g);
    root' := RotateLeftAt(root, xp, s, c.up, Redden(g));
    ghost var d := Straightened(c);
    Zip(s, root', d.up, Grow(d, t));
    Zip(s, root', d, t);
  }

  /** Case 1 with the hole on the right: the sibling is red. */
  method StraightenRight(root: RbNode?, xp: RbNode, w: RbNode, ghost s: set<RbNode>, ghost c: Path, ghost t: Tree)
    returns (root': RbNode?)
    requires Holds(s, root, c, t) && c.InR? && xp == c.k.node
    requires IsRed(c.l) && c.l.r.Node? && w == RootOf(c.l)
    modifies s
    ensures Holds(s, root', Straightened(c), t)
  {
    ghost var v := Blacken(c.l);
    ZipAcross(s, root, c, t);
    Paint(w, Black, s, root, Across(c, t), c.l);
    Zip(s, root, Across(c, t), v);
    ghost var g := Grow(Across(c, t), v);
    Paint(xp, Red, s, root, c.up, g);
    root' := RotateRightAt(root, xp, s, c.up, Redden(g));
    ghost var d := Straightened(c);
    Zip(s, root', d.up, Grow(d, t));
    Zip(s, root', d, t);
  }

  /** Case 3 with the hole on the left: the far nephew is black, the near one red. */
  method TurnNephewLeft(root: RbNode?, xp: RbNode, w: RbNode, ghost s: set<RbNode>, ghost c: Path, ghost t: Tree)
    returns (root': RbNode?, w': RbNode?, ghost c': Path)
    requires Holds(s, root, c, t) && c.InL? && xp == c.k.node
    requires c.r.Node? && w == RootOf(c.r) && IsRed(c.r.l)
    modifies s
    ensures c' == InL(c.up, c.k, RotateRight(Redden(Node(Blacken(c.r.l), c.r.k, c.r.r))))
    ensures Holds(s, root', c', t) && w' == RootOf(c'.r)
  {
    ghost var v := c.r;
    ghost var d := Across(c, t);
    ZipAcross(s, root, c, t);
    Zip(s, root, InL(d, v.k, v.r), v.l);
    if w.left != null {
      Paint(w.left, Black, s, root, InL(d, v.k, v.r), v.l);
    }
    Zip(s, root, InL(d, v.k, v.r), Blacken(v.l));
    ghost var u := Node(Blacken(v.l), v.k, v.r);
    Paint(w, Red, s, root, d, u);
    root' := RotateRightAt(root, w, s, d, Redden(u));
    c' := InL(c.up, c.k, RotateRight(Redden(u)));
    ZipAcross(s, root', c', t);
    w' := xp.right;
  }

  /** Case 4 with the hole on the left: the far nephew is red. */
  method FinishLeft(root: RbNode?, xp: RbNode, w: RbNode, ghost s: set<RbNode>, ghost c: Path, ghost t: Tree)
    returns (root': RbNode?)
    requires Holds(s, root, c, t) && c.InL? && xp == c.k.node
    requires c.r.Node? && w == RootOf(c.r)
    modifies s
    ensures Holds(s, root', c.up, Node(Node(t, Recolor(c.k, Black), c.r.l), Recolor(c.r.k, c.k.color), Blacken(c.r.r)))
  {
    ghost var v := c.r;
    ghost var k := c.k;
    ZipAcross(s, root, c, t);
    Paint(w, xp.color, s, root, Across(c, t), v);
    ghost var v1 := Node(v.l, Recolor(v.k, k.color), v.r);
    Zip(s, root, Across(c, t), v1);
    Paint(xp, Black, s, root, c.up, Node(t, k, v1));
    ghost var d := InR(t, Recolor(k, Black), c.up);
    ghost var e := InR(v.l, v1.k, d);
    Zip(s, root, d, v1);
    Zip(s, root, e, v.r);
    if w.right != null {
      Paint(w.right, Black, s, root, e, v.r);
    }
    Zip(s, root, e, Blacken(v.r));
    Zip(s, root, d, Node(v.l, v1.k, Blacken(v.r)));
    root' := RotateLeftAt(root, xp, s, c.up, Node(t, Recolor(k, Black), Node(v.l, v1.k, Blacken(v.r))));
  }

  /** Case 3 with the hole on the right: the far nephew is black, the near one red. */
  method TurnNephewRight(root: RbNode?, xp: RbNode, w: RbNode, ghost s: set<RbNode>, ghost c: Path, ghost t: Tree)
    returns (root': RbNode?, w': RbNode?, ghost c': Path)
    requires Holds(s, root, c, t) && c.InR? && xp == c.k.node
    requires c.l.Node? && w == RootOf(c.l) && IsRed(c.l.r)
    modifies s
    ensures c' == InR(RotateLeft(Redden(Node(c.l.l, c.l.k, Blacken(c.l.r)))), c.k, c.up)
    ensures Holds(s, root', c', t) && w' == RootOf(c'.l)
  {
    ghost var v := c.l;
    ghost var d := Across(c, t);
    ZipAcross(s, root, c, t);
    Zip(s, root, InR(v.l, v.k, d), v.r);
    if w.right != null {
      Paint(w.right, Black, s, root, InR(v.l, v.k, d), v.r);
    }
    Zip(s, root, InR(v.l, v.k, d), Blacken(v.r));
    ghost var u := Node(v.l, v.k, Blacken(v.r));
    Paint(w, Red, s, root, d, u);
    root' := RotateLeftAt(root, w, s, d, Redden(u));
    c' := InR(RotateLeft(Redden(u)), c.k, c.up);
    ZipAcross(s, root', c', t);
    w' := xp.left;
  }

  /** Case 4 with the hole on the right: the far nephew is red. */
  method FinishRight(root: RbNode?, xp: RbNode, w: RbNode, ghost s: set<RbNode>, ghost c: Path, ghost t: Tree)
    returns (root': RbNode?)
    requires Holds(s, root, c, t) && c.InR? && xp == c.k.node
    requires c.l.Node? && w == RootOf(c.l)
    modifies s
    ensures Holds(s, root', c.up, Node(Blacken(c.l.l), Recolor(c.l.k, c.k.color), Node(c.l.r, Recolor(c.k, Black), t)))
  {
    ghost var v := c.l;
    ghost var k := c.k;
    ZipAcross(s, root, c, t);
    Paint(w, xp.color, s, root, Across(c, t), v);
    ghost var v1 := Node(v.l, Recolor(v.k, k.color), v.r);
    Zip(s, root, Across(c, t), v1);
    Paint(xp, Black, s, root, c.up, Node(v1, k, t));
    ghost var d := InL(c.up, Recolor(k, Black), t);
    ghost var e := InL(d, v1.k, v.r);
    Zip(s, root, d, v1);
    Zip(s, root, e, v.l);
    if w.left != null {
      Paint(w.left, Black, s, root, e, v.l);
    }
    Zip(s, root, e, Blacken(v.l));
    Zip(s, root, d, Node(Blacken(v.l), v1.k, v.r));
    root' := RotateRightAt(root, xp, s, c.up, Node(Node(Blacken(v.l), v1.k, v.r), Recolor(k, Black), t));
  }

  method NephewsBlack(w: RbNode, ghost s: set<RbNode>, ghost root: RbNode?, ghost c: Path, ghost t: Tree) returns (b: bool)
    requires Holds(s, root, c, t) && !c.Top? && w == RootOf(Sibling(c))
    ensures b == (!IsRed(Sibling(c).l) && !IsRed(Sibling(c).r))
  {
    ghost var v := Sibling(c);
    assert Rep(v, c.k.node) && Rep(v.l, w) && Rep(v.r, w);
    b := (w.left == null || w.left.color == Black) && (w.right == null || w.right.color == Black);
  }

  /** Case 2: the sibling turns red and the hole moves up. */
  method RecolorSibling(xp: RbNode, w: RbNode, ghost s: set<RbNode>, ghost root: RbNode?, ghost c: Path, ghost t: Tree)
    returns (x': RbNode, xp': RbNode?, ghost c': Path, ghost t': Tree)
    requires Holds(s, root, c, t) && !c.Top? && xp == Holder(c) && w == RootOf(Sibling(c))
    modifies s
    ensures c' == c.up && t' == (if c.InL? then Node(t, c.k, Redden(c.r)) else Node(Redden(c.l), c.k, t))
    ensures Holds(s, root, c', t') && x' == xp && xp' == Holder(c')
  {
    ZipAcross(s, root, c, t);
    Paint(w, Red, s, root, Across(c, t), Sibling(c));
    Zip(s, root, Across(c, t), Redden(Sibling(c)));
    c', t' := c.up, Grow(Across(c, t), Redden(Sibling(c)));
    x' := xp;
    xp' := xp.parent;
  }

  /** The sibling of a hole on the left, after case 1 if that sibling was red. */
  method BlackSiblingLeft(root: RbNode?, xp: RbNode, ghost s: set<RbNode>, ghost c: Path, ghost t: Tree, ghost h: nat)
    returns (root': RbNode?, w: RbNode, ghost c': Path)
    requires Holds(s, root, c, t) && c.InL? && xp == c.k.node && PathOk(c, h + 1)
    modifies s
    ensures c' == (if IsRed(c.r) then Straightened(c) else c) && c'.InL? && !IsRed(c'.r)
    ensures c'.r.Node? && w == RootOf(c'.r) && c'.k.node == xp
    ensures Holds(s, root', c', t)
  {
    root' := root;
    c' := c;
    assert RbOk(c.r) && c.r.Node? && Rep(c.r, xp);
    w := xp.right;
    if w.color == Red {
      StraightenedOk(c, h);
      root' := StraightenLeft(root', xp, w, s, c, t);
      c' := Straightened(c);
      assert Rep(c'.r, xp);
      w := xp.right;
    }
  }

  /** Cases 3 and 4 with the hole on the left. */
  method RotateAwayLeft(root: RbNode?, xp: RbNode, w: RbNode, ghost s: set<RbNode>, ghost c: Path, ghost t: Tree)
    returns (root': RbNode?, ghost t': Tree)
    requires Holds(s, root, c, t) && c.InL? && xp == c.k.node
    requires c.r.Node? && w == RootOf(c.r) && (IsRed(c.r.l) || IsRed(c.r.r))
    modifies s
    ensures Repaired(c, t).Finished? && t' == Plug(Repaired(c, t).c, Repaired(c, t).t)
    ensures Holds(s, root', Top, t')
  {
    root' := root;
    ghost var c' := c;
    var w' := w;
    assert Rep(c.r, xp) && Rep(c.r.r, w);
    if w.right == null || w.right.color == Black {
      root', w', c' := TurnNephewLeft(root', xp, w, s, c, t);
    }
    root' := FinishLeft(root', xp, w', s, c', t);
    ZipAll(s, root', c.up, Repaired(c, t).t);
    t' := Plug(c.up, Repaired(c, t).t);
  }

  /** The loop body of the delete fixup with the hole on the left; the subtree in the hole is never looked at. */
  method DeletePassLeft(root: RbNode?, xp: RbNode, ghost s: set<RbNode>, ghost c: Path, ghost t: Tree, ghost h: nat)
    returns (root': RbNode?, x': RbNode?, xp': RbNode?, ghost c': Path, ghost t': Tree)
    requires Holds(s, root, c, t) && c.InL? && xp == c.k.node && PathOk(c, h + 1)
    modifies s
    ensures Holds(s, root', c', t') && x' == RootOf(t') && (!c'.Top? ==> xp' == Holder(c'))
    ensures var p := DeletePass(c, t);
            if p.Again? then c' == p.c && t' == p.t else c' == Top && t' == Plug(p.c, p.t)
  {
    var w: RbNode;
    root', w, c' := BlackSiblingLeft(root, xp, s, c, t, h);
    var b := NephewsBlack(w, s, root', c', t);
    if b {
      x', xp', c', t' := RecolorSibling(xp, w, s, root', c', t);
    } else {
      root', t' := RotateAwayLeft(root', xp, w, s, c', t);
      c' := Top;
      x', xp' := root', xp;
    }
  }

  /** The sibling of a hole on the right, after case 1 if that sibling was red. */
  method BlackSiblingRight(root: RbNode?, xp: RbNode, ghost s: set<RbNode>, ghost c: Path, ghost t: Tree, ghost h: nat)
    returns (root': RbNode?, w: RbNode, ghost c': Path)
    requires Holds(s, root, c, t) && c.InR? && xp == c.k.node && PathOk(c, h + 1)
    modifies s
    ensures c' == (if IsRed(c.l) then Straightened(c) else c) && c'.InR? && !IsRed(c'.l)
    ensures c'.l.Node? && w == RootOf(c'.l) && c'.k.node == xp
    ensures Holds(s, root', c', t)
  {
    root' := root;
    c' := c;
    assert RbOk(c.l) && c.l.Node? && Rep(c.l, xp);
    w := xp.left;
    if w.color == Red {
      StraightenedOk(c, h);
      root' := StraightenRight(root', xp, w, s, c, t);
      c' := Straightened(c);
      assert Rep(c'.l, xp);
      w := xp.left;
    }
  }

  /** Cases 3 and 4 with the hole on the right. */
  method RotateAwayRight(root: RbNode?, xp: RbNode, w: RbNode, ghost s: set<RbNode>, ghost c: Path, ghost t: Tree)
    returns (root': RbNode?, ghost t': Tree)
    requires Holds(s, root, c, t) && c.InR? && xp == c.k.node
    requires c.l.Node? && w == RootOf(c.l) && (IsRed(c.l.l) || IsRed(c.l.r))
    modifies s
    ensures Repaired(c, t).Finished? && t' == Plug(Repaired(c, t).c, Repaired(c, t).t)
    ensures Holds(s, root', Top, t')
  {
    root' := root;
    ghost var c' := c;
    var w' := w;
    assert Rep(c.l, xp) && Rep(c.l.l, w);
    if w.left == null || w.left.color == Black {
      root', w', c' := TurnNephewRight(root', xp, w, s, c, t);
    }
    root' := FinishRight(root', xp, w', s, c', t);
    ZipAll(s, root', c.up, Repaired(c, t).t);
    t' := Plug(c.up, Repaired(c, t).t);
  }

  /** The loop body of the delete fixup with the hole on the right; the subtree in the hole is never looked at. */
  method DeletePassRight(root: RbNode?, xp: RbNode, ghost s: set<RbNode>, ghost c: Path, ghost t: Tree, ghost h: nat)
    returns (root': RbNode?, x': RbNode?, xp': RbNode?, ghost c': Path, ghost t': Tree)
    requires Holds(s, root, c, t) && c.InR? && xp == c.k.node && PathOk(c, h + 1)
    modifies s
    ensures Holds(s, root', c', t') && x' == RootOf(t') && (!c'.Top? ==> xp' == Holder(c'))
    ensures var p := DeletePass(c, t);
            if p.Again? then c' == p.c && t' == p.t else c' == Top && t' == Plug(p.c, p.t)
  {
    var w: RbNode;
    root', w, c' := BlackSiblingRight(root, xp, s, c, t, h);
    var b := NephewsBlack(w, s, root', c', t);
    if b {
      x', xp', c', t' := RecolorSibling(xp, w, s, root', c', t);
    } else {
      root', t' := RotateAwayRight(root', xp, w, s, c', t);
      c' := Top;
      x', xp' := root', xp;
    }
  }

  /** One pass of the delete fixup's loop. */
  method DeletePassAt(root: RbNode?, x: RbNode?, xp: RbNode, ghost s: set<RbNode>, ghost c: Path, ghost t: Tree, ghost h: nat)
    returns (root': RbNode?, x': RbNode?, xp': RbNode?, ghost c': Path, ghost t': Tree, ghost h': nat)
    requires Holds(s, root, c, t) && !c.Top? && xp == Holder(c) && PathOk(c, h + 1)
    requires x == RootOf(t) || (x == null && c.InR?)
    modifies s
    ensures Holds(s, root', c', t') && x' == RootOf(t')
    ensures !c'.Top? ==> xp' == Holder(c') && PathOk(c', h' + 1)
    ensures FixDelete(c', t') == RunPass(c, t)
    ensures x' == root' <==> c'.Top?
    ensures t'.Node? ==> t'.k.node.color == t'.k.color
    ensures Depth(c') < Depth(c) || (Depth(c') == Depth(c) && IsRed(t'))
  {
    assert c.InR? ==> c.l.Node?;
    assert c.InL? <==> x == xp.left;
    DeletePassGoal(c, t);
    h' := PassHeight(c, t, h);
    if x == xp.left {
      root', x', xp', c', t' := DeletePassLeft(root, xp, s, c, t, h);
    } else {
      root', x', xp', c', t' := DeletePassRight(root, xp, s, c, t, h);
    }
    GuardFacts(s, root', c', t');
  }

  /** `x` is the root of the subtree in the hole, or NULL below a right link:
      the second form is how the deletion enters the loop when it names the
      wrong parent. */
  method DeleteFixup(root: RbNode?, x: RbNode?, xp: RbNode?, ghost s: set<RbNode>, ghost c: Path, ghost t: Tree, ghost h: nat)
    returns (root': RbNode?)
    requires Holds(s, root, c, t) && PathOk(c, h + 1)
    requires x == RootOf(t) || (x == null && c.InR?)
    requires x == null || !IsRed(t) ==> xp == Holder(c)
    modifies s
    ensures Holds(s, root', Top, if x == RootOf(t) then FixDelete(c, t) else RunPass(c, t))
  {
    ghost var goal := if x == RootOf(t) then FixDelete(c, t) else RunPass(c, t);
    root' := root;
    var x', xp' := x, xp;
    ghost var c', t', h' := c, t, h;
    GuardFacts(s, root, c, t);
    while x' != root' && (x' == null || x'.color == Black)
      invariant Holds(s, root', c', t') && (!c'.Top? ==> PathOk(c', h' + 1))
      invariant !c'.Top? && (x' == null || !IsRed(t')) ==> xp' == Holder(c')
      invariant x' == RootOf(t') || (x' == null && c'.InR?)
      invariant x' == root' <==> c'.Top?
      invariant t'.Node? ==> t'.k.node.color == t'.k.color
      invariant goal == if x' == RootOf(t') then FixDelete(c', t') else RunPass(c', t')
      decreases Depth(c'), if x' == null || x'.color == Black then 1 else 0
    {
      root', x', xp', c', t', h' := DeletePassAt(root', x', xp', s, c', t', h');
    }
    BlackenFocus(x', s, root', c', t');
  }

  /** `if (x != NULL) x->color = RBT_BLACK` */
  method BlackenFocus(x: RbNode?, ghost s: set<RbNode>, ghost root: RbNode?, ghost c: Path, ghost t: Tree)
    requires Holds(s, root, c, t) && x == RootOf(t)
    modifies s
    ensures Holds(s, root, Top, Plug(c, Blacken(t)))
  {
    if x != null {
      Paint(x, Black, s, root, c, t);
    }
    ZipAll(s, root, c, Blacken(t));
  }

  /** `y` takes over the place, the left child and the colour of `z`. */
  method TakePlace(root: RbNode?, z: RbNode, y: RbNode) returns (root': RbNode?)
    requires z.left != null && z !in {y, z.left, z.parent} && y !in {z.left, z.parent} && z.left != z.parent
    requires z.parent != null ==> (z == z.parent.left) != (z == z.parent.right)
    modifies z.parent, y, z.left
    ensures var p, l := old(z.parent), old(z.left);
            && (p != null ==> p.left == old(if z == p.left then y else p.left) &&
                              p.right == old(if z == p.right then y else p.right) && p.parent == old(p.parent))
            && y.left == l && y.right == old(y.right) && y.parent == p && y.color == z.color
            && l.parent == y && l.left == old(l.left) && l.right == old(l.right) && l.color == old(l.color)
            && root' == if p == null then y else root
    ensures y.hash == old(y.hash) && y.list == old(y.list)
    ensures forall n: RbNode | n in old({z.parent, z.left}) ::
              n.color == old(n.color) && n.hash == old(n.hash) && n.list == old(n.list)
  {
    root' := Transplant(root, z, y);
    y.left := z.left;
    y.left.parent := y;
    y.color := z.color;
  }

  /** `if (x != NULL) x->parent = y`, where that is its parent already. */
  method KeepParent(x: RbNode?, y: RbNode, ghost s: set<RbNode>, ghost root: RbNode?, ghost c: Path, ghost t: Tree)
    requires Holds(s, root, c, t) && x == RootOf(t) && y == Holder(c)
    modifies s
    ensures Holds(s, root, c, t)
  {
    if x != null {
      x.parent := y;
    }
  }

  /** The successor `y` is the right child of `z`. */
  method PromoteChild(root: RbNode?, z: RbNode, y: RbNode, ghost s: set<RbNode>, ghost c: Path, ghost t: Tree)
    returns (root': RbNode?)
    requires Holds(s, root, c, t) && RootOf(t) == z && t.l.Node? && t.r.Node? && RootOf(t.r) == y && t.r.l.Leaf?
    modifies s
    ensures Holds(s - {z}, root', c, Node(t.l, Recolor(t.r.k, t.k.color), t.r.r))
  {
    ghost var l, r := t.l, t.r.r;
    assert Rep(l, z) && Distinct(l) && Rep(l.l, l.k.node) && Rep(l.r, l.k.node);
    assert Rep(t.r, z) && Distinct(t.r) && Rep(r, y);
    root' := TakePlace(root, z, y);
    assert Rep(l.l, l.k.node) && Rep(l.r, l.k.node);
    assert Rep(l, y) && Rep(r, y);
    assert RepPath(c, y);
  }

  /** `y` takes over the right child of `z` as well. */
  method TakeBoth(root: RbNode?, z: RbNode, y: RbNode) returns (root': RbNode?)
    requires z.left != null && z.right != null && z.left != z.right
    requires z !in {y, z.left, z.right, z.parent} && y !in {z.left, z.right, z.parent} && z.parent !in {z.left, z.right}
    requires z.parent != null ==> (z == z.parent.left) != (z == z.parent.right)
    modifies z.parent, y, z.left, z.right
    ensures var p, l, r := old(z.parent), old(z.left), old(z.right);
            && (p != null ==> p.left == old(if z == p.left then y else p.left) &&
                              p.right == old(if z == p.right then y else p.right) && p.parent == old(p.parent))
            && y.left == l && y.right == r && y.parent == p && y.color == z.color
            && l.parent == y && l.left == old(l.left) && l.right == old(l.right) && l.color == old(l.color)
            && r.parent == y && r.left == old(r.left) && r.right == old(r.right) && r.color == old(r.color)
            && root' == if p == null then y else root
    ensures y.hash == old(y.hash) && y.list == old(y.list)
    ensures forall n: RbNode | n in old({z.parent, z.left, z.right}) ::
              n.color == old(n.color) && n.hash == old(n.hash) && n.list == old(n.list)
  {
    y.right := z.right;
    if y.right != null {
      y.right.parent := y;
    }
    root' := TakePlace(root, z, y);
  }

  /** The successor `y` has left its old place and takes over both children of `z`. */
  method Promote(root: RbNode?, z: RbNode, y: RbNode, ghost s: set<RbNode>, ghost c: Path, ghost t: Tree, ghost k: Cell)
    returns (root': RbNode?)
    requires Holds(s, root, c, t) && RootOf(t) == z && t.l.Node? && t.r.Node?
    requires y !in s && k.node == y && y.hash == k.hash && y.list == k.list
    modifies s, y
    ensures Holds(s - {z} + {y}, root', c, Node(t.l, Recolor(k, t.k.color), t.r))
  {
    ghost var l, r := t.l, t.r;
    assert Rep(l, z) && Distinct(l) && Rep(l.l, l.k.node) && Rep(l.r, l.k.node);
    assert Rep(r, z) && Distinct(r) && Rep(r.l, r.k.node) && Rep(r.r, r.k.node);
    root' := TakeBoth(root, z, y);
    assert Rep(l.l, l.k.node) && Rep(l.r, l.k.node);
    assert Rep(r.l, r.k.node) && Rep(r.r, r.k.node);
    assert Rep(l, y) && Rep(r, y);
    assert RepPath(c, y);
  }

  /** `rbtree_sp_min` */
  method Minimum(n: RbNode, ghost s: set<RbNode>, ghost root: RbNode?, ghost c: Path, ghost t: Tree) returns (y: RbNode)
    requires Holds(s, root, c, t) && RootOf(t) == n
    ensures y == Leftmost(c, t).1.k.node
  {
    y := n;
    ghost var c', t' := c, t;
    while y.left != null
      invariant Holds(s, root, c', t') && RootOf(t') == y
      invariant Leftmost(c', t') == Leftmost(c, t)
      decreases t'
    {
      Zip(s, root, InL(c', t'.k, t'.r), t'.l);
      y := y.left;
      c', t' := InL(c', t'.k, t'.r), t'.l;
    }
  }

  /** The branches of the deletion that unlink `z`. `xp` is the parent of the hole;
      `xw` is what the source passes on instead, the successor itself. */
  method UnlinkNode(root: RbNode?, z: RbNode, ghost s: set<RbNode>, ghost c: Path, ghost t: Tree)
    returns (root': RbNode?, x: RbNode?, xp: RbNode?, xw: RbNode?, color: Color)
    requires Holds(s, root, c, t) && RootOf(t) == z
    modifies s
    ensures var u := Unlink(c, t);
            Holds(s - {z}, root', u.c, u.t) && x == RootOf(u.t) && xp == Holder(u.c) && color == u.color &&
            xw == if DeepSuccessor(t) then Leftmost(Top, t.r).1.k.node else Holder(u.c)
  {
    color := z.color;
    assert Rep(t.r, z);
    if z.left == null {
      x, xp, xw := z.right, z.parent, z.parent;
      root' := SpliceOut(root, z, z.right, s, c, t, t.r);
    } else if z.right == null {
      x, xp, xw := z.left, z.parent, z.parent;
      root' := SpliceOut(root, z, z.left, s, c, t, t.l);
    } else {
      root', x, xp, xw, color := UnlinkBySuccessor(root, z, s, c, t);
    }
  }

  method UnlinkBySuccessor(root: RbNode?, z: RbNode, ghost s: set<RbNode>, ghost c: Path, ghost t: Tree)
    returns (root': RbNode?, x: RbNode?, xp: RbNode?, xw: RbNode?, color: Color)
    requires Holds(s, root, c, t) && RootOf(t) == z && t.l.Node? && t.r.Node?
    modifies s
    ensures var u := Unlink(c, t);
            Holds(s - {z}, root', u.c, u.t) && x == RootOf(u.t) && xp == Holder(u.c) && color == u.color &&
            xw == Leftmost(Top, t.r).1.k.node
  {
    ghost var zr := InR(t.l, t.k, c);
    Zip(s, root, zr, t.r);
    ghost var (m, v) := Leftmost(Top, t.r);
    LeftmostPlug(Top, t.r);
    LeftmostJoin(zr, t.r);
    var y := Minimum(z.right, s, root, zr, t.r);
    ZipJoin(s, root, m, zr, v);
    assert Rep(v, Holder(Join(m, zr)));
    color := y.color;
    x := y.right;
    xw := y;
    ghost var k := Recolor(v.k, t.k.color);
    if y.parent == z {
      DirectSuccessor(s, root, m, t.l, t.k, c, v);
      xp := y;
      Zip(s, root, InR(Leaf, v.k, zr), v.r);
      KeepParent(x, y, s, root, InR(Leaf, v.k, zr), v.r);
      Zip(s, root, InR(Leaf, v.k, zr), v.r);
      Zip(s, root, zr, v);
      root' := PromoteChild(root, z, y, s, c, t);
      Zip(s - {z}, root', InR(t.l, k, c), v.r);
    } else {
      xp := y.parent;
      root' := UnlinkDeep(root, z, y, s, c, t, m, v);
    }
  }

  /** Only the right child itself is a successor with `z` as its parent. */
  lemma {:induction false} DirectSuccessor(s: set<RbNode>, root: RbNode?, m: Path, l: Tree, kz: Cell, c: Path, v: Tree)
    requires Holds(s, root, Join(m, InR(l, kz, c)), v)
    ensures Holder(Join(m, InR(l, kz, c))) == kz.node <==> m.Top?
  {
    if !m.Top? {
      HolderOf(m.up, InR(l, kz, c));
    }
  }

  lemma {:induction false} HolderOf(m: Path, c: Path)
    requires !c.Top?
    ensures c.k.node in PathNodes(Join(m, c))
  {
    if !m.Top? {
      HolderOf(m.up, c);
    }
  }

  method UnlinkDeep(root: RbNode?, z: RbNode, y: RbNode, ghost s: set<RbNode>, ghost c: Path, ghost t: Tree,
                    ghost m: Path, ghost v: Tree)
    returns (root': RbNode?)
    requires t.Node? && t.l.Node? && t.r.Node? && RootOf(t) == z && RootOf(v) == y && v.l.Leaf?
    requires Holds(s, root, Join(m, InR(t.l, t.k, c)), v) && !m.Top? && y != z
    modifies s
    ensures Holds(s - {z}, root', Join(m, InR(t.l, Recolor(v.k, t.k.color), c)), v.r)
  {
    ghost var zr, k := InR(t.l, t.k, c), Recolor(v.k, t.k.color);
    root' := SpliceOut(root, y, y.right, s, Join(m, zr), v, v.r);
    ghost var r := Plug(m, v.r);
    ZipJoin(s - {y}, root', m, zr, v.r);
    Zip(s - {y}, root', zr, r);
    PlugNode(m, v.r);
    root' := Promote(root', z, y, s - {y}, c, Node(t.l, t.k, r), v.k);
    assert s - {y} - {z} + {y} == s - {z};
    Zip(s - {z}, root', InR(t.l, k, c), r);
    ZipJoin(s - {z}, root', m, InR(t.l, k, c), v.r);
  }

  lemma {:induction false} PlugNode(m: Path, t: Tree)
    requires !m.Top?
    ensures Plug(m, t).Node?
    decreases m
  {
    if !m.up.Top? {
      PlugNode(m.up, Grow(m, t));
    }
  }

  // ----- the operations -----

  /** `rbtree_sp_get_node` */
  method GetNode(root: RbNode?, key: Key, ghost s: set<RbNode>, ghost t: Tree) returns (n: RbNode?)
    requires Holds(s, root, Top, t)
    ensures n == RootOf(Seek(Top, t, Hash(key)).1)
    ensures n != null ==> n in s && n.list == Seek(Top, t, Hash(key)).1.k.list
  {
    n := root;
    var h := Hash(key);
    ghost var c, u := Top, t;
    while n != null && n.hash != h
      invariant Holds(s, root, c, u) && n == RootOf(u)
      invariant Seek(c, u, h) == Seek(Top, t, h)
      decreases u
    {
      if h < n.hash {
        Zip(s, root, InL(c, u.k, u.r), u.l);
        n := n.left;
        c, u := InL(c, u.k, u.r), u.l;
      } else {
        Zip(s, root, InR(u.l, u.k, c), u.r);
        n := n.right;
        c, u := InR(u.l, u.k, c), u.r;
      }
    }
  }

  /** The second descent of the insertion, for a hash that is not in the tree. */
  method LeafPlace(root: RbNode?, h: nat, ghost s: set<RbNode>, ghost t: Tree) returns (y: RbNode?)
    requires Holds(s, root, Top, t) && Seek(Top, t, h).1.Leaf?
    ensures var c := Seek(Top, t, h).0;
            Holds(s, root, c, Leaf) && y == Holder(c) && (!c.Top? ==> (c.InL? <==> h < c.k.hash))
  {
    y := null;
    var x := root;
    ghost var c, u := Top, t;
    while x != null
      invariant Holds(s, root, c, u) && x == RootOf(u) && y == Holder(c)
      invariant Seek(c, u, h) == Seek(Top, t, h)
      invariant !c.Top? ==> (c.InL? <==> h < c.k.hash)
      decreases u
    {
      y := x;
      if h < x.hash {
        Zip(s, root, InL(c, u.k, u.r), u.l);
        x := x.left;
        c, u := InL(c, u.k, u.r), u.l;
      } else {
        Zip(s, root, InR(u.l, u.k, c), u.r);
        x := x.right;
        c, u := InR(u.l, u.k, c), u.r;
      }
    }
  }

  /** `node->list = list`, at the node the search finds. */
  method WriteList(n: RbNode, list: Chain, ghost s: set<RbNode>, ghost root: RbNode?, ghost c: Path, ghost t: Tree)
    requires Holds(s, root, c, t) && RootOf(t) == n
    modifies s
    ensures Holds(s, root, c, Node(t.l, t.k.(list := list), t.r))
  {
    n.list := list;
  }
}
