/** How a shape of `RbShape` lies in the heap. */
module RbHeap {
  import opened RbShape

  ghost function Nodes(t: Tree): set<RbNode> {
    if t.Leaf? then {} else Nodes(t.l) + {t.k.node} + Nodes(t.r)
  }

  ghost function PathNodes(c: Path): set<RbNode> {
    if c.Top? then {} else {c.k.node} + Nodes(Sibling(c)) + PathNodes(c.up)
  }

  ghost function AllNodes(c: Path, t: Tree): set<RbNode> {
    PathNodes(c) + Nodes(t)
  }

  ghost predicate Distinct(t: Tree) {
    t.Node? ==>
      Distinct(t.l) && Distinct(t.r) && Nodes(t.l) !! Nodes(t.r) &&
      t.k.node !in Nodes(t.l) && t.k.node !in Nodes(t.r)
  }

  ghost predicate DistinctPath(c: Path) {
    !c.Top? ==>
      Distinct(Sibling(c)) && DistinctPath(c.up) && Nodes(Sibling(c)) !! PathNodes(c.up) &&
      c.k.node !in Nodes(Sibling(c)) && c.k.node !in PathNodes(c.up)
  }

  ghost predicate Apart(c: Path, t: Tree) {
    DistinctPath(c) && Distinct(t) && PathNodes(c) !! Nodes(t)
  }

  function Origin(c: Path, hole: RbNode?): RbNode? {
    if c.Top? then hole else Origin(c.up, c.k.node)
  }

  ghost predicate Stored(k: Cell, left: RbNode?, right: RbNode?, parent: RbNode?)
    reads k.node
  {
    && k.node.color == k.color && k.node.hash == k.hash && k.node.list == k.list
    && k.node.left == left && k.node.right == right && k.node.parent == parent
  }

  /** The nodes of `t` are linked up as `t`, under parent `p`. */
  ghost predicate Rep(t: Tree, p: RbNode?)
    reads Nodes(t)
  {
    t.Node? ==>
      Stored(t.k, RootOf(t.l), RootOf(t.r), p) && Rep(t.l, t.k.node) && Rep(t.r, t.k.node)
  }

  /** The nodes of `c` are linked up as `c`, the hole's link leading to `hole`. */
  ghost predicate RepPath(c: Path, hole: RbNode?)
    reads PathNodes(c)
  {
    !c.Top? ==>
      && Stored(c.k, if c.InL? then hole else RootOf(c.l), if c.InL? then RootOf(c.r) else hole, Holder(c.up))
      && Rep(Sibling(c), c.k.node) && RepPath(c.up, c.k.node)
  }

  /** The nodes `s` hold the tree `Plug(c, t)`, and `root` is its root pointer. */
  ghost predicate Holds(s: set<RbNode>, root: RbNode?, c: Path, t: Tree)
    reads s
  {
    && Apart(c, t) && AllNodes(c, t) == s && root == Origin(c, RootOf(t))
    && Rep(t, Holder(c)) && RepPath(c, RootOf(t))
  }

  /** Moving the hole one level changes nothing. */
  lemma {:induction false} Zip(s: set<RbNode>, root: RbNode?, c: Path, t: Tree)
    requires !c.Top?
    ensures Holds(s, root, c.up, Grow(c, t)) <==> Holds(s, root, c, t)
  {
  }

  lemma {:induction false} ZipAll(s: set<RbNode>, root: RbNode?, c: Path, t: Tree)
    ensures Holds(s, root, Top, Plug(c, t)) <==> Holds(s, root, c, t)
    decreases c
  {
    if !c.Top? {
      Zip(s, root, c, t);
      ZipAll(s, root, c.up, Grow(c, t));
    }
  }

  /** The root pointer lies in the path, or is the hole's at the top. */
  lemma {:induction false} OriginHolds(c: Path, u: RbNode?)
    ensures c.Top? ==> Origin(c, u) == u
    ensures !c.Top? ==> Origin(c, u) != null && Origin(c, u) in PathNodes(c)
  {
    if !c.Top? {
      OriginHolds(c.up, c.k.node);
    }
  }

  lemma {:induction false} ZipJoin(s: set<RbNode>, root: RbNode?, m: Path, c: Path, t: Tree)
    ensures Holds(s, root, Join(m, c), t) <==> Holds(s, root, c, Plug(m, t))
    decreases m
  {
    if !m.Top? {
      Zip(s, root, Join(m, c), t);
      ZipJoin(s, root, m.up, c, Grow(m, t));
    }
  }

  /** What a loop's guard reads. */
  lemma {:induction false} GuardFacts(s: set<RbNode>, root: RbNode?, c: Path, t: Tree)
    requires Holds(s, root, c, t)
    ensures !c.Top? ==> root != null && root != RootOf(t)
    ensures c.Top? ==> root == RootOf(t)
    ensures t.Node? ==> t.k.node.color == t.k.color
  {
    OriginHolds(c, RootOf(t));
  }

  /** The hole moved over to the subtree beside it. */
  function Across(c: Path, t: Tree): Path
    requires !c.Top?
  {
    if c.InL? then InR(t, c.k, c.up) else InL(c.up, c.k, t)
  }

  lemma {:induction false} ZipAcross(s: set<RbNode>, root: RbNode?, c: Path, t: Tree)
    requires !c.Top?
    ensures Holds(s, root, c, t) <==> Holds(s, root, Across(c, t), Sibling(c))
  {
    Zip(s, root, c, t);
    Zip(s, root, Across(c, t), Sibling(c));
  }

  lemma {:induction false} RotateLeftApart(t: Tree)
    requires t.Node? && t.r.Node? && Distinct(t)
    ensures Distinct(RotateLeft(t)) && Nodes(RotateLeft(t)) == Nodes(t)
  {
    assert Distinct(t.r);
    assert Distinct(RotateLeft(t).l);
  }

  lemma {:induction false} RotateRightApart(t: Tree)
    requires t.Node? && t.l.Node? && Distinct(t)
    ensures Distinct(RotateRight(t)) && Nodes(RotateRight(t)) == Nodes(t)
  {
    assert Distinct(t.l);
    assert Distinct(RotateRight(t).r);
  }
}
