/** The multimap object: the root pointer and, as ghost state, the nodes it
    reaches and the tree they hold. */
module Multimap {
  import opened RbShape
  import opened RbMap
  import opened RbHeap
  import opened RbTree
  import opened RbRuns

  class StringMap {
    var root: RbNode?
    ghost var nodes: set<RbNode>
    ghost var tree: Tree

    /** The nodes hold the ghost tree. */
    ghost predicate Linked()
      reads this, nodes
    {
      Holds(nodes, root, Top, tree)
    }

    constructor ()
      ensures Linked() && tree == Leaf && nodes == {}
    {
      root, nodes, tree := null, {}, Leaf;
    }

    /** `rbtree_sp_get` */
    method Get(key: Key) returns (value: Pointer)
      requires Linked() && Valid(tree)
      ensures value == Newest(Stack(tree, key))
    {
      var n := GetNode(root, key, nodes, tree);
      value := if n == null then NULL else ChainGet(n.list, key);
      GetNewest(tree, key);
    }

    /** `rbtree_sp_insert` */
    method Insert(key: Key, value: Pointer) returns (ghost z: RbNode)
      requires Linked() && Valid(tree)
      modifies this, nodes
      ensures Linked() && fresh(nodes - old(nodes))
      ensures tree == RbMap.Insert(old(tree), z, key, value) && Valid(tree)
      ensures forall k :: Stack(tree, k) == (if k == key then [value] else []) + Stack(old(tree), k)
    {
      ghost var t := tree;
      SeekPlug(Top, t, Hash(key));
      var n := GetNode(root, key, nodes, t);
      if n != null {
        PrependAt(root, n, key, value, nodes, t);
        z := n;
      } else {
        var node: RbNode;
        root, node := InsertNew(root, key, value, nodes, t);
        nodes := nodes + {node};
        z := node;
      }
      tree := RbMap.Insert(t, z, key, value);
      InsertPushesAll(t, z, key, value);
    }

    /** `rbtree_sp_delete` with the fixup told the successor's former parent. */
    method DeleteRepaired(key: Key)
      requires Linked() && Valid(tree)
      modifies this, nodes
      ensures Linked() && nodes <= old(nodes)
      ensures tree == Delete(old(tree), key, true) && Valid(tree)
      ensures forall k :: Stack(tree, k) == if k == key then Popped(Stack(old(tree), k)) else Stack(old(tree), k)
    {
      ghost var t := tree;
      root, nodes := DeleteKey(root, key, nodes, t, true);
      tree := Delete(t, key, true);
      DeletePopsAll(t, key, true);
    }

    /** `rbtree_sp_delete` as the source has it. */
    method DeleteAsWritten(key: Key)
      requires Linked() && Valid(tree)
      modifies this, nodes
      ensures Linked() && nodes <= old(nodes)
      ensures tree == Delete(old(tree), key, false)
      ensures Valid(tree) <==> !DeleteMisplaces(old(tree), key)
      ensures forall k :: Stack(tree, k) == if k == key then Popped(Stack(old(tree), k)) else Stack(old(tree), k)
    {
      ghost var t := tree;
      root, nodes := DeleteKey(root, key, nodes, t, false);
      tree := Delete(t, key, false);
      DeletePopsAll(t, key, false);
    }
  }

  lemma InsertPushesAll(t: Tree, z: RbNode, key: Key, value: Pointer)
    requires Valid(t)
    ensures Valid(Insert(t, z, key, value))
    ensures forall k :: Stack(Insert(t, z, key, value), k) == (if k == key then [value] else []) + Stack(t, k)
  {
    InsertPushes(t, z, key, value, key);
    forall k
      ensures Stack(Insert(t, z, key, value), k) == (if k == key then [value] else []) + Stack(t, k)
    {
      InsertPushes(t, z, key, value, k);
    }
  }

  lemma DeletePopsAll(t: Tree, key: Key, repaired: bool)
    requires Valid(t)
    ensures Valid(Delete(t, key, repaired)) <==> repaired || !DeleteMisplaces(t, key)
    ensures forall k :: Stack(Delete(t, key, repaired), k) == if k == key then Popped(Stack(t, k)) else Stack(t, k)
  {
    DeletePops(t, key, repaired, key);
    DeleteRedBlack(t, key);
    forall k
      ensures Stack(Delete(t, key, repaired), k) == if k == key then Popped(Stack(t, k)) else Stack(t, k)
    {
      DeletePops(t, key, repaired, k);
    }
  }

  /** `slist_sp_prepend(node->list, key, value)` */
  method PrependAt(root: RbNode?, n: RbNode, key: Key, value: Pointer, ghost s: set<RbNode>, ghost t: Tree)
    requires Holds(s, root, Top, t) && n == RootOf(Seek(Top, t, Hash(key)).1)
    modifies s
    ensures Holds(s, root, Top, RbMap.Insert(t, n, key, value))
  {
    ghost var (c, u) := Seek(Top, t, Hash(key));
    SeekPlug(Top, t, Hash(key));
    ZipAll(s, root, c, u);
    WriteList(n, [Binding(key, value)] + n.list, s, root, c, u);
    ZipAll(s, root, c, Node(u.l, u.k.(list := [Binding(key, value)] + u.k.list), u.r));
  }

  /** The rest of the insertion, for a new hash. */
  method InsertNew(root: RbNode?, key: Key, value: Pointer, ghost s: set<RbNode>, ghost t: Tree)
    returns (root': RbNode?, node: RbNode)
    requires Holds(s, root, Top, t) && Seek(Top, t, Hash(key)).1.Leaf? && RedBlack(t)
    modifies s
    ensures fresh(node) && Holds(s + {node}, root', Top, RbMap.Insert(t, node, key, value))
  {
    var h := Hash(key);
    ghost var c := Seek(Top, t, h).0;
    SeekPlug(Top, t, h);
    UnplugRedBlack(c, Leaf);
    var y := LeafPlace(root, h, s, t);
    node := new RbNode(h, [Binding(key, value)]);
    ghost var k := Cell(node, Red, h, [Binding(key, value)]);
    root' := Attach(root, node, y, s, c, k);
    root' := InsertFixup(root', node, s + {node}, c, Node(Leaf, k, Leaf));
  }

  /** `rbtree_sp_delete`; `repaired` chooses the parent handed to the fixup. */
  method DeleteKey(root: RbNode?, key: Key, ghost s: set<RbNode>, ghost t: Tree, repaired: bool)
    returns (root': RbNode?, ghost s': set<RbNode>)
    requires Holds(s, root, Top, t) && RedBlack(t)
    modifies s
    ensures s' <= s && Holds(s', root', Top, Delete(t, key, repaired))
  {
    root', s' := root, s;
    if root == null {
      return;
    }
    ghost var (c, u) := Seek(Top, t, Hash(key));
    SeekPlug(Top, t, Hash(key));
    var z := GetNode(root, key, s, t);
    if z == null {
      return;
    }
    ZipAll(s, root, c, u);
    var rest := ChainDelete(z.list, key);
    WriteList(z, rest, s, root, c, u);
    ghost var v := Node(u.l, u.k.(list := rest), u.r);
    if rest != [] {
      ZipAll(s, root, c, v);
      return;
    }
    UnplugRedBlack(c, u);
    PlugRedBlack(c, v);
    root' := RemoveNode(root, z, s, c, v, repaired);
    s' := s - {z};
  }

  /** Unlinking `z` and repairing the colours. */
  method RemoveNode(root: RbNode?, z: RbNode, ghost s: set<RbNode>, ghost c: Path, ghost t: Tree, repaired: bool)
    returns (root': RbNode?)
    requires Holds(s, root, c, t) && RootOf(t) == z && RedBlack(Plug(c, t))
    modifies s
    ensures Holds(s - {z}, root', Top, if repaired then RemoveRepaired(c, t) else RemoveAsWritten(c, t))
  {
    ghost var u := Unlink(c, t);
    var x, xp, xw, color;
    root', x, xp, xw, color := UnlinkNode(root, z, s, c, t);
    if color == Red {
      ZipAll(s - {z}, root', u.c, u.t);
      return;
    }
    var p := if repaired then xp else xw;
    ghost var c', t', h := FixupStart(root', x, p, s - {z}, c, t, repaired);
    root' := DeleteFixup(root', x, p, s - {z}, c', t', h);
  }

  /** Where the fixup starts, given the parent `p` it is handed. */
  lemma {:induction false} FixupStart(root: RbNode?, x: RbNode?, p: RbNode?, s: set<RbNode>, c: Path, t: Tree, repaired: bool)
    returns (c': Path, t': Tree, h: nat)
    requires t.Node? && RedBlack(Plug(c, t))
    requires var u := Unlink(c, t);
             u.color.Black? && Holds(s, root, u.c, u.t) && x == RootOf(u.t) &&
             p == if !repaired && DeepSuccessor(t) then Leftmost(Top, t.r).1.k.node else Holder(u.c)
    ensures Holds(s, root, c', t') && PathOk(c', h + 1)
    ensures x == RootOf(t') || (x == null && c'.InR?)
    ensures x == null || !IsRed(t') ==> p == Holder(c')
    ensures (if x == RootOf(t') then FixDelete(c', t') else RunPass(c', t'))
         == if repaired then RemoveRepaired(c, t) else RemoveAsWritten(c, t)
  {
    var u := Unlink(c, t);
    UnlinkShort(c, t);
    if !repaired && DeepSuccessor(t) && x == null {
      c', t', h := MisplacedStart(root, s, c, t);
    } else {
      c', t', h := u.c, u.t, BlackHeight(u.t);
      assert u.t.Node? ==> IsRed(u.t);
    }
  }

  /** Where the fixup starts when it is told that the successor is the parent of
      a missing black leaf deeper down: below the successor's new right link. */
  lemma {:induction false} MisplacedStart(root: RbNode?, s: set<RbNode>, c: Path, t: Tree)
    returns (c': Path, t': Tree, h: nat)
    requires t.Node? && RedBlack(Plug(c, t)) && DeepSuccessor(t)
    requires var u := Unlink(c, t); u.color.Black? && u.t.Leaf? && Holds(s, root, u.c, u.t)
    ensures Holds(s, root, c', t') && PathOk(c', h + 1) && c'.InR?
    ensures Holder(c') == Leftmost(Top, t.r).1.k.node && t'.Node?
    ensures RunPass(c', t') == RemoveAsWritten(c, t)
  {
    var (m, y) := Leftmost(Top, t.r);
    c', t' := InR(t.l, Recolor(y.k, t.k.color), c), Plug(m, y.r);
    ZipJoin(s, root, m, c', y.r);
    LeftmostDeep(Top, t.r);
    PlugNode(m, y.r);
    UnplugRedBlack(c, t);
    ChildrenOk(t);
    LeftmostBlack(Top, t.r);
    h := BlackHeight(t.l) - 1;
    assert PathOk(c, BlackHeight(t));
  }

  lemma {:induction false} LeftmostDeep(c: Path, t: Tree)
    requires t.Node?
    ensures t.l.Node? ==> !Leftmost(c, t).0.Top?
    decreases t
  {
    if t.l.Node? {
      LeftmostDeep(InL(c, t.k, t.r), t.l);
    }
  }

  lemma {:induction false} LeftmostBlack(c: Path, t: Tree)
    requires t.Node? && Leftmost(c, t).1.k.color.Black?
    ensures BlackHeight(t) >= 1
    decreases t
  {
    if t.l.Node? {
      LeftmostBlack(InL(c, t.k, t.r), t.l);
    }
  }
}
