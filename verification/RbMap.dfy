/** The string-keyed multimap kept in a red-black tree: what one operation
    does to the tree, and what it does to the map from keys to value stacks. */
module RbMap {
  import opened RbShape

  // ----- keys and chains -----

  const NULL: Pointer := 0

  /** `rbtree_sp_hash`: 32-bit wrap-around, characters sign-extended. */
  function HashChars(s: seq<CChar>): (h: nat)
    ensures h < 0x1_0000_0000
  {
    if s == [] then 0 else (HashChars(s[..|s| - 1]) * 131 + s[|s| - 1]) % 0x1_0000_0000
  }

  function Hash(key: Key): (h: nat)
    ensures h < 0x1_0000_0000
  {
    if key.NullKey? then 0 else HashChars(key.chars)
  }

  /** `slist_sp_get` */
  function ChainGet(list: Chain, key: Key): Pointer {
    if list == [] then NULL else if list[0].key == key then list[0].value else ChainGet(list[1..], key)
  }

  /** `slist_sp_delete`: the first binding of `key` goes. */
  function ChainDelete(list: Chain, key: Key): Chain {
    if list == [] then [] else if list[0].key == key then list[1..] else [list[0]] + ChainDelete(list[1..], key)
  }

  /** The values bound to `key` in one chain, newest first. */
  function ValuesIn(list: Chain, key: Key): seq<Pointer> {
    if list == [] then []
    else (if list[0].key == key then [list[0].value] else []) + ValuesIn(list[1..], key)
  }

  function Newest(stack: seq<Pointer>): Pointer {
    if stack == [] then NULL else stack[0]
  }

  function Popped(stack: seq<Pointer>): seq<Pointer> {
    if stack == [] then [] else stack[1..]
  }

  lemma {:induction false} ChainGetNewest(list: Chain, key: Key)
    ensures ChainGet(list, key) == Newest(ValuesIn(list, key))
  {
    if list != [] && list[0].key != key {
      ChainGetNewest(list[1..], key);
    }
  }

  lemma {:induction false} ChainDeletePops(list: Chain, key: Key, other: Key)
    ensures ValuesIn(ChainDelete(list, key), other) ==
            if other == key then Popped(ValuesIn(list, key)) else ValuesIn(list, other)
    ensures forall b | b in ChainDelete(list, key) :: b in list
    ensures ChainDelete(list, key) == [] ==> |list| <= 1
  {
    if list != [] && list[0].key != key {
      ChainDeletePops(list[1..], key, other);
      var rest := ChainDelete(list[1..], key);
      assert ([list[0]] + rest)[1..] == rest;
    }
  }

  // ----- entries -----

  /** Hashes strictly increase, chains are non-empty and hold keys of their hash only. */
  predicate ValidEntries(es: seq<Entry>) {
    && (forall i, j | 0 <= i < j < |es| :: es[i].hash < es[j].hash)
    && (forall i | 0 <= i < |es| :: ValidEntry(es[i]))
  }

  predicate ValidEntry(e: Entry) {
    e.list != [] && forall b | b in e.list :: Hash(b.key) == e.hash
  }

  function ChainOf(es: seq<Entry>, h: nat): Chain {
    if es == [] then [] else if es[0].hash == h then es[0].list else ChainOf(es[1..], h)
  }

  predicate Below(es: seq<Entry>, h: nat) {
    forall e | e in es :: e.hash < h
  }

  predicate Above(es: seq<Entry>, h: nat) {
    forall e | e in es :: h < e.hash
  }

  lemma {:induction false} ChainOfAbsent(es: seq<Entry>, h: nat)
    requires forall e | e in es :: e.hash != h
    ensures ChainOf(es, h) == []
  {
    if es != [] {
      ChainOfAbsent(es[1..], h);
    }
  }

  lemma {:induction false} ChainOfSkip(a: seq<Entry>, b: seq<Entry>, h: nat)
    requires forall e | e in a :: e.hash != h
    ensures ChainOf(a + b, h) == ChainOf(b, h)
  {
    if a == [] {
      assert a + b == b;
    } else {
      assert (a + b)[1..] == a[1..] + b;
      ChainOfSkip(a[1..], b, h);
    }
  }

  lemma {:induction false} ChainOfStop(a: seq<Entry>, b: seq<Entry>, h: nat)
    requires forall e | e in b :: e.hash != h
    ensures ChainOf(a + b, h) == ChainOf(a, h)
  {
    if a == [] {
      assert a + b == b;
      ChainOfAbsent(b, h);
    } else {
      assert (a + b)[1..] == a[1..] + b;
      ChainOfStop(a[1..], b, h);
    }
  }

  /** Only the chain of hash `h` changes when the entries between `a` and `b` do. */
  lemma {:induction false} ChainOfBetween(a: seq<Entry>, x: seq<Entry>, b: seq<Entry>, h: nat, g: nat)
    requires Below(a, h) && Above(b, h) && |x| <= 1 && (forall e | e in x :: e.hash == h)
    ensures ChainOf(a + x + b, g) ==
            if g == h then (if x == [] then [] else x[0].list)
            else if g < h then ChainOf(a, g) else ChainOf(b, g)
  {
    if g == h {
      ChainOfStop(a + x, b, h);
      ChainOfSkip(a, x, h);
    } else if g < h {
      ChainOfStop(a + x, b, g);
      ChainOfStop(a, x, g);
    } else {
      ChainOfSkip(a + x, b, g);
    }
  }

  // ----- searching -----

  /** The descent by hash: it stops at the node of hash `h` or at an empty place. */
  function Seek(c: Path, t: Tree, h: nat): (Path, Tree)
    decreases t
  {
    if t.Leaf? || t.k.hash == h then (c, t)
    else if h < t.k.hash then Seek(InL(c, t.k, t.r), t.l, h)
    else Seek(InR(t.l, t.k, c), t.r, h)
  }

  lemma {:induction false} SeekPlug(c: Path, t: Tree, h: nat)
    ensures var (d, u) := Seek(c, t, h); Plug(d, u) == Plug(c, t) && (u.Node? ==> u.k.hash == h)
    decreases t
  {
    if t.Node? && h < t.k.hash {
      SeekPlug(InL(c, t.k, t.r), t.l, h);
    } else if t.Node? && h > t.k.hash {
      SeekPlug(InR(t.l, t.k, c), t.r, h);
    }
  }

  lemma NodeSplits(a: seq<Entry>, l: seq<Entry>, e: Entry, r: seq<Entry>, b: seq<Entry>)
    requires ValidEntries(a + (l + [e] + r) + b)
    ensures Below(a + l, e.hash) && Above(r + b, e.hash)
    ensures a + (l + [e] + r) + b == a + l + ([e] + r + b)
    ensures a + (l + [e] + r) + b == (a + l + [e]) + r + b
  {
    Shift(a, l, [e], r, b);
    assert (a + l) + [e] + (r + b) == a + (l + [e] + r) + b;
    SortedParts(a + l, e, r + b);
  }

  /** In a sorted tree the descent splits the entries at `h`. */
  lemma {:induction false} SeekSplits(c: Path, t: Tree, h: nat)
    requires ValidEntries(Before(c) + InOrder(t) + After(c)) && Below(Before(c), h) && Above(After(c), h)
    ensures var (d, u) := Seek(c, t, h);
            Below(Before(d), h) && Above(After(d), h) && Before(d) + InOrder(u) + After(d) == Before(c) + InOrder(t) + After(c)
    ensures var (d, u) := Seek(c, t, h);
            u.Node? ==> Below(InOrder(u.l), h) && Above(InOrder(u.r), h)
    decreases t
  {
    if t.Node? {
      NodeSplits(Before(c), InOrder(t.l), EntryOf(t.k), InOrder(t.r), After(c));
      if h < t.k.hash {
        SeekSplits(InL(c, t.k, t.r), t.l, h);
      } else if h > t.k.hash {
        SeekSplits(InR(t.l, t.k, c), t.r, h);
      }
    }
  }

  lemma ValidSplit(a: seq<Entry>, b: seq<Entry>)
    requires ValidEntries(a + b)
    ensures ValidEntries(a) && ValidEntries(b)
    ensures forall x, y | x in a && y in b :: x.hash < y.hash
  {
    var es := a + b;
    assert forall i | 0 <= i < |a| :: es[i] == a[i];
    assert forall i | 0 <= i < |b| :: es[|a| + i] == b[i];
    forall x, y | x in a && y in b
      ensures x.hash < y.hash
    {
      var i :| 0 <= i < |a| && a[i] == x;
      var j :| 0 <= j < |b| && b[j] == y;
      assert es[i].hash < es[|a| + j].hash;
    }
  }

  lemma ValidJoin(a: seq<Entry>, b: seq<Entry>)
    requires ValidEntries(a) && ValidEntries(b)
    requires forall x, y | x in a && y in b :: x.hash < y.hash
    ensures ValidEntries(a + b)
  {
    var es := a + b;
    forall i, j | 0 <= i < j < |es|
      ensures es[i].hash < es[j].hash
    {
      if i < |a| <= j {
        assert es[i] in a && es[j] in b;
      }
    }
  }

  lemma SortedParts(a: seq<Entry>, e: Entry, b: seq<Entry>)
    requires ValidEntries(a + [e] + b)
    ensures Below(a, e.hash) && Above(b, e.hash)
  {
    ValidSplit(a + [e], b);
    ValidSplit(a, [e]);
    assert e in [e] && e in a + [e];
  }

  /** Entries with `x` in the middle stay valid when `x` is replaced, added or removed. */
  lemma ValidBetween(a: seq<Entry>, x: seq<Entry>, b: seq<Entry>, y: seq<Entry>, h: nat)
    requires ValidEntries(a + x + b) && Below(a, h) && Above(b, h)
    requires |y| <= 1 && forall e | e in y :: e.hash == h && ValidEntry(e)
    ensures ValidEntries(a + y + b)
  {
    ValidSplit(a + x, b);
    ValidSplit(a, x);
    ValidJoin(a, y);
    ValidJoin(a + y, b);
  }

  // ----- the operations on trees -----

  /** `rbtree_sp_get` */
  function Get(t: Tree, key: Key): Pointer {
    var u := Seek(Top, t, Hash(key)).1;
    if u.Leaf? then NULL else ChainGet(u.k.list, key)
  }

  /** `rbtree_sp_insert`; `node` is the node allocated when the hash is new. */
  function Insert(t: Tree, node: RbNode, key: Key, value: Pointer): Tree {
    var (c, u) := Seek(Top, t, Hash(key));
    if u.Node? then Plug(c, Node(u.l, u.k.(list := [Binding(key, value)] + u.k.list), u.r))
    else FixInsert(c, Node(Leaf, Cell(node, Red, Hash(key), [Binding(key, value)]), Leaf))
  }

  /** The leftmost node below `t`, with the path to it. */
  function Leftmost(c: Path, t: Tree): (r: (Path, Tree))
    requires t.Node?
    ensures r.1.Node? && r.1.l.Leaf?
    decreases t
  {
    if t.l.Leaf? then (c, t) else Leftmost(InL(c, t.k, t.r), t.l)
  }

  /** The tree after one node left it, with a hole where a black node may be
      missing, and the colour of the node that is physically gone there. */
  datatype Removal = Removal(c: Path, t: Tree, color: Color)

  /** The root of `t` in the hole of `c` is unlinked, its successor taking its place. */
  function Unlink(c: Path, t: Tree): Removal
    requires t.Node?
  {
    if t.l.Leaf? then Removal(c, t.r, t.k.color)
    else if t.r.Leaf? then Removal(c, t.l, t.k.color)
    else
      var (m, y) := Leftmost(Top, t.r);
      Removal(Join(m, InR(t.l, Recolor(y.k, t.k.color), c)), y.r, y.k.color)
  }

  /** The deletion with the fixup started at the successor's former parent. */
  function RemoveRepaired(c: Path, t: Tree): Tree
    requires t.Node?
  {
    var u := Unlink(c, t);
    if u.color.Red? then Plug(u.c, u.t) else FixDelete(u.c, u.t)
  }

  /** The successor of the root of `t` lies deeper than its right child. */
  predicate DeepSuccessor(t: Tree) {
    t.Node? && t.l.Node? && t.r.Node? && t.r.l.Node?
  }

  /** The deletion as the source has it: for a deep successor the fixup is told
      that the successor itself, already moved up, is the parent. */
  function RemoveAsWritten(c: Path, t: Tree): Tree
    requires t.Node?
  {
    var u := Unlink(c, t);
    if u.color.Red? || !DeepSuccessor(t) || IsRed(u.t) then RemoveRepaired(c, t)
    else
      var (m, y) := Leftmost(Top, t.r);
      RunPass(InR(t.l, Recolor(y.k, t.k.color), c), Plug(m, y.r))
  }

  /** `rbtree_sp_delete`, as written or with the fixup's parent repaired. */
  function Delete(t: Tree, key: Key, repaired: bool): Tree {
    var (c, u) := Seek(Top, t, Hash(key));
    if u.Leaf? then t
    else
      var rest := ChainDelete(u.k.list, key);
      var v := Node(u.l, u.k.(list := rest), u.r);
      if rest != [] then Plug(c, v)
      else if repaired then RemoveRepaired(c, v) else RemoveAsWritten(c, v)
  }

  // ----- unlinking keeps order -----

  lemma {:induction false} LeftmostPlug(c: Path, t: Tree)
    requires t.Node?
    ensures var (m, y) := Leftmost(c, t); Plug(m, y) == Plug(c, t) && y.Node? && y.l.Leaf? && Before(m) == Before(c)
    decreases t
  {
    if t.l.Node? {
      LeftmostPlug(InL(c, t.k, t.r), t.l);
    }
  }

  lemma {:induction false} LeftmostJoin(c: Path, t: Tree)
    requires t.Node?
    ensures Leftmost(c, t) == (Join(Leftmost(Top, t).0, c), Leftmost(Top, t).1)
    decreases t
  {
    if t.l.Node? {
      LeftmostJoin(InL(c, t.k, t.r), t.l);
      LeftmostJoin(InL(Top, t.k, t.r), t.l);
      JoinJoin(Leftmost(Top, t.l).0, InL(Top, t.k, t.r), c);
    }
  }

  lemma {:induction false} UnlinkInOrder(c: Path, t: Tree)
    requires t.Node?
    ensures var u := Unlink(c, t);
            Before(u.c) + InOrder(u.t) + After(u.c) == Before(c) + (InOrder(t.l) + InOrder(t.r)) + After(c)
  {
    if t.l.Leaf? || t.r.Leaf? {
      assert InOrder(t.l) + InOrder(t.r) == if t.l.Leaf? then InOrder(t.r) else InOrder(t.l);
    } else {
      var (m, y) := Leftmost(Top, t.r);
      LeftmostPlug(Top, t.r);
      InOrderPlug(m, y);
      BeforeAfterJoin(m, InR(t.l, Recolor(y.k, t.k.color), c));
      SuccessorMoves(Before(c), InOrder(t.l), [EntryOf(y.k)], InOrder(y.r), After(m), After(c));
    }
  }

  lemma SuccessorMoves(a: seq<Entry>, l: seq<Entry>, k: seq<Entry>, r: seq<Entry>, m: seq<Entry>, b: seq<Entry>)
    ensures (a + l + k + []) + r + (m + b) == a + (l + ([] + ([] + k + r) + m)) + b
    ensures (a + l + k) + ([] + r + m) + b == a + (l + ([] + ([] + k + r) + m)) + b
  {
  }

  lemma {:induction false} RemoveRepairedInOrder(c: Path, t: Tree)
    requires t.Node?
    ensures InOrder(RemoveRepaired(c, t)) == Before(c) + (InOrder(t.l) + InOrder(t.r)) + After(c)
  {
    var u := Unlink(c, t);
    UnlinkInOrder(c, t);
    InOrderPlug(u.c, u.t);
    FixDeleteInOrder(u.c, u.t);
  }

  lemma {:induction false} RemoveAsWrittenInOrder(c: Path, t: Tree)
    requires t.Node?
    ensures InOrder(RemoveAsWritten(c, t)) == Before(c) + (InOrder(t.l) + InOrder(t.r)) + After(c)
  {
    RemoveRepairedInOrder(c, t);
    if DeepSuccessor(t) {
      var (m, y) := Leftmost(Top, t.r);
      LeftmostPlug(Top, t.r);
      InOrderPlug(m, y);
      InOrderPlug(m, y.r);
      RunPassInOrder(InR(t.l, Recolor(y.k, t.k.color), c), Plug(m, y.r));
      SuccessorMoves(Before(c), InOrder(t.l), [EntryOf(y.k)], InOrder(y.r), After(m), After(c));
    }
  }

  // ----- unlinking and balance -----

  /** A cell may be exchanged for one of the same colour. */
  lemma {:induction false} PathOkExchange(m: Path, l: Tree, k: Cell, k': Cell, c: Path, h: nat)
    requires k.color == k'.color && PathOk(Join(m, InR(l, k, c)), h)
    ensures PathOk(Join(m, InR(l, k', c)), h)
    ensures HolderBlack(Join(m, InR(l, k', c))) == HolderBlack(Join(m, InR(l, k, c)))
  {
    if !m.Top? {
      PathOkExchange(m.up, l, k, k', c, h + Weight(m.k));
    }
  }

  lemma {:induction false} ChildrenOk(t: Tree)
    requires t.Node? && RbOk(t)
    ensures RbOk(t.l) && RbOk(t.r) && BlackHeight(t.l) == BlackHeight(t.r)
    ensures RbOk(Blacken(t.l)) && RbOk(Blacken(t.r))
  {
  }

  /** What the fixup finds after unlinking a node of a red-black tree. */
  lemma {:induction false} UnlinkShort(c: Path, t: Tree)
    requires t.Node? && RedBlack(Plug(c, t))
    ensures var u := Unlink(c, t);
            if u.color.Red? then u.t == Leaf && PathOk(u.c, 0) else Short(u.c, u.t) && BlackHeight(u.t) == 0
  {
    if t.l.Leaf? || t.r.Leaf? {
      UnplugRedBlack(c, t);
      ChildrenOk(t);
    } else {
      var (m, y) := Leftmost(Top, t.r);
      LeftmostPlug(Top, t.r);
      PlugJoin(m, InR(t.l, t.k, c), y);
      UnplugRedBlack(Join(m, InR(t.l, t.k, c)), y);
      ChildrenOk(y);
      PathOkExchange(m, t.l, t.k, Recolor(y.k, t.k.color), c, BlackHeight(y));
    }
  }

  /** With the successor's former parent as the fixup's parent, deletion keeps
      a red-black tree red-black. */
  lemma {:induction false} RemoveRepairedRedBlack(c: Path, t: Tree)
    requires t.Node? && RedBlack(Plug(c, t))
    ensures RedBlack(RemoveRepaired(c, t))
  {
    var u := Unlink(c, t);
    UnlinkShort(c, t);
    if u.color.Red? {
      PlugRedBlack(u.c, u.t);
    } else {
      FixDeleteRedBlack(u.c, u.t);
    }
  }

  /** The successor is a black leaf deeper than the right child: the one case
      in which the parent handed to the fixup matters and is wrong. */
  predicate Misplaced(t: Tree) {
    DeepSuccessor(t) && var y := Leftmost(Top, t.r).1; y.k.color.Black? && y.r.Leaf?
  }

  /** As written, deletion keeps a red-black tree red-black exactly when the
      successor is not such a leaf. */
  lemma {:induction false} RemoveAsWrittenExact(c: Path, t: Tree)
    requires t.Node? && RedBlack(Plug(c, t))
    ensures RedBlack(RemoveAsWritten(c, t)) <==> !Misplaced(t)
    ensures !Misplaced(t) ==> RemoveAsWritten(c, t) == RemoveRepaired(c, t)
  {
    RemoveRepairedRedBlack(c, t);
    UnlinkShort(c, t);
    if Misplaced(t) {
      var (m, y) := Leftmost(Top, t.r);
      UnplugRbOk(c, t);
      LeftmostPlug(Top, t.r);
      DeepHole(Top, t.r);
      RunPassUnbalanced(InR(t.l, Recolor(y.k, t.k.color), c), Plug(m, y.r));
    } else if DeepSuccessor(t) {
      var u := Unlink(c, t);
      assert u.color.Black? ==> u.t.Node? && BlackHeight(u.t) == 0;
    }
  }

  /** Taking a black leaf off the left spine leaves an unbalanced tree. */
  lemma {:induction false} DeepHole(c: Path, t: Tree)
    requires t.Node? && t.l.Node? && RbOk(Plug(c, t))
    requires var y := Leftmost(c, t).1; y.k.color.Black? && y.r.Leaf?
    ensures !Balanced(Plug(Leftmost(c, t).0, Leaf))
    decreases t
  {
    if t.l.l.Leaf? {
      UnplugRbOk(c, t);
      PlugUnbalanced(c, Node(Leaf, t.k, t.r));
    } else {
      DeepHole(InL(c, t.k, t.r), t.l);
    }
  }
}
