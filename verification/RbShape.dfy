/** The nodes of the string-keyed red-black multimap and the mathematical
    shapes its operations are specified with: trees, and trees with a hole
    (the path from a subtree up to the root). */
module RbShape {

  /** A C string: `char` is signed on x86-64 and NUL ends the string. */
  type CChar = c: int | -128 <= c < 128 && c != 0 witness 65

  /** A key pointer: NULL or the string it points to. */
  datatype Key = NullKey | Str(chars: seq<CChar>)

  /** A `void *` value; 0 is NULL. */
  type Pointer = nat

  datatype Binding = Binding(key: Key, value: Pointer)

  /** A collision chain, newest binding first. */
  type Chain = seq<Binding>

  datatype Color = Red | Black

  class RbNode {
    var color: Color
    var hash: nat
    var list: Chain
    var left: RbNode?
    var right: RbNode?
    var parent: RbNode?

    constructor (hash: nat, list: Chain)
      ensures this.hash == hash && this.list == list && color == Red
      ensures left == null && right == null && parent == null
    {
      this.hash, this.list, color := hash, list, Red;
      left, right, parent := null, null, null;
    }
  }

  /** What one node stores besides its links. */
  datatype Cell = Cell(node: RbNode, color: Color, hash: nat, list: Chain)

  datatype Tree = Leaf | Node(l: Tree, k: Cell, r: Tree)

  /** A tree with one subtree cut out; `InL` is a hole in the left child of `k`. */
  datatype Path = Top | InL(up: Path, k: Cell, r: Tree) | InR(l: Tree, k: Cell, up: Path)

  function RootOf(t: Tree): RbNode? {
    if t.Leaf? then null else t.k.node
  }

  /** The node holding the hole, NULL at the top. */
  function Holder(c: Path): RbNode? {
    if c.Top? then null else c.k.node
  }

  /** Fill the hole of `c` with `t`. */
  function Plug(c: Path, t: Tree): Tree {
    match c
    case Top => t
    case InL(up, k, r) => Plug(up, Node(t, k, r))
    case InR(l, k, up) => Plug(up, Node(l, k, t))
  }

  /** The path `inner` continued by `outer` where `inner` ends. */
  function Join(inner: Path, outer: Path): Path {
    match inner
    case Top => outer
    case InL(up, k, r) => InL(Join(up, outer), k, r)
    case InR(l, k, up) => InR(l, k, Join(up, outer))
  }

  function Depth(c: Path): nat {
    if c.Top? then 0 else 1 + Depth(c.up)
  }

  lemma {:induction false} PlugJoin(inner: Path, outer: Path, t: Tree)
    ensures Plug(Join(inner, outer), t) == Plug(outer, Plug(inner, t))
  {
    match inner
    case Top =>
    case InL(up, k, r) => PlugJoin(up, outer, Node(t, k, r));
    case InR(l, k, up) => PlugJoin(up, outer, Node(l, k, t));
  }

  lemma {:induction false} JoinJoin(a: Path, b: Path, c: Path)
    ensures Join(Join(a, b), c) == Join(a, Join(b, c))
  {
    match a
    case Top =>
    case InL(up, k, r) => JoinJoin(up, b, c);
    case InR(l, k, up) => JoinJoin(up, b, c);
  }

  // ----- contents in order -----

  /** A node's contribution to the map: its hash and its chain. */
  datatype Entry = Entry(hash: nat, list: Chain)

  function EntryOf(k: Cell): Entry {
    Entry(k.hash, k.list)
  }

  function InOrder(t: Tree): seq<Entry> {
    match t
    case Leaf => []
    case Node(l, k, r) => InOrder(l) + [EntryOf(k)] + InOrder(r)
  }

  /** The entries left of the hole. */
  function Before(c: Path): seq<Entry> {
    match c
    case Top => []
    case InL(up, k, r) => Before(up)
    case InR(l, k, up) => Before(up) + InOrder(l) + [EntryOf(k)]
  }

  /** The entries right of the hole. */
  function After(c: Path): seq<Entry> {
    match c
    case Top => []
    case InL(up, k, r) => [EntryOf(k)] + InOrder(r) + After(up)
    case InR(l, k, up) => After(up)
  }

  lemma {:induction false} InOrderPlug(c: Path, t: Tree)
    ensures InOrder(Plug(c, t)) == Before(c) + InOrder(t) + After(c)
  {
    match c
    case Top =>
    case InL(up, k, r) =>
      InOrderPlug(up, Node(t, k, r));
      Shift(Before(up), InOrder(t), [EntryOf(k)], InOrder(r), After(up));
    case InR(l, k, up) =>
      InOrderPlug(up, Node(l, k, t));
      Shift(Before(up), InOrder(l), [EntryOf(k)], InOrder(t), After(up));
  }

  lemma Shift(b: seq<Entry>, x: seq<Entry>, k: seq<Entry>, y: seq<Entry>, a: seq<Entry>)
    ensures b + (x + k + y) + a == b + x + (k + y + a)
    ensures b + (x + k + y) + a == (b + x + k) + y + a
  {
  }

  lemma {:induction false} BeforeAfterJoin(inner: Path, outer: Path)
    ensures Before(Join(inner, outer)) == Before(outer) + Before(inner)
    ensures After(Join(inner, outer)) == After(inner) + After(outer)
  {
    match inner
    case Top =>
    case InL(up, k, r) => BeforeAfterJoin(up, outer);
    case InR(l, k, up) => BeforeAfterJoin(up, outer);
  }

  // ----- red-black invariants -----

  predicate IsRed(t: Tree) {
    t.Node? && t.k.color.Red?
  }

  function Blacken(t: Tree): Tree {
    if t.Leaf? then t else Node(t.l, t.k.(color := Black), t.r)
  }

  function Redden(t: Tree): Tree {
    if t.Leaf? then t else Node(t.l, t.k.(color := Red), t.r)
  }

  function Weight(k: Cell): nat {
    if k.color.Black? then 1 else 0
  }

  /** Black nodes on the leftmost path. */
  function BlackHeight(t: Tree): nat {
    if t.Leaf? then 0 else BlackHeight(t.l) + Weight(t.k)
  }

  /** Every path down from a node meets the same number of black nodes. */
  predicate Balanced(t: Tree) {
    t.Node? ==> Balanced(t.l) && Balanced(t.r) && BlackHeight(t.l) == BlackHeight(t.r)
  }

  /** No red node has a red child. */
  predicate NoRedRed(t: Tree) {
    t.Node? ==> NoRedRed(t.l) && NoRedRed(t.r) && (t.k.color.Red? ==> !IsRed(t.l) && !IsRed(t.r))
  }

  predicate RbOk(t: Tree) {
    Balanced(t) && NoRedRed(t)
  }

  /** The red-black tree invariants of a whole tree. */
  predicate RedBlack(t: Tree) {
    RbOk(t) && !IsRed(t)
  }

  /** Filling the hole of `c` with a subtree of black height `h` that is red
      only under a black holder gives a red-black tree (`PlugRedBlack`). */
  predicate PathOk(c: Path, h: nat) {
    match c
    case Top => true
    case InL(up, k, r) =>
      RbOk(r) && BlackHeight(r) == h && PathOk(up, h + Weight(k)) &&
      (k.color.Red? ==> !IsRed(r) && HolderBlack(up))
    case InR(l, k, up) =>
      RbOk(l) && BlackHeight(l) == h && PathOk(up, h + Weight(k)) &&
      (k.color.Red? ==> !IsRed(l) && HolderBlack(up))
  }

  predicate HolderBlack(c: Path) {
    !c.Top? && c.k.color.Black?
  }

  lemma {:induction false} PlugRedBlack(c: Path, t: Tree)
    requires RbOk(t) && PathOk(c, BlackHeight(t)) && (IsRed(t) ==> HolderBlack(c))
    ensures RedBlack(Plug(c, t))
    decreases c
  {
    match c
    case Top =>
    case InL(up, k, r) => PlugRedBlack(up, Node(t, k, r));
    case InR(l, k, up) => PlugRedBlack(up, Node(l, k, t));
  }

  lemma {:induction false} UnplugRbOk(c: Path, t: Tree)
    requires RbOk(Plug(c, t))
    ensures RbOk(t)
    decreases c
  {
    match c
    case Top =>
    case InL(up, k, r) => UnplugRbOk(up, Node(t, k, r));
    case InR(l, k, up) => UnplugRbOk(up, Node(l, k, t));
  }

  /** The converse of `PlugRedBlack`. */
  lemma {:induction false} UnplugRedBlack(c: Path, t: Tree)
    requires RedBlack(Plug(c, t))
    ensures RbOk(t) && PathOk(c, BlackHeight(t)) && (IsRed(t) ==> HolderBlack(c))
    decreases c
  {
    match c
    case Top =>
    case InL(up, k, r) => UnplugRedBlack(up, Node(t, k, r));
    case InR(l, k, up) => UnplugRedBlack(up, Node(l, k, t));
  }

  /** An unbalanced subtree stays unbalanced wherever it is put. */
  lemma {:induction false} PlugUnbalanced(c: Path, t: Tree)
    requires !Balanced(t)
    ensures !Balanced(Plug(c, t))
    decreases c
  {
    match c
    case Top =>
    case InL(up, k, r) => PlugUnbalanced(up, Node(t, k, r));
    case InR(l, k, up) => PlugUnbalanced(up, Node(l, k, t));
  }

  function RotateLeft(t: Tree): Tree
    requires t.Node? && t.r.Node?
  {
    Node(Node(t.l, t.k, t.r.l), t.r.k, t.r.r)
  }

  function RotateRight(t: Tree): Tree
    requires t.Node? && t.l.Node?
  {
    Node(t.l.l, t.l.k, Node(t.l.r, t.k, t.r))
  }

  // ----- insert fixup -----

  /** The loop of the insert fixup runs its body for a red node at `c`. A red
      holder always has a parent: `PathOk` demands it, and the methods prove it
      wherever they dereference that parent. */
  predicate RedUnderRed(c: Path) {
    !c.Top? && c.k.color.Red? && !c.up.Top?
  }

  /** The subtree at the holder, with `t` in the hole. */
  function Grow(c: Path, t: Tree): Tree
    requires !c.Top?
  {
    if c.InL? then Node(t, c.k, c.r) else Node(c.l, c.k, t)
  }

  /** The subtree beside the hole. */
  function Sibling(c: Path): Tree
    requires !c.Top?
  {
    if c.InL? then c.r else c.l
  }

  function Recolor(k: Cell, color: Color): Cell {
    k.(color := color)
  }

  /** Cases 2 and 3 of the insert fixup: the grandparent's subtree after the
      one or two rotations that end the loop. */
  function InsertRotated(c: Path, t: Tree): Tree
    requires RedUnderRed(c) && t.Node?
  {
    var g := c.up;
    if g.InL? then
      var p := if c.InR? then RotateLeft(Grow(c, t)) else Grow(c, t);
      RotateRight(Node(Blacken(p), Recolor(g.k, Red), g.r))
    else
      var p := if c.InL? then RotateRight(Grow(c, t)) else Grow(c, t);
      RotateLeft(Node(g.l, Recolor(g.k, Red), Blacken(p)))
  }

  /** Case 1: parent and uncle turn black, the grandparent red. */
  function InsertRecolored(c: Path, t: Tree): Tree
    requires RedUnderRed(c)
  {
    var p := Blacken(Grow(c, t));
    if c.up.InL? then Node(p, Recolor(c.up.k, Red), Blacken(c.up.r))
    else Node(Blacken(c.up.l), Recolor(c.up.k, Red), p)
  }

  /** The whole tree after the insert fixup was started on the red subtree `t` at `c`. */
  function FixInsert(c: Path, t: Tree): Tree
    requires t.Node?
    decreases c
  {
    if !RedUnderRed(c) then
      Blacken(Plug(c, t))
    else if IsRed(Sibling(c.up)) then
      FixInsert(c.up.up, InsertRecolored(c, t))
    else
      Blacken(Plug(c.up.up, InsertRotated(c, t)))
  }

  lemma {:induction false} FixInsertRedBlack(c: Path, t: Tree)
    requires IsRed(t) && RbOk(t) && PathOk(c, BlackHeight(t))
    ensures RedBlack(FixInsert(c, t))
    decreases c
  {
    if !RedUnderRed(c) {
      if c.Top? {
      } else {
        PlugRedBlack(c, t);
      }
    } else {
      if IsRed(Sibling(c.up)) {
        InsertRecoloredOk(c, t);
        FixInsertRedBlack(c.up.up, InsertRecolored(c, t));
      } else {
        InsertRotatedOk(c, t);
        assert PathOk(c.up, BlackHeight(t)) && HolderBlack(c.up);
        PlugRedBlack(c.up.up, InsertRotated(c, t));
      }
    }
  }

  lemma {:induction false} InsertRecoloredOk(c: Path, t: Tree)
    requires RedUnderRed(c) && IsRed(t) && RbOk(t) && PathOk(c, BlackHeight(t)) && IsRed(Sibling(c.up))
    ensures var w := InsertRecolored(c, t);
            IsRed(w) && RbOk(w) && PathOk(c.up.up, BlackHeight(w)) && Depth(c.up.up) < Depth(c)
  {
    assert PathOk(c.up, BlackHeight(t)) && HolderBlack(c.up);
    assert PathOk(c.up.up, BlackHeight(t) + 1);
  }

  lemma {:induction false} InsertRotatedOk(c: Path, t: Tree)
    requires RedUnderRed(c) && IsRed(t) && RbOk(t) && PathOk(c, BlackHeight(t))
    requires !IsRed(Sibling(c.up))
    ensures RbOk(InsertRotated(c, t)) && !IsRed(InsertRotated(c, t))
    ensures BlackHeight(InsertRotated(c, t)) == BlackHeight(t) + 1
  {
    assert PathOk(c.up, BlackHeight(t)) && HolderBlack(c.up);
  }

  lemma InOrderBlacken(t: Tree)
    ensures InOrder(Blacken(t)) == InOrder(t)
  {
  }

  lemma InOrderRotated(c: Path, t: Tree)
    requires RedUnderRed(c) && t.Node?
    ensures InOrder(InsertRotated(c, t)) == InOrder(Grow(c.up, Grow(c, t)))
  {
    var g := c.up;
    var p := Grow(c, t);
    InOrderRotateLeft(p);
    InOrderRotateRight(p);
    if g.InL? {
      var p := if c.InR? then RotateLeft(Grow(c, t)) else Grow(c, t);
      InOrderRotateRight(Node(Blacken(p), Recolor(g.k, Red), g.r));
    } else {
      var p := if c.InL? then RotateRight(Grow(c, t)) else Grow(c, t);
      InOrderRotateLeft(Node(g.l, Recolor(g.k, Red), Blacken(p)));
    }
  }

  lemma Reassociate(a: seq<Entry>, x: Entry, b: seq<Entry>, y: Entry, c: seq<Entry>)
    ensures (a + [x] + b) + [y] + c == a + [x] + (b + [y] + c)
  {
  }

  lemma InOrderRotateLeft(t: Tree)
    ensures t.Node? && t.r.Node? ==> InOrder(RotateLeft(t)) == InOrder(t)
  {
    if t.Node? && t.r.Node? {
      Reassociate(InOrder(t.l), EntryOf(t.k), InOrder(t.r.l), EntryOf(t.r.k), InOrder(t.r.r));
    }
  }

  lemma InOrderRotateRight(t: Tree)
    ensures t.Node? && t.l.Node? ==> InOrder(RotateRight(t)) == InOrder(t)
  {
    if t.Node? && t.l.Node? {
      Reassociate(InOrder(t.l.l), EntryOf(t.l.k), InOrder(t.l.r), EntryOf(t.k), InOrder(t.r));
    }
  }

  lemma {:induction false} FixInsertInOrder(c: Path, t: Tree)
    requires t.Node?
    ensures InOrder(FixInsert(c, t)) == Before(c) + InOrder(t) + After(c)
    decreases c
  {
    InOrderPlug(c, t);
    if !RedUnderRed(c) {
      InOrderBlacken(Plug(c, t));
    } else {
      var whole := Grow(c.up, Grow(c, t));
      assert Plug(c.up.up, whole) == Plug(c, t);
      InOrderPlug(c.up.up, whole);
      if IsRed(Sibling(c.up)) {
        FixInsertInOrder(c.up.up, InsertRecolored(c, t));
        assert InOrder(InsertRecolored(c, t)) == InOrder(whole);
      } else {
        InOrderRotated(c, t);
        InOrderPlug(c.up.up, InsertRotated(c, t));
        InOrderBlacken(Plug(c.up.up, InsertRotated(c, t)));
      }
    }
  }

  // ----- delete fixup -----

  /** What one pass of the delete fixup's loop leaves: the hole to go on with
      and the subtree in it, or a finished subtree. */
  datatype Pass = Again(c: Path, t: Tree) | Finished(c: Path, t: Tree)

  /** Case 2 recolours the sibling, cases 3 and 4 rotate; `w` is the black sibling. */
  function RepairLeft(up: Path, t: Tree, k: Cell, w: Tree): Pass {
    if w.Leaf? || (!IsRed(w.l) && !IsRed(w.r)) then
      Again(up, Node(t, k, Redden(w)))
    else
      var v := if IsRed(w.r) then w else RotateRight(Redden(Node(Blacken(w.l), w.k, w.r)));
      Finished(up, Node(Node(t, Recolor(k, Black), v.l), Recolor(v.k, k.color), Blacken(v.r)))
  }

  function RepairRight(up: Path, t: Tree, k: Cell, w: Tree): Pass {
    if w.Leaf? || (!IsRed(w.l) && !IsRed(w.r)) then
      Again(up, Node(Redden(w), k, t))
    else
      var v := if IsRed(w.l) then w else RotateLeft(Redden(Node(w.l, w.k, Blacken(w.r))));
      Finished(up, Node(Blacken(v.l), Recolor(v.k, k.color), Node(v.r, Recolor(k, Black), t)))
  }

  /** Case 1: a red sibling becomes the black holder of a red holder. */
  function Straightened(c: Path): Path
    requires !c.Top? && IsRed(Sibling(c))
  {
    var w := Sibling(c);
    if c.InL? then InL(InL(c.up, Recolor(w.k, Black), w.r), Recolor(c.k, Red), w.l)
    else InR(w.r, Recolor(c.k, Red), InR(w.l, Recolor(w.k, Black), c.up))
  }

  /** The rest of the loop's body, for a black sibling. */
  function Repaired(c: Path, t: Tree): Pass
    requires !c.Top?
  {
    if c.InL? then RepairLeft(c.up, t, c.k, c.r) else RepairRight(c.up, t, c.k, c.l)
  }

  /** One pass of the loop with `t` in the hole of `c`. */
  function DeletePass(c: Path, t: Tree): Pass
    requires !c.Top?
  {
    if IsRed(Sibling(c)) then Repaired(Straightened(c), t) else Repaired(c, t)
  }

  /** A pass climbs, or moves one level down onto a red node and ends the loop. */
  lemma DeletePassProgress(c: Path, t: Tree)
    requires !c.Top? && DeletePass(c, t).Again?
    ensures DeletePass(c, t).t.Node?
    ensures Depth(DeletePass(c, t).c) < Depth(c)
         || (Depth(DeletePass(c, t).c) == Depth(c) && IsRed(DeletePass(c, t).t))
  {
    var w := Sibling(c);
    if IsRed(w) {
      assert Depth(c) == 1 + Depth(c.up);
    }
  }

  /** The black height the next hole asks for, whatever the subtree holds. */
  lemma {:induction false} PassHeight(c: Path, t: Tree, h: nat) returns (g: nat)
    requires !c.Top? && PathOk(c, h + 1)
    ensures DeletePass(c, t).Again? ==> PathOk(DeletePass(c, t).c, g + 1)
  {
    g := h;
    if IsRed(Sibling(c)) {
      StraightenedOk(c, h);
    } else {
      g := h + Weight(c.k);
    }
  }

  /** The whole tree after the delete fixup was started with `t` in the hole of `c`. */
  function FixDelete(c: Path, t: Tree): Tree
    decreases Depth(c), if IsRed(t) then 0 else 2
  {
    if c.Top? || IsRed(t) then Plug(c, Blacken(t)) else RunPass(c, t)
  }

  /** The fixup entered at the loop body. */
  function RunPass(c: Path, t: Tree): Tree
    requires !c.Top?
    decreases Depth(c), 1
  {
    var p := DeletePass(c, t);
    if p.Finished? then
      Blacken(Plug(p.c, p.t))
    else
      DeletePassProgress(c, t);
      FixDelete(p.c, p.t)
  }

  /** What is left to do after one pass, and that it is less. */
  lemma {:induction false} DeletePassGoal(c: Path, t: Tree)
    requires !c.Top?
    ensures var p := DeletePass(c, t);
            if p.Finished? then RunPass(c, t) == FixDelete(Top, Plug(p.c, p.t))
            else RunPass(c, t) == FixDelete(p.c, p.t) && p.t.Node? &&
                 (Depth(p.c) < Depth(c) || (Depth(p.c) == Depth(c) && IsRed(p.t)))
  {
    if DeletePass(c, t).Again? {
      DeletePassProgress(c, t);
    }
  }

  lemma {:induction false} FixDeleteInOrder(c: Path, t: Tree)
    ensures InOrder(FixDelete(c, t)) == Before(c) + InOrder(t) + After(c)
    decreases Depth(c), if IsRed(t) then 0 else 2
  {
    if c.Top? || IsRed(t) {
      InOrderPlug(c, Blacken(t));
    } else {
      RunPassInOrder(c, t);
    }
  }

  lemma {:induction false} RunPassInOrder(c: Path, t: Tree)
    requires !c.Top?
    ensures InOrder(RunPass(c, t)) == Before(c) + InOrder(t) + After(c)
    decreases Depth(c), 1
  {
    var p := DeletePass(c, t);
    DeletePassInOrder(c, t);
    if p.Finished? {
      InOrderPlug(p.c, p.t);
      InOrderBlacken(Plug(p.c, p.t));
    } else {
      DeletePassProgress(c, t);
      FixDeleteInOrder(p.c, p.t);
    }
  }

  lemma DeletePassInOrder(c: Path, t: Tree)
    requires !c.Top?
    ensures var p := DeletePass(c, t);
            Before(p.c) + InOrder(p.t) + After(p.c) == Before(c) + InOrder(t) + After(c)
  {
    var w := Sibling(c);
    if c.InL? {
      if IsRed(w) {
        RepairLeftInOrder(InL(c.up, Recolor(w.k, Black), w.r), t, Recolor(c.k, Red), w.l);
        Regroup(Before(c.up), InOrder(t), [EntryOf(c.k)], InOrder(w.l), [EntryOf(w.k)], InOrder(w.r), After(c.up));
      } else {
        RepairLeftInOrder(c.up, t, c.k, w);
        Regroup(Before(c.up), InOrder(t), [EntryOf(c.k)], InOrder(w), [], [], After(c.up));
      }
    } else {
      if IsRed(w) {
        RepairRightInOrder(InR(w.l, Recolor(w.k, Black), c.up), t, Recolor(c.k, Red), w.r);
        RegroupRight(Before(c.up), InOrder(w.l), [EntryOf(w.k)], InOrder(w.r), [EntryOf(c.k)], InOrder(t), After(c.up));
      } else {
        RepairRightInOrder(c.up, t, c.k, w);
        RegroupRight(Before(c.up), [], [], InOrder(w), [EntryOf(c.k)], InOrder(t), After(c.up));
      }
    }
  }

  lemma Regroup(b: seq<Entry>, t: seq<Entry>, k: seq<Entry>, wl: seq<Entry>, wk: seq<Entry>, wr: seq<Entry>, a: seq<Entry>)
    ensures b + (t + k + wl) + (wk + wr + a) == b + t + (k + (wl + wk + wr) + a)
    ensures b + (t + k + wl) + a == b + t + (k + wl + a)
  {
  }

  lemma RegroupRight(b: seq<Entry>, wl: seq<Entry>, wk: seq<Entry>, wr: seq<Entry>, k: seq<Entry>, t: seq<Entry>, a: seq<Entry>)
    ensures (b + wl + wk) + (wr + k + t) + a == (b + (wl + wk + wr) + k) + t + a
    ensures b + (wr + k + t) + a == (b + wr + k) + t + a
  {
  }

  lemma RepairLeftInOrder(up: Path, t: Tree, k: Cell, w: Tree)
    ensures var p := RepairLeft(up, t, k, w);
            p.c == up && InOrder(p.t) == InOrder(t) + [EntryOf(k)] + InOrder(w)
  {
    if w.Node? && (IsRed(w.l) || IsRed(w.r)) {
      var u := Redden(Node(Blacken(w.l), w.k, w.r));
      InOrderRotateRight(u);
      var v := if IsRed(w.r) then w else RotateRight(u);
      InOrderRotateLeft(Node(t, k, v));
    }
  }

  lemma RepairRightInOrder(up: Path, t: Tree, k: Cell, w: Tree)
    ensures var p := RepairRight(up, t, k, w);
            p.c == up && InOrder(p.t) == InOrder(w) + [EntryOf(k)] + InOrder(t)
  {
    if w.Node? && (IsRed(w.l) || IsRed(w.r)) {
      var u := Redden(Node(w.l, w.k, Blacken(w.r)));
      InOrderRotateLeft(u);
      var v := if IsRed(w.l) then w else RotateLeft(u);
      InOrderRotateRight(Node(v, k, t));
    }
  }

  /** `t` is one black node short of what its place in `c` asks for; its root
      may be a red node with a red child, which ends the loop. */
  predicate Short(c: Path, t: Tree) {
    RbOk(Blacken(t)) && PathOk(c, BlackHeight(t) + 1)
  }

  lemma {:induction false} FixDeleteRedBlack(c: Path, t: Tree)
    requires Short(c, t)
    ensures RedBlack(FixDelete(c, t))
    decreases Depth(c), if IsRed(t) then 0 else 1
  {
    if c.Top? || IsRed(t) {
      PlugRedBlack(c, Blacken(t));
    } else {
      var p := DeletePass(c, t);
      assert Blacken(t) == t;
      DeletePassOk(c, t);
      if p.Finished? {
        PlugRedBlack(p.c, p.t);
      } else {
        DeletePassProgress(c, t);
        FixDeleteRedBlack(p.c, p.t);
      }
    }
  }

  lemma {:induction false} StraightenedOk(c: Path, h: nat)
    requires !c.Top? && IsRed(Sibling(c)) && PathOk(c, h + 1)
    ensures PathOk(Straightened(c), h + 1) && !IsRed(Sibling(Straightened(c)))
    ensures Sibling(Straightened(c)).Node?
  {
    var w := Sibling(c);
    assert PathOk(c.up, h + 1 + Weight(c.k)) && RbOk(w.l) && RbOk(w.r);
    assert PathOk(Straightened(c).up, h + 1);
  }

  lemma {:induction false} DeletePassOk(c: Path, t: Tree)
    requires !c.Top? && Short(c, t) && !IsRed(t)
    ensures var p := DeletePass(c, t);
            if p.Again? then Short(p.c, p.t)
            else RbOk(p.t) && PathOk(p.c, BlackHeight(p.t)) && (IsRed(p.t) ==> HolderBlack(p.c))
  {
    assert Blacken(t) == t;
    if IsRed(Sibling(c)) {
      StraightenedOk(c, BlackHeight(t));
      RepairedOk(Straightened(c), t);
    } else {
      RepairedOk(c, t);
    }
  }

  lemma {:induction false} RepairedOk(c: Path, t: Tree)
    requires !c.Top? && RbOk(t) && PathOk(c, BlackHeight(t) + 1) && !IsRed(t) && !IsRed(Sibling(c))
    ensures var p := Repaired(c, t);
            if p.Again? then Short(p.c, p.t)
            else RbOk(p.t) && PathOk(p.c, BlackHeight(p.t)) && (IsRed(p.t) ==> HolderBlack(p.c))
  {
    if c.InL? {
      RepairLeftOk(c.up, t, c.k, c.r);
    } else {
      RepairRightOk(c.up, t, c.k, c.l);
    }
  }

  /** Case 3 moves the sibling's red child to the far side. */
  lemma {:induction false} OuterLeft(w: Tree)
    requires RbOk(w) && w.Node? && !IsRed(w) && (IsRed(w.l) || IsRed(w.r))
    ensures var v := if IsRed(w.r) then w else RotateRight(Redden(Node(Blacken(w.l), w.k, w.r)));
            RbOk(v.l) && RbOk(Blacken(v.r)) && IsRed(v.r) && BlackHeight(v.l) == BlackHeight(w.l) == BlackHeight(v.r)
  {
    assert RbOk(w.l) && RbOk(w.r);
  }

  lemma {:induction false} RotatedLeftOk(t: Tree, k: Cell, v: Tree, h: nat)
    requires RbOk(t) && !IsRed(t) && BlackHeight(t) == h
    requires v.Node? && RbOk(v.l) && RbOk(Blacken(v.r)) && IsRed(v.r) && BlackHeight(v.l) == BlackHeight(v.r) == h
    ensures var u := Node(Node(t, Recolor(k, Black), v.l), Recolor(v.k, k.color), Blacken(v.r));
            RbOk(u) && BlackHeight(u) == h + 1 + Weight(k) && IsRed(u) == k.color.Red?
  {
    assert RbOk(Node(t, Recolor(k, Black), v.l));
  }

  lemma {:induction false} RepairLeftOk(up: Path, t: Tree, k: Cell, w: Tree)
    requires RbOk(t) && !IsRed(t) && RbOk(w) && !IsRed(w) && BlackHeight(w) == BlackHeight(t) + 1
    requires PathOk(up, BlackHeight(t) + 1 + Weight(k)) && (k.color.Red? ==> HolderBlack(up))
    ensures var p := RepairLeft(up, t, k, w);
            if p.Again? then Short(p.c, p.t)
            else RbOk(p.t) && PathOk(p.c, BlackHeight(p.t)) && (IsRed(p.t) ==> HolderBlack(p.c))
  {
    assert RbOk(w.l) && RbOk(w.r) && BlackHeight(w.l) == BlackHeight(w.r) == BlackHeight(t);
    if IsRed(w.l) || IsRed(w.r) {
      OuterLeft(w);
      RotatedLeftOk(t, k, if IsRed(w.r) then w else RotateRight(Redden(Node(Blacken(w.l), w.k, w.r))), BlackHeight(t));
    }
  }

  /** Case 3 moves the sibling's red child to the far side. */
  lemma {:induction false} OuterRight(w: Tree)
    requires RbOk(w) && w.Node? && !IsRed(w) && (IsRed(w.l) || IsRed(w.r))
    ensures var v := if IsRed(w.l) then w else RotateLeft(Redden(Node(w.l, w.k, Blacken(w.r))));
            RbOk(v.r) && RbOk(Blacken(v.l)) && IsRed(v.l) && BlackHeight(v.r) == BlackHeight(w.l) == BlackHeight(v.l)
  {
    assert RbOk(w.l) && RbOk(w.r);
  }

  lemma {:induction false} RotatedRightOk(t: Tree, k: Cell, v: Tree, h: nat)
    requires RbOk(t) && !IsRed(t) && BlackHeight(t) == h
    requires v.Node? && RbOk(v.r) && RbOk(Blacken(v.l)) && IsRed(v.l) && BlackHeight(v.r) == BlackHeight(v.l) == h
    ensures var u := Node(Blacken(v.l), Recolor(v.k, k.color), Node(v.r, Recolor(k, Black), t));
            RbOk(u) && BlackHeight(u) == h + 1 + Weight(k) && IsRed(u) == k.color.Red?
  {
    assert RbOk(Node(v.r, Recolor(k, Black), t));
  }

  lemma {:induction false} RepairRightOk(up: Path, t: Tree, k: Cell, w: Tree)
    requires RbOk(t) && !IsRed(t) && RbOk(w) && !IsRed(w) && BlackHeight(w) == BlackHeight(t) + 1
    requires PathOk(up, BlackHeight(t) + 1 + Weight(k)) && (k.color.Red? ==> HolderBlack(up))
    ensures var p := RepairRight(up, t, k, w);
            if p.Again? then Short(p.c, p.t)
            else RbOk(p.t) && PathOk(p.c, BlackHeight(p.t)) && (IsRed(p.t) ==> HolderBlack(p.c))
  {
    assert RbOk(w.l) && RbOk(w.r) && BlackHeight(w.l) == BlackHeight(w.r) == BlackHeight(t);
    if IsRed(w.l) || IsRed(w.r) {
      OuterRight(w);
      RotatedRightOk(t, k, if IsRed(w.l) then w else RotateLeft(Redden(Node(w.l, w.k, Blacken(w.r)))), BlackHeight(t));
    }
  }

  /** The fixup never looks inside the subtree in the hole, so it cannot cure one
      that is unbalanced itself. */
  lemma {:induction false} FixDeleteUnbalanced(c: Path, t: Tree)
    requires !Balanced(t)
    ensures !Balanced(FixDelete(c, t))
    decreases Depth(c), if IsRed(t) then 0 else 2
  {
    if c.Top? || IsRed(t) {
      PlugUnbalanced(c, Blacken(t));
    } else {
      RunPassUnbalanced(c, t);
    }
  }

  lemma {:induction false} RunPassUnbalanced(c: Path, t: Tree)
    requires !c.Top? && !Balanced(t)
    ensures !Balanced(RunPass(c, t))
    decreases Depth(c), 1
  {
    var p := DeletePass(c, t);
    assert !Balanced(p.t);
    if p.Finished? {
      PlugUnbalanced(p.c, p.t);
    } else {
      DeletePassProgress(c, t);
      FixDeleteUnbalanced(p.c, p.t);
    }
  }
}
