/** The red-black multimap as a map from keys to value stacks: one operation,
    and every run of operations from the empty tree. */
module RbRuns {
  import opened Machine
  import opened RbShape
  import opened RbMap

  predicate Valid(t: Tree) {
    RedBlack(t) && ValidEntries(InOrder(t))
  }

  /** The values bound to `key`, newest first. */
  function Stack(t: Tree, key: Key): seq<Pointer> {
    ValuesIn(ChainOf(InOrder(t), Hash(key)), key)
  }

  // ----- one operation -----

  /** The entries left of, at and right of the root of `u` in the hole of `c`. */
  function Lefts(c: Path, u: Tree): seq<Entry> {
    if u.Leaf? then Before(c) else Before(c) + InOrder(u.l)
  }

  function Own(u: Tree): seq<Entry> {
    if u.Leaf? then [] else [EntryOf(u.k)]
  }

  function Rights(c: Path, u: Tree): seq<Entry> {
    if u.Leaf? then After(c) else InOrder(u.r) + After(c)
  }

  lemma {:induction false} SplitAt(c: Path, u: Tree)
    ensures InOrder(Plug(c, u)) == Lefts(c, u) + Own(u) + Rights(c, u)
  {
    InOrderPlug(c, u);
    if u.Node? {
      Regroup3(Before(c), InOrder(u.l), [EntryOf(u.k)], InOrder(u.r), After(c));
    }
  }

  lemma Regroup3(a: seq<Entry>, l: seq<Entry>, k: seq<Entry>, r: seq<Entry>, b: seq<Entry>)
    ensures a + (l + k + r) + b == (a + l) + k + (r + b)
    ensures a + (l + r) + b == (a + l) + [] + (r + b)
  {
  }

  /** The place of a hash in a valid tree: everything left of it is smaller,
      everything right of it larger. */
  lemma {:induction false} Located(t: Tree, h: nat)
    requires ValidEntries(InOrder(t))
    ensures var (c, u) := Seek(Top, t, h);
            && Plug(c, u) == t && (u.Node? ==> u.k.hash == h)
            && Around(t, h, Lefts(c, u), Own(u), Rights(c, u))
  {
    var (c, u) := Seek(Top, t, h);
    SeekPlug(Top, t, h);
    assert Before(Top) + InOrder(t) + After(Top) == InOrder(t);
    SeekSplits(Top, t, h);
    SplitAt(c, u);
  }

  /** The entries around the place of hash `h`. */
  ghost predicate Around(t: Tree, h: nat, a: seq<Entry>, x: seq<Entry>, b: seq<Entry>) {
    Below(a, h) && Above(b, h) && InOrder(t) == a + x + b && |x| <= 1 && forall e | e in x :: e.hash == h
  }

  /** Two trees that differ only in the chain of one hash. */
  lemma {:induction false} StackElsewhere(t: Tree, u: Tree, h: nat, a: seq<Entry>, x: seq<Entry>, y: seq<Entry>, b: seq<Entry>, key: Key)
    requires Around(t, h, a, x, b) && Around(u, h, a, y, b)
    ensures Hash(key) != h ==> Stack(u, key) == Stack(t, key)
    ensures Hash(key) == h ==> Stack(t, key) == ValuesIn(if x == [] then [] else x[0].list, key)
    ensures Hash(key) == h ==> Stack(u, key) == ValuesIn(if y == [] then [] else y[0].list, key)
  {
    ChainOfBetween(a, x, b, h, Hash(key));
    ChainOfBetween(a, y, b, h, Hash(key));
  }

  /** `rbtree_sp_get` returns the newest value, NULL for an absent key. */
  lemma {:induction false} GetNewest(t: Tree, key: Key)
    requires ValidEntries(InOrder(t))
    ensures Get(t, key) == Newest(Stack(t, key))
  {
    var h := Hash(key);
    var (c, u) := Seek(Top, t, h);
    Located(t, h);
    ChainOfBetween(Lefts(c, u), Own(u), Rights(c, u), h, h);
    ChainGetNewest(if u.Node? then u.k.list else [], key);
  }

  lemma ChainValid(t: Tree, h: nat, a: seq<Entry>, x: seq<Entry>, b: seq<Entry>)
    requires ValidEntries(InOrder(t)) && Around(t, h, a, x, b) && x != []
    ensures ValidEntry(x[0]) && x[0].hash == h
  {
    assert x[0] in x && InOrder(t)[|a|] == x[0];
  }

  /** `Insert` changes one chain: the one of the key's hash gains a binding in front. */
  lemma {:induction false} InsertAround(t: Tree, node: RbNode, key: Key, value: Pointer)
    returns (a: seq<Entry>, x: seq<Entry>, b: seq<Entry>, e: Entry)
    requires ValidEntries(InOrder(t))
    ensures Around(t, Hash(key), a, x, b) && Around(Insert(t, node, key, value), Hash(key), a, [e], b)
    ensures e.list == [Binding(key, value)] + if x == [] then [] else x[0].list
  {
    var h := Hash(key);
    var (c, u) := Seek(Top, t, h);
    Located(t, h);
    a, x, b := Lefts(c, u), Own(u), Rights(c, u);
    if u.Node? {
      e := Entry(h, [Binding(key, value)] + u.k.list);
      SplitAt(c, Node(u.l, u.k.(list := e.list), u.r));
    } else {
      e := Entry(h, [Binding(key, value)]);
      assert e.list == [Binding(key, value)] + [];
      FixInsertInOrder(c, Node(Leaf, Cell(node, Red, h, e.list), Leaf));
      assert [] + [e] + [] == [e];
    }
  }

  lemma {:induction false} InsertRedBlack(t: Tree, node: RbNode, key: Key, value: Pointer)
    requires RedBlack(t)
    ensures RedBlack(Insert(t, node, key, value))
  {
    var (c, u) := Seek(Top, t, Hash(key));
    SeekPlug(Top, t, Hash(key));
    UnplugRedBlack(c, u);
    if u.Node? {
      PlugRedBlack(c, Node(u.l, u.k.(list := [Binding(key, value)] + u.k.list), u.r));
    } else {
      FixInsertRedBlack(c, Node(Leaf, Cell(node, Red, Hash(key), [Binding(key, value)]), Leaf));
    }
  }

  lemma PushedValues(list: Chain, key: Key, value: Pointer, other: Key)
    ensures ValuesIn([Binding(key, value)] + list, other) == (if other == key then [value] else []) + ValuesIn(list, other)
  {
    assert ([Binding(key, value)] + list)[1..] == list;
  }

  lemma {:induction false} PushStep(t: Tree, u: Tree, key: Key, value: Pointer, other: Key,
                                   a: seq<Entry>, x: seq<Entry>, b: seq<Entry>, e: Entry)
    requires ValidEntries(InOrder(t)) && Around(t, Hash(key), a, x, b) && Around(u, Hash(key), a, [e], b)
    requires e.list == [Binding(key, value)] + if x == [] then [] else x[0].list
    ensures ValidEntries(InOrder(u))
    ensures Stack(u, other) == (if other == key then [value] else []) + Stack(t, other)
  {
    if x != [] {
      ChainValid(t, Hash(key), a, x, b);
    }
    assert e in [e] && ValidEntry(e);
    ValidBetween(a, x, b, [e], Hash(key));
    StackElsewhere(t, u, Hash(key), a, x, [e], b, other);
    PushedValues(if x == [] then [] else x[0].list, key, value, other);
  }

  /** Insertion keeps the tree valid and pushes on the stack of its key only,
      whatever other keys share the hash. */
  lemma {:induction false} InsertPushes(t: Tree, node: RbNode, key: Key, value: Pointer, other: Key)
    requires Valid(t)
    ensures Valid(Insert(t, node, key, value))
    ensures Stack(Insert(t, node, key, value), other) ==
            (if other == key then [value] else []) + Stack(t, other)
  {
    InsertRedBlack(t, node, key, value);
    var a, x, b, e := InsertAround(t, node, key, value);
    PushStep(t, Insert(t, node, key, value), key, value, other, a, x, b, e);
  }

  /** `Delete` changes one chain: the key's newest binding goes, and with the
      last binding the entry. */
  lemma {:induction false} DeleteAround(t: Tree, key: Key, repaired: bool)
    returns (a: seq<Entry>, x: seq<Entry>, b: seq<Entry>, y: seq<Entry>)
    requires ValidEntries(InOrder(t))
    ensures Around(t, Hash(key), a, x, b) && Around(Delete(t, key, repaired), Hash(key), a, y, b)
    ensures var rest := if x == [] then [] else ChainDelete(x[0].list, key);
            y == if rest == [] then [] else [Entry(Hash(key), rest)]
  {
    var h := Hash(key);
    var (c, u) := Seek(Top, t, h);
    Located(t, h);
    a, x, b, y := Lefts(c, u), Own(u), Rights(c, u), [];
    if u.Node? {
      var rest := ChainDelete(u.k.list, key);
      var v := Node(u.l, u.k.(list := rest), u.r);
      if rest != [] {
        y := [Entry(h, rest)];
        SplitAt(c, v);
      } else {
        if repaired { RemoveRepairedInOrder(c, v); } else { RemoveAsWrittenInOrder(c, v); }
        Regroup3(Before(c), InOrder(u.l), [], InOrder(u.r), After(c));
      }
    }
  }

  /** The deletion of `key` unlinks a node whose successor is a deep black leaf.
      A caller can read this off the tree before the call. */
  predicate DeleteMisplaces(t: Tree, key: Key) {
    var u := Seek(Top, t, Hash(key)).1;
    u.Node? && ChainDelete(u.k.list, key) == [] && Misplaced(u)
  }

  lemma {:induction false} DeleteRedBlack(t: Tree, key: Key)
    requires RedBlack(t)
    ensures RedBlack(Delete(t, key, true))
    ensures RedBlack(Delete(t, key, false)) <==> !DeleteMisplaces(t, key)
    ensures !DeleteMisplaces(t, key) ==> Delete(t, key, false) == Delete(t, key, true)
  {
    var (c, u) := Seek(Top, t, Hash(key));
    SeekPlug(Top, t, Hash(key));
    if u.Node? {
      var v := Node(u.l, u.k.(list := ChainDelete(u.k.list, key)), u.r);
      UnplugRedBlack(c, u);
      PlugRedBlack(c, v);
      assert Misplaced(v) == Misplaced(u);
      RemoveRepairedRedBlack(c, v);
      RemoveAsWrittenExact(c, v);
    }
  }

  lemma {:induction false} PopStep(t: Tree, u: Tree, key: Key, other: Key,
                                  a: seq<Entry>, x: seq<Entry>, b: seq<Entry>, y: seq<Entry>)
    requires ValidEntries(InOrder(t)) && Around(t, Hash(key), a, x, b) && Around(u, Hash(key), a, y, b)
    requires var rest := if x == [] then [] else ChainDelete(x[0].list, key);
             y == if rest == [] then [] else [Entry(Hash(key), rest)]
    ensures ValidEntries(InOrder(u))
    ensures Stack(u, other) == if other == key then Popped(Stack(t, key)) else Stack(t, other)
  {
    if x != [] {
      ChainValid(t, Hash(key), a, x, b);
      ChainDeletePops(x[0].list, key, other);
    }
    ValidBetween(a, x, b, y, Hash(key));
    StackElsewhere(t, u, Hash(key), a, x, y, b, other);
  }

  /** Deletion pops one binding of its key and leaves every other key alone,
      also when the node goes; as written this holds even where balance is lost. */
  lemma {:induction false} DeletePops(t: Tree, key: Key, repaired: bool, other: Key)
    requires Valid(t)
    ensures ValidEntries(InOrder(Delete(t, key, repaired)))
    ensures Stack(Delete(t, key, repaired), other) == if other == key then Popped(Stack(t, key)) else Stack(t, other)
  {
    var a, x, b, y := DeleteAround(t, key, repaired);
    PopStep(t, Delete(t, key, repaired), key, other, a, x, b, y);
  }

  // ----- runs -----

  datatype Op = Put(node: RbNode, key: Key, value: Pointer) | Drop(key: Key)

  function Apply(t: Tree, op: Op, repaired: bool): Tree {
    match op
    case Put(node, key, value) => Insert(t, node, key, value)
    case Drop(key) => Delete(t, key, repaired)
  }

  /** The tree after the operations `ops` on the empty tree. */
  function Run(ops: seq<Op>, repaired: bool): Tree {
    if ops == [] then Leaf else Apply(Run(ops[..|ops| - 1], repaired), ops[|ops| - 1], repaired)
  }

  /** What a plain map from keys to stacks holds for `key` after `ops`. */
  function Model(ops: seq<Op>, key: Key): seq<Pointer> {
    if ops == [] then []
    else
      var before := Model(ops[..|ops| - 1], key);
      match ops[|ops| - 1]
      case Put(_, k, value) => if k == key then [value] + before else before
      case Drop(k) => if k == key then Popped(before) else before
  }

  /** With the repaired deletion every run keeps the tree valid and agrees with
      the map of stacks on every key. */
  lemma {:induction false} RunRefines(ops: seq<Op>, key: Key)
    ensures Valid(Run(ops, true))
    ensures Stack(Run(ops, true), key) == Model(ops, key)
    ensures Get(Run(ops, true), key) == Newest(Model(ops, key))
  {
    if ops != [] {
      var before := Run(ops[..|ops| - 1], true);
      RunRefines(ops[..|ops| - 1], key);
      match ops[|ops| - 1]
      case Put(node, k, value) =>
        InsertPushes(before, node, k, value, key);
      case Drop(k) =>
        DeletePops(before, k, true, key);
        DeleteRedBlack(before, k);
    }
    GetNewest(Run(ops, true), key);
  }

  /** No operation of `ops` deletes a misplaced node. */
  predicate Clean(ops: seq<Op>) {
    ops != [] ==>
      Clean(ops[..|ops| - 1]) &&
      (ops[|ops| - 1].Drop? ==> !DeleteMisplaces(Run(ops[..|ops| - 1], false), ops[|ops| - 1].key))
  }

  /** The trees on the way of the run as written are all valid. */
  predicate StaysValid(ops: seq<Op>) {
    Valid(Run(ops, false)) && (ops != [] ==> StaysValid(ops[..|ops| - 1]))
  }

  /** As written, a run keeps every tree on its way valid exactly when it is
      clean, and then it is the repaired run; a run of insertions always is. */
  lemma {:induction false} RunAsWrittenExact(ops: seq<Op>)
    ensures Clean(ops) <==> StaysValid(ops)
    ensures Clean(ops) ==> Run(ops, false) == Run(ops, true)
    ensures (forall op | op in ops :: op.Put?) ==> Clean(ops)
  {
    if ops != [] {
      var init, op := ops[..|ops| - 1], ops[|ops| - 1];
      assert op in ops;
      RunAsWrittenExact(init);
      if Clean(init) {
        var before := Run(init, false);
        match op
        case Put(node, k, value) =>
          InsertPushes(before, node, k, value, k);
        case Drop(k) =>
          DeletePops(before, k, false, k);
          DeleteRedBlack(before, k);
      }
    }
  }

  // ----- height -----

  function Size(t: Tree): nat {
    if t.Leaf? then 0 else Size(t.l) + 1 + Size(t.r)
  }

  function Height(t: Tree): nat {
    if t.Leaf? then 0 else 1 + if Height(t.l) < Height(t.r) then Height(t.r) else Height(t.l)
  }

  lemma {:induction false} Pow2Sum(a: nat, b: nat)
    ensures Pow2(a + b) == Pow2(a) * Pow2(b)
    decreases a
  {
    if a > 0 {
      Pow2Sum(a - 1, b);
    }
  }

  lemma {:induction false} Pow2Up(a: nat, b: nat)
    requires a <= b
    ensures Pow2(a) <= Pow2(b)
    decreases b
  {
    if a < b {
      Pow2Up(a, b - 1);
    }
  }

  lemma {:induction false} HeightOk(t: Tree)
    requires RbOk(t)
    ensures Height(t) <= 2 * BlackHeight(t) + (if IsRed(t) then 1 else 0)
    ensures Pow2(BlackHeight(t)) <= Size(t) + 1
  {
    if t.Node? {
      HeightOk(t.l);
      HeightOk(t.r);
    }
  }

  lemma SquareUp(a: nat, b: nat)
    requires a <= b
    ensures a * a <= b * b
  {
    assert a * a <= a * b;
    assert a * b <= b * b;
  }

  /** The height is at most 2 log2(n + 1), written without logarithms. */
  lemma {:induction false} HeightLogarithmic(t: Tree)
    requires RedBlack(t)
    ensures Pow2(Height(t)) <= (Size(t) + 1) * (Size(t) + 1)
  {
    HeightOk(t);
    var b, n := Pow2(BlackHeight(t)), Size(t) + 1;
    Pow2Up(Height(t), BlackHeight(t) + BlackHeight(t));
    Pow2Sum(BlackHeight(t), BlackHeight(t));
    SquareUp(b, n);
  }

  // ----- a deletion that loses balance -----

  /** A node with a key of one character, bound to value 1. */
  function Single(l: Tree, n: RbNode, i: int, color: Color, r: Tree): Tree
    requires 1 <= i < 128
  {
    Node(l, Cell(n, color, i, [Binding(Str([i]), 1)]), r)
  }

  lemma SingleHash(i: int)
    requires 1 <= i < 128
    ensures Hash(Str([i])) == i
  {
    var s: seq<CChar> := [i];
    assert s[..0] == [];
    assert HashChars(s) == (HashChars(s[..0]) * 131 + i) % 0x1_0000_0000;
  }

  /** The tree that inserting the characters 1 to 8 in order builds. */
  function Sample(n: seq<RbNode>): Tree
    requires |n| == 8
  {
    Single(
      Single(Single(Leaf, n[0], 1, Black, Leaf), n[1], 2, Red, Single(Leaf, n[2], 3, Black, Leaf)),
      n[3], 4, Black,
      Single(Single(Leaf, n[4], 5, Black, Leaf), n[5], 6, Red, Single(Leaf, n[6], 7, Black, Single(Leaf, n[7], 8, Red, Leaf))))
  }

  lemma SampleRedBlack(n: seq<RbNode>)
    requires |n| == 8
    ensures RedBlack(Sample(n))
  {
    var t := Sample(n);
    assert BlackHeight(Leaf) == 0;
    assert RbOk(t.l.l) && RbOk(t.l.r) && RbOk(t.r.l) && RbOk(t.r.r.r);
    assert BlackHeight(t.r.r.r) == BlackHeight(t.r.r.r.l);
    assert RbOk(t.l) && BlackHeight(t.l) == BlackHeight(t.r.l) == 1;
    assert RbOk(t.r.r) && BlackHeight(t.r.r) == 1;
    assert RbOk(t.r) && BlackHeight(t.r) == 1;
  }

  lemma SampleInOrder(n: seq<RbNode>, e: seq<Entry>)
    requires |n| == 8 == |e| && forall i | 0 <= i < 8 :: e[i] == Entry(i + 1, [Binding(Str([i + 1]), 1)])
    ensures InOrder(Sample(n)) == e
  {
    var t := Sample(n);
    assert InOrder(t.l.l) == e[..1] && InOrder(t.l.r) == e[2..3] && InOrder(t.r.l) == e[4..5];
    assert InOrder(t.l) == e[..3];
    assert InOrder(t.r.r.r) == e[7..];
    assert InOrder(t.r.r) == e[6..];
    assert InOrder(t.r) == e[4..];
    assert InOrder(t) == e;
  }

  lemma SampleEntries(n: seq<RbNode>)
    requires |n| == 8
    ensures ValidEntries(InOrder(Sample(n)))
  {
    forall i | 1 <= i <= 8 ensures Hash(Str([i])) == i { SingleHash(i); }
    var e := seq(8, i requires 0 <= i < 8 => Entry(i + 1, [Binding(Str([i + 1]), 1)]));
    SampleInOrder(n, e);
  }

  /** The insertions of the characters 1 to `k`. */
  function Puts(n: seq<RbNode>, k: nat): seq<Op>
    requires k <= |n| < 128
  {
    if k == 0 then [] else Puts(n, k - 1) + [Put(n[k - 1], Str([k]), 1)]
  }

  lemma PutsRun(n: seq<RbNode>, k: nat)
    requires 0 < k <= |n| < 128
    ensures Run(Puts(n, k), false) == Insert(Run(Puts(n, k - 1), false), n[k - 1], Str([k]), 1)
  {
    var ops := Puts(n, k);
    assert ops[..|ops| - 1] == Puts(n, k - 1);
  }

  // ----- building the sample: every new hash is the largest -----

  function Right(l: Tree, n: RbNode, i: int, color: Color, up: Path): Path
    requires 1 <= i < 128
  {
    InR(l, Cell(n, color, i, [Binding(Str([i]), 1)]), up)
  }

  lemma {:induction false} SeekRight(c: Path, l: Tree, n: RbNode, i: int, color: Color, r: Tree, h: nat)
    requires 1 <= i < 128 && i < h
    ensures Seek(c, Single(l, n, i, color, r), h) == Seek(Right(l, n, i, color, c), r, h)
  {
  }

  lemma {:induction false} PlugRight(l: Tree, n: RbNode, i: int, color: Color, up: Path, t: Tree)
    requires 1 <= i < 128
    ensures Plug(Right(l, n, i, color, up), t) == Plug(up, Single(l, n, i, color, t))
  {
  }

  /** A new hash goes to the empty place its descent ends in. */
  lemma {:induction false} PutAt(t: Tree, node: RbNode, i: int, c: Path)
    requires 1 <= i < 128 && Seek(Top, t, i) == Seek(c, Leaf, i)
    ensures Insert(t, node, Str([i]), 1) == FixInsert(c, Single(Leaf, node, i, Red, Leaf))
  {
    SingleHash(i);
  }

  lemma {:induction false} UnderBlack(l: Tree, n: RbNode, i: int, up: Path, t: Tree)
    requires 1 <= i < 128 && t.Node?
    ensures FixInsert(Right(l, n, i, Black, up), t) == Blacken(Plug(up, Single(l, n, i, Black, t)))
  {
  }

  lemma {:induction false} RedUncle(u: Tree, m: RbNode, j: int, l: Tree, n: RbNode, i: int, up: Path, t: Tree)
    requires 1 <= i < 128 && 1 <= j < 128 && t.Node? && IsRed(u)
    ensures FixInsert(Right(l, n, i, Red, Right(u, m, j, Black, up)), t) ==
            FixInsert(up, Single(Blacken(u), m, j, Red, Single(l, n, i, Black, t)))
  {
  }

  lemma {:induction false} BlackUncle(u: Tree, m: RbNode, j: int, l: Tree, n: RbNode, i: int, up: Path, t: Tree)
    requires 1 <= i < 128 && 1 <= j < 128 && t.Node? && !IsRed(u)
    ensures FixInsert(Right(l, n, i, Red, Right(u, m, j, Black, up)), t) ==
            Blacken(Plug(up, Single(Single(u, m, j, Red, l), n, i, Black, t)))
  {
  }

  function Lone(n: RbNode, i: int, color: Color): Tree
    requires 1 <= i < 128
  {
    Single(Leaf, n, i, color, Leaf)
  }

  /** The tree of the characters 1 to `k`; the last one is `Sample`. */
  function Stage(n: seq<RbNode>, k: nat): Tree
    requires |n| == 8 && k <= 8
  {
    if k == 0 then Leaf
    else if k == 1 then Lone(n[0], 1, Black)
    else if k == 2 then Single(Leaf, n[0], 1, Black, Lone(n[1], 2, Red))
    else if k == 3 then Single(Lone(n[0], 1, Red), n[1], 2, Black, Lone(n[2], 3, Red))
    else if k == 4 then Single(Lone(n[0], 1, Black), n[1], 2, Black, Single(Leaf, n[2], 3, Black, Lone(n[3], 4, Red)))
    else if k == 5 then
      Single(Lone(n[0], 1, Black), n[1], 2, Black, Single(Lone(n[2], 3, Red), n[3], 4, Black, Lone(n[4], 5, Red)))
    else if k == 6 then
      Single(Lone(n[0], 1, Black), n[1], 2, Black,
        Single(Lone(n[2], 3, Black), n[3], 4, Red, Single(Leaf, n[4], 5, Black, Lone(n[5], 6, Red))))
    else if k == 7 then
      Single(Lone(n[0], 1, Black), n[1], 2, Black,
        Single(Lone(n[2], 3, Black), n[3], 4, Red, Single(Lone(n[4], 5, Red), n[5], 6, Black, Lone(n[6], 7, Red))))
    else Sample(n)
  }

  /** Below a black node. */
  lemma {:induction false} PutUnderBlack(t: Tree, node: RbNode, i: int, up: Path, l: Tree, n: RbNode, j: int)
    requires 1 <= j < i < 128
    requires Seek(Top, t, i) == Seek(up, Single(l, n, j, Black, Leaf), i)
    ensures Insert(t, node, Str([i]), 1) == Blacken(Plug(up, Single(l, n, j, Black, Lone(node, i, Red))))
  {
    SeekRight(up, l, n, j, Black, Leaf, i);
    PutAt(t, node, i, Right(l, n, j, Black, up));
    UnderBlack(l, n, j, up, Lone(node, i, Red));
  }

  /** Below a red node with an empty sibling. */
  lemma {:induction false} PutRotates(t: Tree, node: RbNode, i: int, up: Path, m: RbNode, k: int, n: RbNode, j: int)
    requires 1 <= k < j < i < 128
    requires Seek(Top, t, i) == Seek(up, Single(Leaf, m, k, Black, Lone(n, j, Red)), i)
    ensures Insert(t, node, Str([i]), 1) == Blacken(Plug(up, Single(Lone(m, k, Red), n, j, Black, Lone(node, i, Red))))
  {
    SeekRight(up, Leaf, m, k, Black, Lone(n, j, Red), i);
    SeekRight(Right(Leaf, m, k, Black, up), Leaf, n, j, Red, Leaf, i);
    PutAt(t, node, i, Right(Leaf, n, j, Red, Right(Leaf, m, k, Black, up)));
    BlackUncle(Leaf, m, k, Leaf, n, j, up, Lone(node, i, Red));
  }

  /** Below a red node with the red sibling `u`. */
  lemma {:induction false} PutRecolors(t: Tree, node: RbNode, i: int, up: Path, u: Tree, m: RbNode, k: int, n: RbNode, j: int)
    requires 1 <= k < j < i < 128 && IsRed(u)
    requires Seek(Top, t, i) == Seek(up, Single(u, m, k, Black, Lone(n, j, Red)), i)
    ensures Insert(t, node, Str([i]), 1) ==
            FixInsert(up, Single(Blacken(u), m, k, Red, Single(Leaf, n, j, Black, Lone(node, i, Red))))
  {
    SeekRight(up, u, m, k, Black, Lone(n, j, Red), i);
    SeekRight(Right(u, m, k, Black, up), Leaf, n, j, Red, Leaf, i);
    PutAt(t, node, i, Right(Leaf, n, j, Red, Right(u, m, k, Black, up)));
    RedUncle(u, m, k, Leaf, n, j, up, Lone(node, i, Red));
  }

  lemma {:induction false} BuiltTo4(n: seq<RbNode>)
    requires |n| == 8
    ensures Insert(Leaf, n[0], Str([1]), 1) == Stage(n, 1) && Insert(Stage(n, 1), n[1], Str([2]), 1) == Stage(n, 2)
    ensures Insert(Stage(n, 2), n[2], Str([3]), 1) == Stage(n, 3)
    ensures Insert(Stage(n, 3), n[3], Str([4]), 1) == Stage(n, 4)
  {
    PutAt(Leaf, n[0], 1, Top);
    PutUnderBlack(Stage(n, 1), n[1], 2, Top, Leaf, n[0], 1);
    PutRotates(Stage(n, 2), n[2], 3, Top, n[0], 1, n[1], 2);
    PutRecolors(Stage(n, 3), n[3], 4, Top, Lone(n[0], 1, Red), n[1], 2, n[2], 3);
  }

  lemma {:induction false} Built5(n: seq<RbNode>)
    requires |n| == 8
    ensures Insert(Stage(n, 4), n[4], Str([5]), 1) == Stage(n, 5)
  {
    var l, u := Lone(n[0], 1, Black), Single(Leaf, n[2], 3, Black, Lone(n[3], 4, Red));
    SeekRight(Top, l, n[1], 2, Black, u, 5);
    PutRotates(Stage(n, 4), n[4], 5, Right(l, n[1], 2, Black, Top), n[2], 3, n[3], 4);
  }

  lemma {:induction false} Built6(n: seq<RbNode>)
    requires |n| == 8
    ensures Insert(Stage(n, 5), n[5], Str([6]), 1) == Stage(n, 6)
  {
    var l, u := Lone(n[0], 1, Black), Single(Lone(n[2], 3, Red), n[3], 4, Black, Lone(n[4], 5, Red));
    SeekRight(Top, l, n[1], 2, Black, u, 6);
    PutRecolors(Stage(n, 5), n[5], 6, Right(l, n[1], 2, Black, Top), Lone(n[2], 3, Red), n[3], 4, n[4], 5);
    UnderBlack(l, n[1], 2, Top, Single(Lone(n[2], 3, Black), n[3], 4, Red, Single(Leaf, n[4], 5, Black, Lone(n[5], 6, Red))));
  }

  lemma {:induction false} Built7(n: seq<RbNode>)
    requires |n| == 8
    ensures Insert(Stage(n, 6), n[6], Str([7]), 1) == Stage(n, 7)
  {
    var l, m := Lone(n[0], 1, Black), Lone(n[2], 3, Black);
    var v := Single(Leaf, n[4], 5, Black, Lone(n[5], 6, Red));
    SeekRight(Top, l, n[1], 2, Black, Single(m, n[3], 4, Red, v), 7);
    SeekRight(Right(l, n[1], 2, Black, Top), m, n[3], 4, Red, v, 7);
    PutRotates(Stage(n, 6), n[6], 7, Right(m, n[3], 4, Red, Right(l, n[1], 2, Black, Top)), n[4], 5, n[5], 6);
    var w := Single(Lone(n[4], 5, Red), n[5], 6, Black, Lone(n[6], 7, Red));
    PlugRight(m, n[3], 4, Red, Right(l, n[1], 2, Black, Top), w);
    PlugRight(l, n[1], 2, Black, Top, Single(m, n[3], 4, Red, w));
  }

  /** The uncle of 8 is red, the one of 6 is black. */
  lemma {:induction false} Built8(n: seq<RbNode>)
    requires |n| == 8
    ensures Insert(Stage(n, 7), n[7], Str([8]), 1) == Stage(n, 8)
  {
    var l, m, u := Lone(n[0], 1, Black), Lone(n[2], 3, Black), Lone(n[4], 5, Red);
    var v := Single(u, n[5], 6, Black, Lone(n[6], 7, Red));
    var up := Right(m, n[3], 4, Red, Right(l, n[1], 2, Black, Top));
    SeekRight(Top, l, n[1], 2, Black, Single(m, n[3], 4, Red, v), 8);
    SeekRight(Right(l, n[1], 2, Black, Top), m, n[3], 4, Red, v, 8);
    PutRecolors(Stage(n, 7), n[7], 8, up, u, n[5], 6, n[6], 7);
    BlackUncle(l, n[1], 2, m, n[3], 4, Top, Single(Blacken(u), n[5], 6, Red, Single(Leaf, n[6], 7, Black, Lone(n[7], 8, Red))));
  }

  lemma {:induction false} Builds(n: seq<RbNode>, k: nat)
    requires |n| == 8 && 0 < k <= 8
    ensures Insert(Stage(n, k - 1), n[k - 1], Str([k]), 1) == Stage(n, k)
  {
    if k <= 4 {
      BuiltTo4(n);
    } else if k == 5 {
      Built5(n);
    } else if k == 6 {
      Built6(n);
    } else if k == 7 {
      Built7(n);
    } else {
      Built8(n);
    }
  }

  lemma {:induction false} SampleBuilt(n: seq<RbNode>, k: nat)
    requires |n| == 8 && k <= 8
    ensures Run(Puts(n, k), false) == Stage(n, k)
  {
    if k > 0 {
      SampleBuilt(n, k - 1);
      PutsRun(n, k);
      Builds(n, k);
    }
  }

  /** As written, deleting the root of this valid tree loses balance: its
      successor 5 is a black leaf below 6. */
  lemma {:induction false} WrittenDeletionLosesBalance(n: seq<RbNode>)
    requires |n| == 8
    ensures Valid(Sample(n)) && DeleteMisplaces(Sample(n), Str([4]))
    ensures !RedBlack(Delete(Sample(n), Str([4]), false)) && RedBlack(Delete(Sample(n), Str([4]), true))
  {
    var t := Sample(n);
    SampleRedBlack(n);
    SampleEntries(n);
    SingleHash(4);
    assert Seek(Top, t, 4).1 == t;
    assert ChainDelete(t.k.list, Str([4])) == [];
    assert Leftmost(Top, t.r).1 == t.r.l;
    DeleteRedBlack(t, Str([4]));
  }

  /** The failing tree is reachable: eight insertions and one deletion, as
      written, leave the red-black trees. */
  lemma {:induction false} ReachesLostBalance(n: seq<RbNode>)
    requires |n| == 8
    ensures Run(Puts(n, 8), false) == Sample(n) && StaysValid(Puts(n, 8))
    ensures !Valid(Run(Puts(n, 8) + [Drop(Str([4]))], false)) && !StaysValid(Puts(n, 8) + [Drop(Str([4]))])
  {
    var ops := Puts(n, 8) + [Drop(Str([4]))];
    SampleBuilt(n, 8);
    WrittenDeletionLosesBalance(n);
    PutsOnly(n, 8);
    RunAsWrittenExact(Puts(n, 8));
    assert ops[..|ops| - 1] == Puts(n, 8);
  }

  lemma {:induction false} PutsOnly(n: seq<RbNode>, k: nat)
    requires k <= |n| < 128
    ensures forall op | op in Puts(n, k) :: op.Put?
  {
    if k > 0 {
      PutsOnly(n, k - 1);
    }
  }
}
