/** The kernel's locked queue: a doubly linked list with a cursor and numbered nodes. */
module LockQueue {
  import opened Machine

  /** `(size_t)-1`, the answer of a failed call. */
  const NONE: nat := 0xffff_ffff_ffff_ffff

  datatype Item = Item(index: nat, data: nat)

  // ----- the meaning: a sequence of numbered items -----

  /** The items from the oldest on, the number for the next one, and the number of the item at the cursor. */
  datatype State = State(items: seq<Item>, next: nat, cursor: Option<nat>)

  const EMPTY: State := State([], 0, None)

  predicate Uses(items: seq<Item>, id: nat) {
    exists i | 0 <= i < |items| :: items[i].index == id
  }

  /** Numbers are distinct and below the next one, and the cursor is at an item. */
  predicate Ok(s: State) {
    (forall i, j | 0 <= i < j < |s.items| :: s.items[i].index != s.items[j].index) &&
    (forall i | 0 <= i < |s.items| :: s.items[i].index < s.next) && s.next <= NONE &&
    (s.cursor.Some? ==> Uses(s.items, s.cursor.value))
  }

  /** A new item at the end; a cursor that was nowhere moves to the first item. */
  function Appended(s: State, item: Item): State {
    var items := s.items + [item];
    State(items, if item.index >= s.next then item.index + 1 else s.next,
          if s.cursor.None? then Some(items[0].index) else s.cursor)
  }

  function Without<T>(q: seq<T>, k: nat): (r: seq<T>)
    requires k < |q|
    ensures |r| == |q| - 1
    ensures forall i | 0 <= i < |r| :: r[i] == if i < k then q[i] else q[i + 1]
  {
    q[..k] + q[k + 1..]
  }

  /** Item `k` leaves; a cursor at it, or nowhere, moves to the item after it, or to the first. */
  function Removed(s: State, k: nat): State
    requires k < |s.items|
  {
    var items := Without(s.items, k);
    State(items, s.next,
          if items == [] then None
          else if s.cursor.None? || s.cursor.value == s.items[k].index then
            Some(if k < |items| then items[k].index else items[0].index)
          else s.cursor)
  }

  /** The first item leaves; a cursor at it moves to the next, and a cursor nowhere stays. */
  function Dequeued(s: State): State
    requires s.items != []
  {
    var items := s.items[1..];
    State(items, s.next,
          if s.cursor == Some(s.items[0].index) then (if items == [] then None else Some(items[0].index)) else s.cursor)
  }

  /** The position of the number, or the length. */
  function Find(items: seq<Item>, id: nat): (k: nat)
    ensures k <= |items| && (k < |items| <==> Uses(items, id))
    ensures k < |items| ==> items[k].index == id
    ensures forall i | 0 <= i < k :: items[i].index != id
  {
    if items == [] || items[0].index == id then 0
    else
      var k := Find(items[1..], id);
      assert forall i | 1 <= i < k + 1 :: items[i] == items[1..][i - 1];
      assert Uses(items, id) ==> Uses(items[1..], id) by {
        if Uses(items, id) {
          var i :| 0 <= i < |items| && items[i].index == id;
          assert items[1..][i - 1] == items[i];
        }
      }
      k + 1
  }

  // ----- runs -----

  datatype Op = Enqueue(data: nat) | EnqueueLowest(data: nat) | EnqueueId(data: nat, id: nat) | RemoveAt(id: nat) | Dequeue

  /** The least number no item has. */
  function Lowest(items: seq<Item>, from: nat, bound: nat): (id: nat)
    requires from <= bound && !Uses(items, bound)
    ensures from <= id <= bound && !Uses(items, id) && forall j | from <= j < id :: Uses(items, j)
    decreases bound - from
  {
    if Uses(items, from) then Lowest(items, from + 1, bound) else from
  }

  lemma NextUnused(s: State)
    requires Ok(s)
    ensures !Uses(s.items, s.next)
  {
  }

  function LowestOf(s: State): (id: nat)
    requires Ok(s)
    ensures id <= s.next && !Uses(s.items, id) && forall j | 0 <= j < id :: Uses(s.items, j)
  {
    NextUnused(s);
    Lowest(s.items, 0, s.next)
  }

  function Apply(s: State, op: Op): (r: State)
    requires Ok(s)
  {
    match op
    case Enqueue(data) => if s.next == NONE then s else Appended(s, Item(s.next, data))
    case EnqueueLowest(data) =>
      var id := LowestOf(s);
      if id == NONE then s else Appended(s, Item(id, data))
    case EnqueueId(data, id) => if id >= NONE || Uses(s.items, id) then s else Appended(s, Item(id, data))
    case RemoveAt(id) => if Uses(s.items, id) then Removed(s, Find(s.items, id)) else s
    case Dequeue => if s.items == [] then s else Dequeued(s)
  }

  lemma AppendedOk(s: State, item: Item)
    requires Ok(s) && item.index < NONE && !Uses(s.items, item.index)
    ensures Ok(Appended(s, item))
  {
    var r := Appended(s, item);
    forall i | 0 <= i < |s.items|
      ensures r.items[i] == s.items[i] && r.items[i].index != item.index
    {
    }
    if s.cursor.Some? {
      var i :| 0 <= i < |s.items| && s.items[i].index == s.cursor.value;
      assert r.items[i].index == s.cursor.value;
    } else {
      assert r.items[0].index == r.cursor.value;
    }
  }

  lemma RemovedOk(s: State, k: nat)
    requires Ok(s) && k < |s.items|
    ensures Ok(Removed(s, k))
  {
    var r := Removed(s, k);
    if r.cursor.Some? {
      if r.cursor == s.cursor && s.cursor.value != s.items[k].index {
        var i :| 0 <= i < |s.items| && s.items[i].index == s.cursor.value;
        assert r.items[if i < k then i else i - 1] == s.items[i];
      } else {
        assert r.items[if k < |r.items| then k else 0].index == r.cursor.value;
      }
    }
  }

  lemma DequeuedOk(s: State)
    requires Ok(s) && s.items != []
    ensures Ok(Dequeued(s))
  {
    var r := Dequeued(s);
    forall i | 0 <= i < |r.items|
      ensures r.items[i] == s.items[i + 1]
    {
    }
    if s.cursor.Some? && s.cursor.value != s.items[0].index {
      var i :| 0 <= i < |s.items| && s.items[i].index == s.cursor.value;
      assert r.items[i - 1].index == s.cursor.value;
    } else if r.cursor.Some? {
      assert r.items[0].index == r.cursor.value;
    }
  }

  lemma ApplyOk(s: State, op: Op)
    requires Ok(s)
    ensures Ok(Apply(s, op))
  {
    NextUnused(s);
    match op
    case Enqueue(data) =>
      if s.next < NONE { AppendedOk(s, Item(s.next, data)); }
    case EnqueueLowest(data) =>
      var id := LowestOf(s);
      if id != NONE { AppendedOk(s, Item(id, data)); }
    case EnqueueId(data, id) =>
      if id < NONE && !Uses(s.items, id) { AppendedOk(s, Item(id, data)); }
    case RemoveAt(id) =>
      if Uses(s.items, id) { RemovedOk(s, Find(s.items, id)); }
    case Dequeue =>
      if s.items != [] { DequeuedOk(s); }
  }

  function Run(s: State, ops: seq<Op>): (r: State)
    requires Ok(s)
    ensures Ok(r)
    decreases |ops|
  {
    if ops == [] then s else ApplyOk(s, ops[0]); Run(Apply(s, ops[0]), ops[1..])
  }

  function Data(items: seq<Item>): (d: seq<nat>)
    ensures |d| == |items|
  {
    seq(|items|, i requires 0 <= i < |items| => items[i].data)
  }

  /** What one operation puts in, and what it takes out of the front. */
  function In(s: State, op: Op): seq<nat>
    requires Ok(s)
  {
    if |Apply(s, op).items| > |s.items| then [op.data] else []
  }

  function Out(s: State, op: Op): seq<nat>
    requires Ok(s)
  {
    if op.Dequeue? && s.items != [] then [s.items[0].data] else []
  }

  function Ins(s: State, ops: seq<Op>): seq<nat>
    requires Ok(s)
    decreases |ops|
  {
    if ops == [] then [] else ApplyOk(s, ops[0]); In(s, ops[0]) + Ins(Apply(s, ops[0]), ops[1..])
  }

  function Outs(s: State, ops: seq<Op>): seq<nat>
    requires Ok(s)
    decreases |ops|
  {
    if ops == [] then [] else ApplyOk(s, ops[0]); Out(s, ops[0]) + Outs(Apply(s, ops[0]), ops[1..])
  }

  lemma OneIsFifo(s: State, op: Op)
    requires Ok(s) && !op.RemoveAt?
    ensures Data(s.items) + In(s, op) == Out(s, op) + Data(Apply(s, op).items)
  {
  }

  /** First in, first out: over a run of enqueues and dequeues, what was there and what came in
      are, in order, what went out and what is left. */
  lemma {:induction false} Fifo(s: State, ops: seq<Op>)
    requires Ok(s) && forall i | 0 <= i < |ops| :: !ops[i].RemoveAt?
    ensures Data(s.items) + Ins(s, ops) == Outs(s, ops) + Data(Run(s, ops).items)
    decreases |ops|
  {
    if ops != [] {
      var op, r := ops[0], Apply(s, ops[0]);
      ApplyOk(s, op);
      OneIsFifo(s, op);
      Fifo(r, ops[1..]);
      Rearrange(Data(s.items), In(s, op), Out(s, op), Data(r.items), Ins(r, ops[1..]), Outs(r, ops[1..]),
                Data(Run(r, ops[1..]).items));
    }
  }

  lemma Rearrange(a: seq<nat>, x: seq<nat>, y: seq<nat>, b: seq<nat>, xs: seq<nat>, ys: seq<nat>, c: seq<nat>)
    requires a + x == y + b && b + xs == ys + c
    ensures a + (x + xs) == (y + ys) + c
  {
    assert a + (x + xs) == (a + x) + xs == (y + b) + xs == y + (b + xs) == y + (ys + c) == (y + ys) + c;
  }

  /** The next number never goes down, so a plain enqueue gives a number above every one given before. */
  lemma {:induction false} NumbersGrow(s: State, ops: seq<Op>)
    requires Ok(s)
    ensures Run(s, ops).next >= s.next
    decreases |ops|
  {
    if ops != [] {
      ApplyOk(s, ops[0]);
      NumbersGrow(Apply(s, ops[0]), ops[1..]);
    }
  }

  // ----- the round of the cursor -----

  /** The items in the order in which they come up from the cursor on, around the end. */
  function Round(s: State): seq<Item>
    requires Ok(s) && s.cursor.Some?
  {
    var c := Find(s.items, s.cursor.value);
    s.items[c..] + s.items[..c]
  }

  lemma FindIs(s: State, k: nat)
    requires Ok(s) && k < |s.items|
    ensures Find(s.items, s.items[k].index) == k
  {
    var j := Find(s.items, s.items[k].index);
    assert Uses(s.items, s.items[k].index) && s.items[j].index == s.items[k].index;
  }

  /** Removing an item takes it out of the round and leaves the others in turn; the round of
      the cursor at it starts with the one after it. */
  lemma RoundRemoved(s: State, k: nat) returns (p: nat)
    requires Ok(s) && s.cursor.Some? && k < |s.items| && |s.items| > 1
    ensures Ok(Removed(s, k)) && Removed(s, k).cursor.Some?
    ensures p < |s.items| && Round(s)[p] == s.items[k] && Round(Removed(s, k)) == Without(Round(s), p)
  {
    RemovedOk(s, k);
    var c, r := Find(s.items, s.cursor.value), Removed(s, k);
    p := if k >= c then k - c else |s.items| - c + k;
    var d := if k < c then c - 1 else if k > c || k < |r.items| then c else 0;
    assert r.items[d].index == r.cursor.value;
    FindIs(r, d);
    RotatedWithout(s.items, k, c, d, p);
  }

  lemma RotatedWithout(q: seq<Item>, k: nat, c: nat, d: nat, p: nat)
    requires k < |q| && c < |q| && |q| > 1
    requires p == if k >= c then k - c else |q| - c + k
    requires d == if k < c then c - 1 else if k > c || k < |q| - 1 then c else 0
    ensures (q[c..] + q[..c])[p] == q[k]
    ensures Without(q, k)[d..] + Without(q, k)[..d] == Without(q[c..] + q[..c], p)
  {
    var x, y := Without(q, k), q[c..] + q[..c];
    forall i | 0 <= i < |q| - 1
      ensures (x[d..] + x[..d])[i] == Without(y, p)[i]
    {
    }
  }

  /** The oldest item leaves the round likewise. */
  lemma DequeuedIsRemoved(s: State)
    requires Ok(s) && s.items != [] && s.cursor.Some?
    ensures Dequeued(s) == Removed(s, 0)
  {
    assert s.items[1..] == Without(s.items, 0);
  }

  /** A new item comes up behind all that were to come up before the first item again. */
  lemma RoundAppended(s: State, item: Item)
    requires Ok(s) && s.cursor.Some? && item.index < NONE && !Uses(s.items, item.index)
    ensures Ok(Appended(s, item)) && Appended(s, item).cursor == s.cursor
    ensures var c := Find(s.items, s.cursor.value);
            Round(s) == s.items[c..] + s.items[..c] && Round(Appended(s, item)) == s.items[c..] + [item] + s.items[..c]
  {
    AppendedOk(s, item);
    var c, r := Find(s.items, s.cursor.value), Appended(s, item);
    assert r.items[c] == s.items[c];
    FindIs(r, c);
    assert r.items[c..] == s.items[c..] + [item] && r.items[..c] == s.items[..c];
  }

  // ----- the linked list -----

  class Node {
    var data: nat
    var index: nat
    var next: Node?
    var prev: Node?
    /** The node's place in the queue. */
    ghost var place: int

    constructor (data: nat)
      ensures this.data == data && next == null && prev == null
    {
      this.data, index, next, prev, place := data, 0, null, null, 0;
    }
  }

  /** The node at the position, null where there is none. */
  ghost function NodeAt(nodes: seq<Node>, i: int): Node? {
    if 0 <= i < |nodes| then nodes[i] else null
  }

  /** One node's fields are what its place says. */
  ghost predicate FitsAt(nodes: seq<Node>, items: seq<Item>, i: nat)
    requires i < |nodes| == |items|
    reads nodes
  {
    nodes[i].place == i && nodes[i].next == NodeAt(nodes, i + 1) && nodes[i].prev == NodeAt(nodes, i - 1) &&
    Item(nodes[i].index, nodes[i].data) == items[i]
  }

  lemma AllFit(nodes: seq<Node>, items: seq<Item>)
    requires |nodes| == |items| && forall i: nat | i < |nodes| :: FitsAt(nodes, items, i)
    ensures LinkedAs(nodes, items, NodeAt(nodes, 0), NodeAt(nodes, |nodes| - 1))
  {
    forall i: nat | i < |nodes|
      ensures nodes[i].place == i && nodes[i].next == NodeAt(nodes, i + 1) && nodes[i].prev == NodeAt(nodes, i - 1)
      ensures Item(nodes[i].index, nodes[i].data) == items[i]
    {
      assert FitsAt(nodes, items, i);
    }
  }

  ghost predicate LinkedAs(nodes: seq<Node>, items: seq<Item>, head: Node?, tail: Node?)
    reads nodes
  {
    |items| == |nodes| &&
    (forall i {:trigger nodes[i].place} | 0 <= i < |nodes| :: nodes[i].place == i) &&
    (forall i {:trigger nodes[i].next} | 0 <= i < |nodes| :: nodes[i].next == NodeAt(nodes, i + 1)) &&
    (forall i {:trigger nodes[i].prev} | 0 <= i < |nodes| :: nodes[i].prev == NodeAt(nodes, i - 1)) &&
    (forall i {:trigger items[i]} | 0 <= i < |nodes| :: Item(nodes[i].index, nodes[i].data) == items[i]) &&
    head == NodeAt(nodes, 0) && tail == NodeAt(nodes, |nodes| - 1)
  }

  class Queue {
    var head: Node?
    var tail: Node?
    var cursor: Node?
    var size: nat
    var nextIndex: nat
    /** The nodes from head to tail, and what they hold. */
    ghost var nodes: seq<Node>
    ghost var items: seq<Item>

    /** The fields of the nodes and of the queue spell out the two sequences. */
    ghost predicate Linked()
      reads this, nodes
    {
      LinkedAs(nodes, items, head, tail)
    }

    ghost predicate CursorOk()
      reads this
    {
      cursor != null ==> cursor in nodes
    }

    ghost function View(): State
      reads this, cursor
    {
      State(items, nextIndex, if cursor == null then None else Some(cursor.index))
    }

    ghost predicate Valid()
      reads this, nodes, cursor
    {
      Linked() && size == |nodes| && CursorOk() && Ok(View())
    }

    constructor ()
      ensures Valid() && View() == EMPTY && nodes == []
    {
      head, tail, cursor, size, nextIndex, nodes, items := null, null, null, 0, 0, [], [];
    }

    /** The node becomes the only one. */
    method LinkFirst(node: Node)
      requires Linked() && nodes == []
      modifies this`head, this`tail, this`nodes, this`items, node`next, node`prev, node`place
      ensures Linked() && nodes == [node] && items == [Item(node.index, node.data)]
    {
      node.next, node.prev, node.place := null, null, 0;
      head, tail := node, node;
      nodes, items := [node], [Item(node.index, node.data)];
    }

    /** The node goes behind the last one. */
    method LinkLast(node: Node)
      requires Linked() && node !in nodes && nodes != []
      modifies this`tail, this`nodes, this`items, nodes`next, node`next, node`prev, node`place
      ensures Linked() && nodes == old(nodes) + [node] && items == old(items) + [Item(node.index, node.data)]
    {
      ghost var was := nodes;
      forall i | 0 <= i < |was|
        ensures was[i] != node && (i < |was| - 1 ==> was[i] != tail)
      {
        assert was[i].place == i;
      }
      node.next, node.place := null, |nodes|;
      node.prev := tail;
      tail.next := node;
      tail := node;
      nodes, items := nodes + [node], items + [Item(node.index, node.data)];
    }

    /** `queue_append_node` */
    method AppendNode(node: Node)
      requires Linked() && node !in nodes
      modifies this`head, this`tail, this`cursor, this`size, this`nodes, this`items, nodes`next, node`next, node`prev, node`place
      ensures Linked() && nodes == old(nodes) + [node] && items == old(items) + [Item(node.index, node.data)]
      ensures cursor == (if old(cursor) == null then nodes[0] else old(cursor)) && size == old(size) + 1
    {
      if head == null {
        LinkFirst(node);
      } else {
        LinkLast(node);
      }
      if cursor == null {
        cursor := head;
      }
      size := size + 1;
    }

    /** A numbered node joins the queue. */
    method Join(node: Node)
      requires Valid() && node !in nodes && node.index < NONE && !Uses(items, node.index)
      modifies this, nodes`next, node`next, node`prev, node`place
      ensures Valid() && nodes == old(nodes) + [node]
      ensures View() == Appended(old(View()), Item(node.index, node.data))
    {
      ghost var was := View();
      AppendedOk(was, Item(node.index, node.data));
      AppendNode(node);
      assert items[0] == Item(nodes[0].index, nodes[0].data);
      SetNext(if node.index >= nextIndex then node.index + 1 else nextIndex);
    }

    method SetNext(next: nat)
      modifies this`nextIndex
      ensures nextIndex == next
    {
      nextIndex := next;
    }

    /** `lock_queue_enqueue`, `queue_enqueue` and `queue_enqueue_ref`: the next number, unless
        there is no memory or no number left. */
    method Enqueue(data: nat, memory: bool) returns (index: nat, node: Node?)
      requires Valid()
      modifies this, nodes`next
      ensures Valid()
      ensures View() == if memory then Apply(old(View()), Op.Enqueue(data)) else old(View())
      ensures index == if memory then old(nextIndex) else NONE
      ensures index == NONE ==> node == null && nodes == old(nodes)
      ensures index != NONE ==> node != null && fresh(node) && nodes == old(nodes) + [node] && node.index == index
    {
      if !memory {
        return NONE, null;
      }
      if nextIndex == NONE {
        return NONE, null;
      }
      node := new Node(data);
      NextUnused(View());
      node.index := nextIndex;
      Join(node);
      index := node.index;
    }

    /** Whether a node has the number, by walking the list. */
    method Used(id: nat) returns (used: bool)
      requires Linked()
      ensures used <==> Uses(items, id)
    {
      ghost var i := 0;
      var current := head;
      while current != null
        invariant 0 <= i <= |nodes| && current == NodeAt(nodes, i)
        invariant forall j | 0 <= j < i :: items[j].index != id
        decreases |nodes| - i
      {
        assert items[i] == Item(nodes[i].index, nodes[i].data);
        if current.index == id {
          return true;
        }
        current := current.next;
        i := i + 1;
      }
      used := false;
    }

    /** The least number no item has. */
    method LowestUnused() returns (id: nat)
      requires Valid()
      ensures id == LowestOf(View())
    {
      NextUnused(View());
      id := 0;
      while true
        invariant id <= nextIndex && Lowest(items, 0, nextIndex) == Lowest(items, id, nextIndex)
        decreases nextIndex - id
      {
        var used := Used(id);
        if !used {
          break;
        }
        id := id + 1;
      }
    }

    /** A new node with the number joins the queue. */
    method AddNumbered(data: nat, id: nat)
      requires Valid() && id < NONE && !Uses(items, id)
      modifies this, nodes`next
      ensures Valid() && View() == Appended(old(View()), Item(id, data))
    {
      var node := new Node(data);
      node.index := id;
      Join(node);
    }

    method EnqueueLowest(data: nat, memory: bool) returns (index: nat)
      requires Valid()
      modifies this, nodes`next
      ensures Valid()
      ensures View() == if memory then Apply(old(View()), Op.EnqueueLowest(data)) else old(View())
      ensures index == if memory then LowestOf(old(View())) else NONE
    {
      if !memory {
        return NONE;
      }
      var id := LowestUnused();
      if id == NONE {
        return NONE;
      }
      AddNumbered(data, id);
      index := id;
    }

    method EnqueueId(data: nat, id: nat, memory: bool) returns (index: nat)
      requires Valid() && id <= NONE
      modifies this, nodes`next
      ensures Valid()
      ensures View() == if memory then Apply(old(View()), Op.EnqueueId(data, id)) else old(View())
      ensures index == if memory && id != NONE && !old(Uses(items, id)) then id else NONE
    {
      if id == NONE || !memory {
        return NONE;
      }
      var used := Used(id);
      if used {
        return NONE;
      }
      AddNumbered(data, id);
      index := id;
    }

    /** Linked, except that the links forward skip node `f` and those backward skip node `b`. */
    ghost predicate Skips(f: int, b: int)
      reads this, nodes
    {
      |items| == |nodes| &&
      (forall i {:trigger nodes[i].place} | 0 <= i < |nodes| :: nodes[i].place == i) &&
      (forall i {:trigger nodes[i].next} | 0 <= i < |nodes| :: nodes[i].next == NodeAt(nodes, Forward(i, f))) &&
      (forall i {:trigger nodes[i].prev} | 0 <= i < |nodes| :: nodes[i].prev == NodeAt(nodes, Backward(i, b))) &&
      (forall i {:trigger items[i]} | 0 <= i < |nodes| :: Item(nodes[i].index, nodes[i].data) == items[i]) &&
      head == NodeAt(nodes, Forward(-1, f)) && tail == NodeAt(nodes, Backward(|nodes|, b))
    }

    /** The links forward pass over node `k`. */
    method SkipForward(node: Node, ghost k: nat)
      requires Linked() && k < |nodes| && node == nodes[k]
      modifies this`head, nodes`next
      ensures Skips(k, -2) && node.next == old(node.next) && node.prev == old(node.prev)
    {
      PlacesDiffer();
      if node.prev != null {
        node.prev.next := node.next;
      } else {
        head := node.next;
      }
    }

    /** The links backward pass over node `k`, too. */
    method SkipBackward(node: Node, ghost k: nat)
      requires Skips(k, -2) && k < |nodes| && node == nodes[k]
      modifies this`tail, nodes`prev
      ensures Skips(k, k) && node.next == old(node.next)
    {
      PlacesDiffer();
      if node.next != null {
        node.next.prev := node.prev;
      } else {
        tail := node.prev;
      }
    }

    /** The nodes behind `k` move up. */
    ghost method Renumber(k: nat)
      requires k < |nodes| && forall i {:trigger nodes[i].place} | 0 <= i < |nodes| :: nodes[i].place == i
      modifies nodes`place
      ensures forall i {:trigger nodes[i].place} | 0 <= i < |nodes| :: nodes[i].place == if i < k then i else i - 1
    {
      PlacesDiffer();
      forall i | k <= i < |nodes| {
        nodes[i].place := i - 1;
      }
      forall i | 0 <= i < k
        ensures nodes[i].place == i
      {
        assert forall j | k <= j < |nodes| :: nodes[j] != nodes[i];
      }
    }

    /** No link leads to node `k`, and the places leave it out. */
    ghost predicate Gap(k: nat)
      reads this, nodes
    {
      k < |nodes| == |items| &&
      (forall i {:trigger nodes[i].place} | 0 <= i < |nodes| :: nodes[i].place == if i < k then i else i - 1) &&
      (forall i {:trigger nodes[i].next} | 0 <= i < |nodes| :: nodes[i].next == NodeAt(nodes, Forward(i, k))) &&
      (forall i {:trigger nodes[i].prev} | 0 <= i < |nodes| :: nodes[i].prev == NodeAt(nodes, Backward(i, k))) &&
      (forall i {:trigger items[i]} | 0 <= i < |nodes| :: Item(nodes[i].index, nodes[i].data) == items[i]) &&
      head == NodeAt(nodes, Forward(-1, k)) && tail == NodeAt(nodes, Backward(|nodes|, k))
    }

    lemma Shifted(k: nat, i: nat)
      requires Gap(k) && i < |nodes| - 1
      ensures FitsAt(Without(nodes, k), Without(items, k), i)
    {
      var j := if i < k then i else i + 1;
      GapClosed(nodes, k, i);
      assert nodes[j].place == i;
      assert nodes[j].next == NodeAt(nodes, Forward(j, k)) && nodes[j].prev == NodeAt(nodes, Backward(j, k));
      assert items[j] == Item(nodes[j].index, nodes[j].data);
    }

    lemma GapEnds(k: nat)
      requires Gap(k)
      ensures head == NodeAt(Without(nodes, k), 0) && tail == NodeAt(Without(nodes, k), |nodes| - 2)
    {
      GapClosed(nodes, k, -1);
      GapClosed(nodes, k, |nodes| - 1);
    }

    lemma GapLinked(k: nat)
      requires Gap(k)
      ensures LinkedAs(Without(nodes, k), Without(items, k), head, tail)
    {
      GapEnds(k);
      var now, left := Without(nodes, k), Without(items, k);
      forall i: nat | i < |now|
        ensures FitsAt(now, left, i)
      {
        Shifted(k, i);
      }
      AllFit(now, left);
    }

    /** A node that no link leads to leaves the sequences. */
    ghost method Forget(k: nat)
      requires Gap(k)
      modifies this`nodes, this`items
      ensures Linked() && nodes == Without(old(nodes), k) && items == Without(old(items), k)
    {
      GapLinked(k);
      nodes, items := Without(nodes, k), Without(items, k);
    }

    /** The node leaves the list. */
    method Unlink(node: Node, ghost k: nat)
      requires Linked() && k < |nodes| && node == nodes[k]
      modifies this`head, this`tail, this`nodes, this`items, nodes`next, nodes`prev, nodes`place
      ensures Linked() && nodes == Without(old(nodes), k) && items == Without(old(items), k)
      ensures node.next == old(NodeAt(nodes, k + 1))
    {
      SkipForward(node, k);
      SkipBackward(node, k);
      Renumber(k);
      Forget(k);
    }

    /** A cursor at the node, or nowhere, moves on. */
    method MoveCursor(node: Node, nextCursor: Node?)
      modifies this`cursor
      ensures cursor == if head == null then null
                        else if old(cursor) == node then (if node.next != null then node.next else head)
                        else if old(cursor) == null then (if nextCursor != null then nextCursor else head)
                        else old(cursor)
    {
      if cursor == node {
        cursor := if node.next != null then node.next else head;
      }
      if head == null {
        cursor := null;
      } else if cursor == null {
        cursor := if nextCursor != null then nextCursor else head;
      }
    }

    /** The node leaves, and the cursor does not stay behind. */
    method TakeOut(node: Node, ghost k: nat)
      requires Linked() && CursorOk() && k < |nodes| && node == nodes[k]
      modifies this`head, this`tail, this`cursor, this`nodes, this`items, nodes`next, nodes`prev, nodes`place
      ensures Linked() && nodes == Without(old(nodes), k) && items == Without(old(items), k)
      ensures cursor == if nodes == [] then null
                        else if old(cursor) == node || old(cursor) == null then (if k < |nodes| then nodes[k] else nodes[0])
                        else old(cursor)
      ensures CursorOk() && cursor != node && (cursor == null <==> nodes == [])
    {
      PlacesDiffer();
      var nextCursor := if node.next != null then node.next else head;
      Unlink(node, k);
      MoveCursor(node, nextCursor);
      ClearTail();
    }

    method ClearTail()
      requires head == null ==> tail == null
      modifies this`tail
      ensures tail == old(tail)
    {
      if head == null {
        tail := null;
      }
    }

    method TakeItem(node: Node, ghost k: nat)
      requires Linked() && CursorOk() && Ok(View()) && k < |nodes| && node == nodes[k]
      modifies this`head, this`tail, this`cursor, this`nodes, this`items, nodes`next, nodes`prev, nodes`place
      ensures Linked() && CursorOk() && nodes == Without(old(nodes), k)
      ensures View() == Removed(old(View()), k)
    {
      ghost var was, at := View(), cursor;
      NumberOf(k);
      assert at == node <==> was.cursor == Some(was.items[k].index);
      TakeOut(node, k);
      CursorNumber(k);
    }

    /** `queue_remove_locked`: takes out a node of the queue and returns its data. */
    method RemoveLocked(node: Node, ghost k: nat) returns (data: nat)
      requires Valid() && k < |nodes| && node == nodes[k]
      modifies this, nodes`next, nodes`prev, nodes`place
      ensures Valid() && nodes == Without(old(nodes), k) && View() == Removed(old(View()), k) && data == old(items[k].data)
    {
      RemovedOk(View(), k);
      NumberOf(k);
      data := node.data;
      TakeItem(node, k);
      SetSize(size - 1);
    }

    /** Takes out the item with the number; 0 if there is none. */
    method RemoveAt(id: nat) returns (data: nat)
      requires Valid()
      modifies this, nodes`next, nodes`prev, nodes`place
      ensures Valid() && View() == Apply(old(View()), Op.RemoveAt(id))
      ensures data == if old(Uses(items, id)) then old(items[Find(items, id)].data) else 0
    {
      var node, k := FindNode(id);
      if node == null {
        return 0;
      }
      data := RemoveLocked(node, k);
    }

    /** The first node with the number, by walking the list. */
    method FindNode(id: nat) returns (node: Node?, ghost k: nat)
      requires Linked()
      ensures k == Find(items, id) && node == NodeAt(nodes, k)
    {
      k := 0;
      node := head;
      while node != null
        invariant 0 <= k <= |nodes| && node == NodeAt(nodes, k)
        invariant forall j | 0 <= j < k :: items[j].index != id
        decreases |nodes| - k
      {
        assert items[k] == Item(nodes[k].index, nodes[k].data);
        if node.index == id {
          return;
        }
        node := node.next;
        k := k + 1;
      }
    }

    /** The data of the item with the number; 0 if there is none. */
    method Get(id: nat) returns (data: nat)
      requires Linked()
      ensures data == if Uses(items, id) then items[Find(items, id)].data else 0
    {
      var node, k := FindNode(id);
      if node == null {
        return 0;
      }
      assert items[k] == Item(nodes[k].index, nodes[k].data);
      data := node.data;
    }

    /** The head steps over the first node, and no link leads back to it. */
    method UnlinkHead(node: Node)
      requires Linked() && nodes != [] && node == nodes[0]
      modifies this`head, this`tail, this`nodes, this`items, nodes`prev, nodes`place
      ensures Linked() && nodes == Without(old(nodes), 0) && items == Without(old(items), 0)
    {
      PlacesDiffer();
      assert node.prev == null && node.next == NodeAt(nodes, 1);
      head := head.next;
      if head != null {
        head.prev := null;
      } else {
        tail := null;
      }
      assert Skips(0, 0);
      Renumber(0);
      Forget(0);
    }

    /** Takes out the oldest item; 0 if there is none. */
    method Dequeue() returns (data: nat)
      requires Valid()
      modifies this, nodes`prev, nodes`place
      ensures Valid() && View() == Apply(old(View()), Op.Dequeue)
      ensures data == if old(items) == [] then 0 else old(items[0].data)
    {
      if head == null {
        return 0;
      }
      DequeuedOk(View());
      NumberOf(0);
      data := head.data;
      TakeFirst(head);
      SetSize(size - 1);
    }

    method TakeFirst(node: Node)
      requires Linked() && CursorOk() && Ok(View()) && nodes != [] && node == nodes[0]
      modifies this`head, this`tail, this`cursor, this`nodes, this`items, nodes`prev, nodes`place
      ensures Linked() && CursorOk() && nodes == Without(old(nodes), 0) && View() == Dequeued(old(View()))
    {
      ghost var was, at := View(), cursor;
      NumberOf(0);
      assert at == node <==> was.cursor == Some(was.items[0].index);
      UnlinkHead(node);
      CursorNumber(0);
      DropCursor(node);
      assert items == was.items[1..];
      assert View().cursor == Dequeued(was).cursor;
    }

    method DropCursor(node: Node)
      modifies this`cursor
      ensures cursor == if old(cursor) == node then head else old(cursor)
    {
      if cursor == node {
        cursor := head;
      }
    }

    /** A new node with the number goes behind the last one; the cursor stays. */
    method CopyNode(data: nat, id: nat)
      requires Linked()
      modifies this`head, this`tail, this`nodes, this`items, nodes`next
      ensures Linked() && items == old(items) + [Item(id, data)]
      ensures |nodes| == |old(nodes)| + 1 && nodes[..|old(nodes)|] == old(nodes) && fresh(nodes[|old(nodes)|])
    {
      var node := new Node(data);
      node.index := id;
      if head == null {
        LinkFirst(node);
      } else {
        LinkLast(node);
      }
    }

    method Settle(n: nat, next: nat)
      requires Linked() && cursor == null && n == |items| && Ok(State(items, next, None))
      modifies this`size, this`nextIndex
      ensures Valid() && View() == State(items, next, None)
    {
      size, nextIndex := n, next;
    }

    method SetSize(n: nat)
      modifies this`size
      ensures size == n
    {
      size := n;
    }

    lemma CursorNumber(k: nat)
      requires Linked()
      ensures nodes != [] ==> nodes[0].index == items[0].index && (k < |nodes| ==> nodes[k].index == items[k].index)
    {
      FirstNumber();
    }

    /** The cursor is at node `k` just when it has its number. */
    lemma NumberOf(k: nat)
      requires Linked() && CursorOk() && Ok(View()) && k < |nodes|
      ensures nodes[k].index == items[k].index && nodes[k].data == items[k].data
      ensures cursor != null && cursor.index == nodes[k].index ==> cursor == nodes[k]
    {
      assert items[k] == Item(nodes[k].index, nodes[k].data);
      if cursor != null {
        var i :| 0 <= i < |nodes| && nodes[i] == cursor;
        assert items[i] == Item(nodes[i].index, nodes[i].data);
      }
    }

    lemma FirstNumber()
      requires Linked()
      ensures forall i | 0 <= i < |nodes| :: nodes[i].index == items[i].index
    {
      forall i | 0 <= i < |nodes|
        ensures nodes[i].index == items[i].index
      {
        assert items[i] == Item(nodes[i].index, nodes[i].data);
      }
    }

    /** The nodes are distinct. */
    lemma PlacesDiffer()
      requires forall i {:trigger nodes[i].place} | 0 <= i < |nodes| :: nodes[i].place == i
      ensures forall i, j | 0 <= i < |nodes| && 0 <= j < |nodes| && nodes[i] == nodes[j] :: i == j
    {
      forall i, j | 0 <= i < |nodes| && 0 <= j < |nodes| && nodes[i] == nodes[j]
        ensures i == j
      {
        assert nodes[i].place == i && nodes[j].place == j;
      }
    }
  }

  /** The items with their data copied. */
  function Copied(items: seq<Item>, copy: nat -> nat): (r: seq<Item>)
    ensures |r| == |items|
  {
    seq(|items|, i requires 0 <= i < |items| => Item(items[i].index, copy(items[i].data)))
  }

  /** A new queue with the same numbers and copies of the data, and the cursor nowhere; none if
      the `memory` allocations do not suffice. */
  method QueueCopy(src: Queue, copy: nat -> nat, memory: nat) returns (q: Queue?)
    requires src.Valid()
    ensures q != null <==> memory > |src.nodes|
    ensures q != null ==> fresh(q) && q.Valid() && q.View() == State(Copied(src.items, copy), src.nextIndex, None)
  {
    if memory == 0 {
      return null;
    }
    q := new Queue();
    var current := src.head;
    ghost var i := 0;
    var left: nat := memory - 1;
    while current != null
      invariant 0 <= i <= |src.nodes| && current == NodeAt(src.nodes, i) && left + i == memory - 1
      invariant q != null && fresh(q) && fresh(q.nodes) && q.Linked() && q.cursor == null
      invariant q.items == Copied(src.items, copy)[..i]
      decreases |src.nodes| - i
    {
      if left == 0 {
        return null;
      }
      assert src.items[i] == Item(src.nodes[i].index, src.nodes[i].data);
      CopiedNext(src.items, copy, i);
      q.CopyNode(copy(current.data), current.index);
      current := current.next;
      i, left := i + 1, left - 1;
    }
    assert q.items == Copied(src.items, copy);
    CopiedOk(src.View(), copy);
    q.Settle(src.size, src.nextIndex);
  }

  lemma CopiedNext(items: seq<Item>, copy: nat -> nat, i: nat)
    requires i < |items|
    ensures Copied(items, copy)[..i + 1] == Copied(items, copy)[..i] + [Item(items[i].index, copy(items[i].data))]
  {
  }

  lemma CopiedOk(s: State, copy: nat -> nat)
    requires Ok(s)
    ensures Ok(State(Copied(s.items, copy), s.next, None))
  {
  }

  function Forward(i: int, skipped: int): int {
    if i + 1 == skipped then i + 2 else i + 1
  }

  function Backward(i: int, skipped: int): int {
    if i - 1 == skipped then i - 2 else i - 1
  }

  /** Stepping over the missing node is one step in the shorter sequence. */
  lemma GapClosed(was: seq<Node>, k: nat, i: int)
    requires k < |was| && -1 <= i < |was|
    ensures var now := Without(was, k); var j := if i < k then i else i + 1;
            NodeAt(now, i) == NodeAt(was, j) &&
            (i < |now| ==> NodeAt(now, i + 1) == NodeAt(was, Forward(j, k))) &&
            (i >= 0 ==> NodeAt(now, i - 1) == NodeAt(was, Backward(j, k)))
  {
  }
}
