/** The singly linked collision chains, relinked in place. */
module SList {
  import opened RbShape
  import opened RbMap

  class SListNode {
    var key: Key
    var val: Pointer
    var next: SListNode?

    constructor (key: Key, val: Pointer)
      ensures this.key == key && this.val == val && next == null
    {
      this.key, this.val, next := key, val, null;
    }
  }

  function At(ns: seq<SListNode>, i: nat): SListNode? {
    if i < |ns| then ns[i] else null
  }

  /** `ns` are the nodes reached from `head` in order, each once. */
  ghost predicate Linked(head: SListNode?, ns: seq<SListNode>)
    reads ns
  {
    && head == At(ns, 0)
    && (forall i | 0 <= i < |ns| :: ns[i].next == At(ns, i + 1))
    && (forall i, j | 0 <= i < j < |ns| :: ns[i] != ns[j])
  }

  ghost function Bindings(ns: seq<SListNode>): (list: Chain)
    reads ns
  {
    seq(|ns|, i requires 0 <= i < |ns| reads ns => Binding(ns[i].key, ns[i].val))
  }

  lemma {:induction false} ChainGetAt(list: Chain, key: Key, i: nat)
    requires i <= |list| && forall j | 0 <= j < i :: list[j].key != key
    requires i < |list| ==> list[i].key == key
    ensures ChainGet(list, key) == if i < |list| then list[i].value else NULL
  {
    if i > 0 {
      ChainGetAt(list[1..], key, i - 1);
    }
  }

  lemma {:induction false} ChainDeleteAt(list: Chain, key: Key, i: nat)
    requires i <= |list| && forall j | 0 <= j < i :: list[j].key != key
    requires i < |list| ==> list[i].key == key
    ensures ChainDelete(list, key) == if i < |list| then list[..i] + list[i + 1..] else list
  {
    if i > 0 {
      ChainDeleteAt(list[1..], key, i - 1);
    }
  }

  method Prepend(list: SListNode?, key: Key, val: Pointer, ghost ns: seq<SListNode>)
    returns (list': SListNode?, ghost ns': seq<SListNode>)
    requires Linked(list, ns)
    ensures Linked(list', ns') && |ns'| > 0 && ns'[1..] == ns && fresh(ns'[0])
    ensures Bindings(ns') == [Binding(key, val)] + Bindings(ns)
  {
    var node := new SListNode(key, val);
    node.next := list;
    list' := node;
    ns' := [node] + ns;
  }

  method Lookup(list: SListNode?, key: Key, ghost ns: seq<SListNode>) returns (val: Pointer)
    requires Linked(list, ns)
    ensures val == ChainGet(Bindings(ns), key)
  {
    var current := list;
    ghost var i := 0;
    while current != null
      invariant 0 <= i <= |ns| && current == At(ns, i)
      invariant forall j | 0 <= j < i :: Bindings(ns)[j].key != key
      decreases |ns| - i
    {
      if current.key == key {
        ChainGetAt(Bindings(ns), key, i);
        return current.val;
      }
      current := current.next;
      i := i + 1;
    }
    ChainGetAt(Bindings(ns), key, i);
    val := NULL;
  }

  /** `prev->next = current->next` */
  method SkipNode(prev: SListNode, current: SListNode, ghost list: SListNode?, ghost ns: seq<SListNode>, ghost i: nat)
    requires Linked(list, ns) && 1 <= i < |ns| && prev == ns[i - 1] && current == ns[i]
    modifies prev`next
    ensures Linked(list, ns[..i] + ns[i + 1..])
    ensures Bindings(ns[..i] + ns[i + 1..]) == old(Bindings(ns))[..i] + old(Bindings(ns))[i + 1..]
  {
    assert current.next == At(ns, i + 1);
    prev.next := current.next;
    ghost var ms := ns[..i] + ns[i + 1..];
    forall j | 0 <= j < |ms|
      ensures ms[j].next == At(ms, j + 1)
    {
      if j < i {
        assert ms[j] == ns[j];
      } else {
        assert ms[j] == ns[j + 1];
      }
    }
    SkippedBindings(ns, i);
    assert Bindings(ns) == old(Bindings(ns));
  }

  lemma SkippedBindings(ns: seq<SListNode>, i: nat)
    requires i < |ns|
    ensures Bindings(ns[..i] + ns[i + 1..]) == Bindings(ns)[..i] + Bindings(ns)[i + 1..]
  {
  }

  method Delete(list: SListNode?, key: Key, ghost ns: seq<SListNode>)
    returns (list': SListNode?, ghost ns': seq<SListNode>)
    requires Linked(list, ns)
    modifies ns
    ensures Linked(list', ns') && (forall n | n in ns' :: n in ns)
    ensures Bindings(ns') == ChainDelete(old(Bindings(ns)), key)
  {
    list', ns' := list, ns;
    if list == null {
      return;
    }
    if list.key == key {
      list', ns' := DropHead(list, ns);
      ChainDeleteAt(Bindings(ns), key, 0);
      return;
    }
    ns' := DeleteAfter(list, key, ns);
  }

  /** The first node is freed. */
  method DropHead(list: SListNode, ghost ns: seq<SListNode>) returns (list': SListNode?, ghost ns': seq<SListNode>)
    requires Linked(list, ns)
    ensures Linked(list', ns') && |ns| > 0 && ns' == ns[1..] && Bindings(ns') == Bindings(ns)[1..]
  {
    assert list == ns[0] && list.next == At(ns, 1);
    list', ns' := list.next, ns[1..];
    assert Bindings(ns') == Bindings(ns)[1..];
  }

  /** The loop of the deletion: the first node with the key, not the head, is cut out. */
  method DeleteAfter(list: SListNode, key: Key, ghost ns: seq<SListNode>) returns (ghost ns': seq<SListNode>)
    requires Linked(list, ns) && list.key != key
    modifies ns
    ensures Linked(list, ns') && (forall n | n in ns' :: n in ns)
    ensures Bindings(ns') == ChainDelete(old(Bindings(ns)), key)
  {
    ns' := ns;
    ghost var before := Bindings(ns);
    assert list == ns[0] && list.next == At(ns, 1);
    var prev := list;
    var current := list.next;
    ghost var i := 1;
    while current != null
      invariant 1 <= i <= |ns| && prev == ns[i - 1] && current == At(ns, i)
      invariant forall j | 0 <= j < i :: before[j].key != key
      invariant Linked(list, ns) && Bindings(ns) == before
      decreases |ns| - i
    {
      if current.key == key {
        ChainDeleteAt(before, key, i);
        SkipNode(prev, current, list, ns, i);
        ns' := ns[..i] + ns[i + 1..];
        return;
      }
      prev := current;
      current := current.next;
      i := i + 1;
    }
    ChainDeleteAt(before, key, i);
  }
}
