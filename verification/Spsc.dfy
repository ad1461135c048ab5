/** The single-producer single-consumer ring: one producer and one consumer
    whose loads, slot accesses and stores interleave one at a time. */
module Spsc {
  import opened Machine

  // ----- masks -----

  lemma {:induction false} AndItself(x: nat)
    ensures And(x, x) == x
  {
    if x > 0 {
      AndItself(x / 2);
    }
  }

  /** The size test accepts powers of two. */
  lemma {:induction false} AcceptsPowers(k: nat)
    ensures And(Pow2(k), Pow2(k) - 1) == 0
  {
    if k > 0 {
      AcceptsPowers(k - 1);
      assert (Pow2(k) - 1) / 2 == Pow2(k - 1) - 1;
    }
  }

  /** The size test accepts nothing else. */
  lemma {:induction false} AcceptsOnlyPowers(n: nat) returns (k: nat)
    requires n > 0 && And(n, n - 1) == 0
    ensures n == Pow2(k)
  {
    if n == 1 {
      k := 0;
    } else if n % 2 == 1 {
      assert (n - 1) / 2 == n / 2;
      AndItself(n / 2);
    } else {
      assert (n - 1) / 2 == n / 2 - 1;
      k := AcceptsOnlyPowers(n / 2);
      k := k + 1;
    }
  }

  lemma {:induction false} MaskKeeps(x: nat, k: nat)
    requires x < Pow2(k)
    ensures And(x, Pow2(k) - 1) == x
  {
    if x > 0 {
      var m := Pow2(k - 1);
      assert (2 * m - 1) / 2 == m - 1 && (2 * m - 1) % 2 == 1;
      assert x / 2 < m;
      MaskKeeps(x / 2, k - 1);
      assert And(x, 2 * m - 1) == x % 2 + 2 * And(x / 2, m - 1);
    }
  }

  /** The test of `init_atom_queue` on the size. */
  predicate Accepted(size: nat) {
    size > 0 && And(size, size - 1) == 0
  }

  /** `(i + 1) & mask` */
  function Advance(i: nat, mask: nat): nat {
    And(i + 1, mask)
  }

  /** The slot after `i` in a ring of `cap` slots. */
  function After(i: nat, cap: nat): nat {
    if i + 1 == cap then 0 else i + 1
  }

  /** For the sizes the test accepts, masking the next position is stepping around the ring. */
  lemma MaskWraps(i: nat, cap: nat)
    requires i < cap && Accepted(cap)
    ensures Advance(i, cap - 1) == After(i, cap)
  {
    var k := AcceptsOnlyPowers(cap);
    if i + 1 < cap {
      MaskKeeps(i + 1, k);
    }
  }

  // ----- the two threads -----

  /** Where the producer is inside `atom_push`, with the locals it holds. */
  datatype Producer =
    | Ready
    | Called(data: nat)
    | HaveHead(data: nat, head: nat)
    | NotFull(data: nat, head: nat, next: nat)
    | Stored(data: nat, next: nat)

  /** Where the consumer is inside `atom_pop`. */
  datatype Consumer =
    | Idle
    | Asked
    | HaveTail(tail: nat)
    | NotEmpty(tail: nat)
    | Read(tail: nat, data: nat)

  /** What a call returned, in the order of the atomic accesses that decided it. */
  datatype Event = Pushed(data: nat) | Full(data: nat) | Popped(data: nat) | Empty

  datatype State = State(buf: seq<nat>, mask: nat, head: nat, tail: nat, push: Producer, pop: Consumer, log: seq<Event>)

  /** Who takes the next atomic step; a producer between calls calls with `data`. */
  datatype Turn = Push(data: nat) | Pop

  /** The storage is there and both positions are slots of it. */
  predicate Shaped(s: State) {
    Accepted(|s.buf|) && |s.buf| == s.mask + 1 && s.head < |s.buf| && s.tail < |s.buf| &&
    match s.push {
      case HaveHead(_, head) => head < |s.buf|
      case NotFull(_, head, _) => head < |s.buf|
      case _ => true
    } &&
    match s.pop {
      case NotEmpty(tail) => tail < |s.buf|
      case _ => true
    }
  }

  function NextPush(s: State, data: nat): State
    requires Shaped(s)
  {
    match s.push
    case Ready => s.(push := Called(data))
    case Called(d) => s.(push := HaveHead(d, s.head))
    case HaveHead(d, head) =>
      var next := Advance(head, s.mask);
      if next == s.tail then s.(push := Ready, log := s.log + [Full(d)])
      else s.(push := NotFull(d, head, next))
    case NotFull(d, head, next) => s.(buf := s.buf[head := d], push := Stored(d, next))
    case Stored(d, next) => s.(head := next, push := Ready, log := s.log + [Pushed(d)])
  }

  function NextPop(s: State): State
    requires Shaped(s)
  {
    match s.pop
    case Idle => s.(pop := Asked)
    case Asked => s.(pop := HaveTail(s.tail))
    case HaveTail(tail) =>
      if tail == s.head then s.(pop := Idle, log := s.log + [Empty]) else s.(pop := NotEmpty(tail))
    case NotEmpty(tail) => s.(pop := Read(tail, s.buf[tail]))
    case Read(tail, d) => s.(tail := Advance(tail, s.mask), pop := Idle, log := s.log + [Popped(d)])
  }

  function Next(s: State, turn: Turn): State
    requires Shaped(s)
  {
    match turn
    case Push(data) => NextPush(s, data)
    case Pop => NextPop(s)
  }

  // ----- what the ring holds -----

  function Distance(s: State): nat
    requires s.tail < |s.buf|
  {
    if s.head >= s.tail then s.head - s.tail else s.head + |s.buf| - s.tail
  }

  function Place(tail: nat, i: nat, cap: nat): int {
    if tail + i < cap then tail + i else tail + i - cap
  }

  /** The bytes from tail to head. */
  function Live(s: State): (q: seq<nat>)
    requires s.head < |s.buf| && s.tail < |s.buf|
    ensures |q| == Distance(s)
  {
    seq(Distance(s), i requires 0 <= i < Distance(s) => s.buf[Place(s.tail, i, |s.buf|)])
  }

  /** A bounded queue replays the events: the contents afterwards, if every event is what such a queue does. */
  function Replay(log: seq<Event>, limit: nat): (r: Option<seq<nat>>) {
    if log == [] then Some([])
    else
      match Replay(log[..|log| - 1], limit)
      case None => None
      case Some(q) =>
        Applied(q, limit, log[|log| - 1])
  }

  function Applied(q: seq<nat>, limit: nat, event: Event): Option<seq<nat>> {
    match event
    case Pushed(d) => if |q| < limit then Some(q + [d]) else None
    case Full(_) => if |q| == limit then Some(q) else None
    case Popped(d) => if |q| > 0 && q[0] == d then Some(q[1..]) else None
    case Empty => if q == [] then Some(q) else None
  }

  /** The locals of the two threads fit the shared positions. */
  predicate ThreadsFit(s: State)
    requires s.head < |s.buf| && s.tail < |s.buf|
  {
    match s.push {
      case HaveHead(_, head) => head == s.head
      case NotFull(_, head, next) => head == s.head && next == After(head, |s.buf|) && next != s.tail
      case Stored(d, next) => next == After(s.head, |s.buf|) && next != s.tail && s.buf[s.head] == d
      case _ => true
    } &&
    match s.pop {
      case HaveTail(tail) => tail == s.tail
      case NotEmpty(tail) => tail == s.tail != s.head
      case Read(tail, d) => tail == s.tail != s.head && s.buf[tail] == d
      case _ => true
    }
  }

  /** What every step of either thread keeps. */
  predicate Inv(s: State) {
    Shaped(s) && ThreadsFit(s) && Replay(s.log, s.mask) == Some(Live(s))
  }

  lemma PushFits(s: State, data: nat)
    requires Shaped(s) && ThreadsFit(s)
    ensures Shaped(NextPush(s, data)) && ThreadsFit(NextPush(s, data))
  {
    MaskWraps(s.head, |s.buf|);
  }

  lemma PopFits(s: State)
    requires Shaped(s) && ThreadsFit(s)
    ensures Shaped(NextPop(s)) && ThreadsFit(NextPop(s))
  {
    MaskWraps(s.tail, |s.buf|);
  }

  /** The producer changes the contents at its store of head alone, where the byte enters at the end. */
  lemma PushLive(s: State, data: nat)
    requires Shaped(s) && ThreadsFit(s) && Shaped(NextPush(s, data))
    ensures Live(NextPush(s, data)) == if s.push.Stored? then Live(s) + [s.push.data] else Live(s)
  {
    MaskWraps(s.head, |s.buf|);
    var q, q' := Live(s), Live(NextPush(s, data));
    forall i | 0 <= i < |q|
      ensures i < |q'| && q'[i] == q[i]
    {
      assert Place(s.tail, i, |s.buf|) != s.head;
    }
  }

  /** The consumer changes the contents at its store of tail alone, where the byte it read leaves the front. */
  lemma PopLive(s: State)
    requires Shaped(s) && ThreadsFit(s) && Shaped(NextPop(s))
    ensures s.pop.Read? ==> Live(s) == [s.pop.data] + Live(NextPop(s))
    ensures !s.pop.Read? ==> Live(NextPop(s)) == Live(s)
  {
    MaskWraps(s.tail, |s.buf|);
  }

  lemma ReplayNext(log: seq<Event>, limit: nat, event: Event)
    ensures Replay(log + [event], limit) ==
      match Replay(log, limit)
      case None => None
      case Some(q) => Applied(q, limit, event)
  {
    assert (log + [event])[..|log|] == log;
  }

  lemma PushKeeps(s: State, data: nat)
    requires Inv(s)
    ensures Inv(NextPush(s, data))
  {
    PushFits(s, data);
    PushLive(s, data);
    MaskWraps(s.head, |s.buf|);
    if s.push.HaveHead? {
      ReplayNext(s.log, s.mask, Full(s.push.data));
    } else if s.push.Stored? {
      ReplayNext(s.log, s.mask, Pushed(s.push.data));
    }
  }

  lemma PopKeeps(s: State)
    requires Inv(s)
    ensures Inv(NextPop(s))
  {
    PopFits(s);
    PopLive(s);
    PopLogs(s);
  }

  lemma PopLogs(s: State)
    requires Inv(s) && Shaped(NextPop(s))
    requires s.pop.Read? ==> Live(s) == [s.pop.data] + Live(NextPop(s))
    requires !s.pop.Read? ==> Live(NextPop(s)) == Live(s)
    ensures Replay(NextPop(s).log, s.mask) == Some(Live(NextPop(s)))
  {
    var q := Live(NextPop(s));
    match s.pop
    case HaveTail(tail) =>
      if tail == s.head {
        assert q == [];
        ReplayNext(s.log, s.mask, Empty);
      }
    case Read(_, d) =>
      assert ([d] + q)[1..] == q;
      ReplayNext(s.log, s.mask, Popped(d));
    case _ =>
  }

  // ----- every interleaving -----

  /** The queue after `init_atom_queue` on a buffer, before either thread calls. */
  predicate Initial(s: State) {
    Accepted(|s.buf|) && s.mask == |s.buf| - 1 && s.head == s.tail == 0 &&
    s.push == Ready && s.pop == Idle && s.log == []
  }


  predicate Consistent(s: State) {
    Shaped(s) && ThreadsFit(s)
  }

  /** The threads take their turns in the order a scheduler chooses. */
  function Run(s: State, turns: seq<Turn>): (r: State)
    requires Consistent(s)
    ensures Consistent(r) && r.mask == s.mask
    decreases |turns|
  {
    if turns == [] then s
    else
      match turns[0] {
        case Push(data) => PushFits(s, data); Run(NextPush(s, data), turns[1..])
        case Pop => PopFits(s); Run(NextPop(s), turns[1..])
      }
  }

  lemma {:induction false} RunKeeps(s: State, turns: seq<Turn>)
    requires Inv(s)
    ensures Inv(Run(s, turns))
    decreases |turns|
  {
    if turns != [] {
      match turns[0]
      case Push(data) =>
        PushKeeps(s, data);
        RunKeeps(NextPush(s, data), turns[1..]);
      case Pop =>
        PopKeeps(s);
        RunKeeps(NextPop(s), turns[1..]);
    }
  }

  function Pushes(log: seq<Event>): seq<nat> {
    if log == [] then []
    else Pushes(log[..|log| - 1]) + if log[|log| - 1].Pushed? then [log[|log| - 1].data] else []
  }

  function Pops(log: seq<Event>): seq<nat> {
    if log == [] then []
    else Pops(log[..|log| - 1]) + if log[|log| - 1].Popped? then [log[|log| - 1].data] else []
  }

  lemma {:induction false} ReplayIsFifo(log: seq<Event>, limit: nat)
    requires Replay(log, limit).Some?
    ensures Pushes(log) == Pops(log) + Replay(log, limit).value
    ensures |Replay(log, limit).value| <= limit
  {
    if log != [] {
      var before := log[..|log| - 1];
      ReplayIsFifo(before, limit);
      var q := Replay(before, limit).value;
      if log[|log| - 1].Popped? {
        assert q == [q[0]] + q[1..];
      }
    }
  }

  /** In every interleaving the popped bytes followed by the ring's contents are
      the pushed bytes in order, the ring is never over its capacity, and every
      answer of a call is the one a bounded queue gives at that moment. */
  lemma EveryInterleaving(s: State, turns: seq<Turn>)
    requires Initial(s)
    ensures var r := Run(s, turns);
            Replay(r.log, s.mask) == Some(Live(r)) && Pushes(r.log) == Pops(r.log) + Live(r) && |Live(r)| <= s.mask
  {
    assert Live(s) == [];
    RunKeeps(s, turns);
    ReplayIsFifo(Run(s, turns).log, s.mask);
  }

  /** A byte between its publication and its consumption keeps its slot and its value through every step. */
  lemma SlotKept(s: State, turn: Turn, i: nat)
    requires Consistent(s) && i < Distance(s)
    requires turn.Push? || !s.pop.Read? || i > 0
    ensures var slot := Place(s.tail, i, |s.buf|);
            Next(s, turn).buf[slot] == s.buf[slot] && (s.push.NotFull? ==> slot != s.push.head)
  {
  }

  // ----- the calls, run alone -----

  class AtomQueue {
    var buf: array?<nat>
    var mask: nat
    var head: nat
    var tail: nat
    var size: int

    ghost predicate Valid()
      reads this, buf
    {
      buf != null && Accepted(buf.Length) && mask == buf.Length - 1 && head < buf.Length && tail < buf.Length
    }

    /** The shared state between calls. */
    ghost function Snapshot(log: seq<Event>): (s: State)
      reads this, buf
      requires Valid()
      ensures Consistent(s)
    {
      State(buf[..], mask, head, tail, Ready, Idle, log)
    }

    method InitAtomQueue(buffer: array?<nat>, size: nat) returns (ok: bool)
      requires buffer != null ==> size == buffer.Length
      modifies this
      ensures ok <==> buffer != null && Accepted(size)
      ensures ok ==> Valid() && buf == buffer && Initial(Snapshot([]))
    {
      if buffer == null || size == 0 || And(size, size - 1) != 0 {
        return false;
      }
      buf, mask, head, tail, this.size := buffer, size - 1, 0, 0, 0;
      return true;
    }

    method AtomPush(data: nat, ghost log: seq<Event>) returns (ok: bool)
      requires Valid()
      modifies this, buf
      ensures Valid() && buf == old(buf)
      ensures ok <==> |Live(old(Snapshot(log)))| < mask
      ensures ok ==> Snapshot(log + [Pushed(data)]) == Run(old(Snapshot(log)), Turns(Push(data), 5))
      ensures !ok ==> Snapshot(log + [Full(data)]) == Run(old(Snapshot(log)), Turns(Push(data), 3))
    {
      PushAlone(Snapshot(log), data);
      MaskWraps(head, buf.Length);
      var h := head;
      var next := And(h + 1, mask);
      if next == tail {
        return false;
      }
      buf[h] := data;
      head := next;
      size := size + 1;
      return true;
    }

    method AtomPop(ghost log: seq<Event>) returns (r: int)
      requires Valid()
      modifies this
      ensures Valid() && buf == old(buf)
      ensures r == -1 || r >= 0
      ensures r == -1 <==> Live(old(Snapshot(log))) == []
      ensures r == -1 ==> Snapshot(log + [Empty]) == Run(old(Snapshot(log)), Turns(Pop, 3))
      ensures r >= 0 ==> Snapshot(log + [Popped(r)]) == Run(old(Snapshot(log)), Turns(Pop, 5))
    {
      PopAlone(Snapshot(log));
      MaskWraps(tail, buf.Length);
      var t := tail;
      if t == head {
        return -1;
      }
      var data := buf[t];
      tail := And(t + 1, mask);
      size := size - 1;
      return data;
    }
  }

  function Turns(turn: Turn, n: nat): seq<Turn> {
    if n == 0 then [] else [turn] + Turns(turn, n - 1)
  }

  lemma {:induction false} RunTurn(s: State, turn: Turn, n: nat)
    requires Consistent(s) && n > 0
    ensures Consistent(Next(s, turn)) && Run(s, Turns(turn, n)) == Run(Next(s, turn), Turns(turn, n - 1))
  {
    assert Turns(turn, n)[1..] == Turns(turn, n - 1);
    match turn
    case Push(data) => PushFits(s, data);
    case Pop => PopFits(s);
  }

  lemma FullMeansMask(s: State)
    requires Shaped(s)
    ensures |Live(s)| == s.mask <==> Advance(s.head, s.mask) == s.tail
    ensures |Live(s)| <= s.mask
  {
    MaskWraps(s.head, |s.buf|);
  }

  lemma PushAlone(s: State, data: nat)
    requires Consistent(s) && s.push.Ready?
    ensures var next := Advance(s.head, s.mask);
            (|Live(s)| < s.mask <==> next != s.tail) &&
            (next == s.tail ==> Run(s, Turns(Push(data), 3)) == s.(log := s.log + [Full(data)])) &&
            (next != s.tail ==>
               Run(s, Turns(Push(data), 5)) == s.(buf := s.buf[s.head := data], head := next, log := s.log + [Pushed(data)]))
  {
    FullMeansMask(s);
    var turn, n := Push(data), if Advance(s.head, s.mask) == s.tail then 3 else 5;
    RunTurn(s, turn, n);
    var a := Next(s, turn);
    RunTurn(a, turn, n - 1);
    var b := Next(a, turn);
    RunTurn(b, turn, n - 2);
    var c := Next(b, turn);
    if n == 5 {
      RunTurn(c, turn, 2);
      RunTurn(Next(c, turn), turn, 1);
    }
  }

  lemma PopAlone(s: State)
    requires Consistent(s) && s.pop.Idle?
    ensures (Live(s) == [] <==> s.tail == s.head) &&
            (s.tail == s.head ==> Run(s, Turns(Pop, 3)) == s.(log := s.log + [Empty])) &&
            (s.tail != s.head ==>
               Run(s, Turns(Pop, 5)) == s.(tail := Advance(s.tail, s.mask), log := s.log + [Popped(s.buf[s.tail])]))
  {
    assert |Live(s)| == Distance(s);
    var n := if s.tail == s.head then 3 else 5;
    RunTurn(s, Pop, n);
    var a := Next(s, Pop);
    RunTurn(a, Pop, n - 1);
    var b := Next(a, Pop);
    RunTurn(b, Pop, n - 2);
    var c := Next(b, Pop);
    if n == 5 {
      RunTurn(c, Pop, 2);
      RunTurn(Next(c, Pop), Pop, 1);
    }
  }
}
