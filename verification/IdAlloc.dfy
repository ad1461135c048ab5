/** The kernel's id allocator: a bitmap, and a scan that goes around from the last id given. */
module IdAlloc {
  import opened Machine

  const BITS_PER_WORD: nat := 32
  const U32: nat := 0x1_0000_0000

  // ----- the meaning: a set of ids in use -----

  datatype Pool = Pool(max: nat, used: set<nat>, next: nat)

  predicate Ok(p: Pool) {
    (forall id | id in p.used :: id < p.max) && (p.next < p.max || p.next == 0)
  }

  /** The id `k` places after `start`, going around. */
  function Around(start: nat, k: nat, max: nat): int {
    if start + k < max then start + k else start + k - max
  }

  /** How far from `start` the first free id is, `max` if there is none. */
  function FirstFree(p: Pool, k: nat): (d: nat)
    requires p.next < p.max && k <= p.max
    ensures k <= d <= p.max
    ensures d < p.max ==> Around(p.next, d, p.max) !in p.used
    ensures forall j | k <= j < d :: Around(p.next, j, p.max) in p.used
    decreases p.max - k
  {
    if k == p.max || Around(p.next, k, p.max) !in p.used then k else FirstFree(p, k + 1)
  }

  function IdsBelow(n: nat): (s: set<nat>)
    ensures forall id :: id in s <==> 0 <= id < n
  {
    if n == 0 then {} else IdsBelow(n - 1) + {n - 1}
  }

  lemma {:induction false} CountBelow(n: nat)
    ensures |IdsBelow(n)| == n
  {
    if n > 0 {
      CountBelow(n - 1);
    }
  }

  lemma {:induction false} SubsetCount(a: set<nat>, b: set<nat>)
    requires a <= b
    ensures |a| <= |b| && (|a| == |b| ==> a == b)
  {
    var rest := b - a;
    assert b == a + rest && |b| == |a| + |rest|;
  }

  /** There is a free id just when fewer than all are in use. */
  lemma FreeExactly(p: Pool)
    requires Ok(p) && p.next < p.max
    ensures |p.used| <= p.max && (FirstFree(p, 0) < p.max <==> |p.used| < p.max)
  {
    CountBelow(p.max);
    SubsetCount(p.used, IdsBelow(p.max));
    var d := FirstFree(p, 0);
    if d < p.max {
      assert Around(p.next, d, p.max) in IdsBelow(p.max);
      assert p.used != IdsBelow(p.max);
    } else {
      forall id | id in IdsBelow(p.max)
        ensures id in p.used
      {
        var j := if id >= p.next then id - p.next else id + p.max - p.next;
        assert Around(p.next, j, p.max) == id;
      }
      assert p.used == IdsBelow(p.max);
    }
  }

  /** The first `k` ids from the next one on, around the end, are in use. */
  ghost predicate InUse(p: Pool, k: nat) {
    forall j: nat | j < k :: Around(p.next, j, p.max) in p.used
  }

  lemma FoundFirst(p: Pool, k: nat)
    requires p.next < p.max && k < p.max && InUse(p, k) && Around(p.next, k, p.max) !in p.used
    ensures FirstFree(p, 0) == k
  {
  }

  /** While an id is free, the scan does not come around to where it started. */
  lemma InUseMore(p: Pool, k: nat)
    requires Ok(p) && p.next < p.max && |p.used| < p.max && k < p.max
    requires InUse(p, k) && Around(p.next, k, p.max) in p.used
    ensures InUse(p, k + 1) && k + 1 < p.max && Around(p.next, k + 1, p.max) != p.next
    ensures Around(p.next, k + 1, p.max) == Around(Around(p.next, k, p.max), 1, p.max)
  {
    FreeExactly(p);
    assert FirstFree(p, 0) > k;
  }

  datatype Op = Alloc | Free(id: nat)

  /** The id given, if any: the first free one from the next id on, around the end. */
  function Given(p: Pool): Option<nat>
    requires Ok(p)
  {
    if p.max == 0 || FirstFree(p, 0) == p.max then None else Some(Around(p.next, FirstFree(p, 0), p.max))
  }

  function Apply(p: Pool, op: Op): Pool
    requires Ok(p)
  {
    match op
    case Alloc =>
      (match Given(p)
       case None => p
       case Some(id) => Pool(p.max, p.used + {id}, Around(id, 1, p.max)))
    case Free(id) => p.(used := p.used - {id})
  }

  lemma ApplyOk(p: Pool, op: Op)
    requires Ok(p)
    ensures Ok(Apply(p, op))
  {
  }

  function Run(p: Pool, ops: seq<Op>): (r: Pool)
    requires Ok(p)
    ensures Ok(r)
    decreases |ops|
  {
    if ops == [] then p else ApplyOk(p, ops[0]); Run(Apply(p, ops[0]), ops[1..])
  }

  /** An id in use is not given out, and stays in use, as long as it is not freed. */
  lemma {:induction false} KeptUntilFreed(p: Pool, ops: seq<Op>, id: nat)
    requires Ok(p) && id in p.used && Free(id) !in ops
    ensures id in Run(p, ops).used && Given(Run(p, ops)) != Some(id)
    decreases |ops|
  {
    if ops != [] {
      ApplyOk(p, ops[0]);
      assert ops[0] != Free(id);
      KeptUntilFreed(Apply(p, ops[0]), ops[1..], id);
    }
  }

  predicate OnlyFrees(ops: seq<Op>) {
    forall op | op in ops :: op.Free?
  }

  lemma {:induction false} FreesKeep(p: Pool, ops: seq<Op>)
    requires Ok(p) && OnlyFrees(ops)
    ensures Run(p, ops).max == p.max && Run(p, ops).next == p.next && Run(p, ops).used <= p.used
    decreases |ops|
  {
    if ops != [] {
      assert ops[0] in ops && ops[0].Free?;
      ApplyOk(p, ops[0]);
      FreesKeep(Apply(p, ops[0]), ops[1..]);
    }
  }

  /** `x` is passed on the way up from behind `a` to `b`, around the end. */
  predicate Passed(a: nat, x: nat, b: nat) {
    if a < b then a < x < b else x > a || x < b
  }

  /** Ids are given in turn: between one id and the next one given, whatever is freed in between,
      the ids passed over are all in use. */
  lemma GivenInTurn(p: Pool, frees: seq<Op>, a: nat, b: nat, x: nat)
    requires Ok(p) && OnlyFrees(frees) && Given(p) == Some(a) && Given(Run(Apply(p, Alloc), frees)) == Some(b)
    requires Passed(a, x, b) && x < p.max
    ensures x in Run(Apply(p, Alloc), frees).used
  {
    var q := Apply(p, Alloc);
    ApplyOk(p, Alloc);
    FreesKeep(q, frees);
    var r := Run(q, frees);
    assert r.next == if a + 1 < p.max then a + 1 else 0;
    var d := FirstFree(r, 0);
    var j := if x >= r.next then x - r.next else x + r.max - r.next;
    assert Around(r.next, j, r.max) == x;
    assert Around(r.next, d, r.max) == b;
    assert j < d;
  }

  /** An id that was given and freed at once is given again only when every other id is in use. */
  lemma ReusedLast(p: Pool, frees: seq<Op>, a: nat, x: nat)
    requires Ok(p) && OnlyFrees(frees) && Given(p) == Some(a) && Given(Run(Apply(p, Alloc), frees)) == Some(a)
    requires x < p.max && x != a
    ensures x in Run(Apply(p, Alloc), frees).used
  {
    GivenInTurn(p, frees, a, a, x);
  }

  // ----- bits -----

  /** Bit `k` of a word. */
  predicate Bit(w: nat, k: nat) {
    if k == 0 then w % 2 == 1 else Bit(w / 2, k - 1)
  }

  lemma {:induction false} ZeroBits(k: nat)
    ensures !Bit(0, k)
  {
    if k > 0 { ZeroBits(k - 1); }
  }

  lemma {:induction false} PowBits(k: nat, j: nat)
    ensures Bit(Pow2(k), j) <==> j == k
  {
    if k == 0 {
      if j > 0 { ZeroBits(j - 1); }
    } else if j > 0 {
      PowBits(k - 1, j - 1);
    }
  }

  lemma {:induction false} OrBits(x: nat, y: nat, k: nat)
    ensures Bit(Or(x, y), k) <==> Bit(x, k) || Bit(y, k)
    decreases k
  {
    ZeroBits(k);
    if x > 0 && y > 0 {
      var z := Or(x, y);
      assert z % 2 == (if x % 2 == 1 || y % 2 == 1 then 1 else 0) && z / 2 == Or(x / 2, y / 2);
      if k > 0 { OrBits(x / 2, y / 2, k - 1); }
    }
  }

  lemma {:induction false} AndNotBits(x: nat, y: nat, k: nat)
    ensures Bit(AndNot(x, y), k) <==> Bit(x, k) && !Bit(y, k)
    decreases k
  {
    ZeroBits(k);
    if k > 0 { AndNotBits(x / 2, y / 2, k - 1); }
  }

  /** Testing a word with a one-bit mask tests that bit. */
  lemma {:induction false} MaskTests(x: nat, k: nat)
    ensures And(x, Pow2(k)) == 0 <==> !Bit(x, k)
  {
    if k > 0 {
      if x == 0 { ZeroBits(k); } else { MaskTests(x / 2, k - 1); }
    }
  }

  lemma SetsBit(w: nat, k: nat, j: nat)
    ensures Bit(Or(w, Pow2(k)), j) <==> Bit(w, j) || j == k
    ensures Bit(AndNot(w, Pow2(k)), j) <==> Bit(w, j) && j != k
  {
    OrBits(w, Pow2(k), j);
    AndNotBits(w, Pow2(k), j);
    PowBits(k, j);
  }

  // ----- the allocator -----

  /** The return value as a signed number. */
  function AsInt32(id: nat): int
    requires id < U32
  {
    if id < 0x8000_0000 then id else id - U32
  }

  /** The words of the bitmap for `max` ids. */
  function Words(max: nat): nat {
    (max + BITS_PER_WORD - 1) / BITS_PER_WORD
  }

  function WordOf(id: nat): nat { id / 32 }

  function BitOf(id: nat): nat { id % 32 }

  /** The bitmap has a word for every id, and none too many. */
  lemma WordsSuffice(max: nat)
    ensures forall id | 0 <= id < max :: WordOf(id) < Words(max)
    ensures max > 0 ==> WordOf(max - 1) == Words(max) - 1
  {
  }

  class Allocator {
    const bitmap: array<nat>
    const maxIds: nat
    var freeCount: nat
    var nextId: nat
    /** The ids in use. */
    ghost var used: set<nat>

    ghost predicate Valid()
      reads this, bitmap
    {
      (forall id | 0 <= id < maxIds :: WordOf(id) < bitmap.Length) && maxIds < U32 &&
      (forall id | 0 <= id < maxIds :: id in used <==> Bit(bitmap[WordOf(id)], BitOf(id))) &&
      Ok(View()) && freeCount == maxIds - |used|
    }

    ghost function View(): Pool
      reads this
    {
      Pool(maxIds, used, nextId)
    }

    constructor (maxIds: nat)
      requires maxIds < U32
      ensures Valid() && View() == Pool(maxIds, {}, 0) && fresh(bitmap) && freeCount == maxIds
    {
      WordsSuffice(maxIds);
      bitmap := new nat[Words(maxIds)](_ => 0);
      this.maxIds, freeCount, nextId, used := maxIds, maxIds, 0, {};
      new;
      forall id | 0 <= id < maxIds
        ensures !Bit(bitmap[WordOf(id)], BitOf(id))
      {
        ZeroBits(BitOf(id));
      }
    }

    /** Writes a word that differs in the bit of `id` only. */
    method SetWord(id: nat, word: nat, ghost taken: bool)
      requires (forall i | 0 <= i < maxIds :: WordOf(i) < bitmap.Length) && id < maxIds
      requires forall i | 0 <= i < maxIds :: i in used <==> Bit(bitmap[WordOf(i)], BitOf(i))
      requires forall j :: Bit(word, j) <==> if j == BitOf(id) then taken else Bit(bitmap[WordOf(id)], j)
      modifies bitmap, this`used
      ensures used == if taken then old(used) + {id} else old(used) - {id}
      ensures forall i | 0 <= i < maxIds :: i in used <==> Bit(bitmap[WordOf(i)], BitOf(i))
    {
      bitmap[WordOf(id)] := word;
      used := if taken then used + {id} else used - {id};
    }

    /** Takes the id if it is free. */
    method TryTake(id: nat) returns (taken: bool)
      requires Valid() && id < maxIds && freeCount > 0
      modifies bitmap, this`used, this`freeCount
      ensures Valid() && taken == (id !in old(used))
      ensures used == (if taken then old(used) + {id} else old(used)) && freeCount == if taken then old(freeCount) - 1 else old(freeCount)
    {
      var word, mask := bitmap[WordOf(id)], Pow2(BitOf(id));
      MaskTests(word, BitOf(id));
      if And(word, mask) != 0 {
        return false;
      }
      forall j
        ensures Bit(Or(word, mask), j) <==> Bit(word, j) || j == BitOf(id)
      {
        SetsBit(word, BitOf(id), j);
      }
      SetWord(id, Or(word, mask), true);
      freeCount := freeCount - 1;
      taken := true;
    }

    /** The first free id from the next one on, around the end; -1 if and only if none is free.
        The return behind the source's scan loop is never reached. */
    method IdAlloc() returns (r: int)
      requires Valid()
      modifies this, bitmap
      ensures Valid() && View() == Apply(old(View()), Alloc)
      ensures r == match Given(old(View())) case None => -1 case Some(id) => AsInt32(id)
      ensures r == -1 <==> old(freeCount) == 0
    {
      FreeIffCounted();
      if freeCount == 0 {
        return -1;
      }
      var start := nextId;
      var id := start;
      ghost var k := 0;
      while true
        invariant 0 <= k < maxIds && id == Around(start, k, maxIds) && start == nextId == old(nextId)
        invariant Valid() && used == old(used) && freeCount > 0
        invariant InUse(View(), k)
        decreases maxIds - k
      {
        var taken := TryTake(id);
        if taken {
          FoundFirst(Pool(maxIds, old(used), start), k);
          nextId := Next(id);
          return AsInt32(id);
        }
        InUseMore(View(), k);
        id := Next(id);
        k := k + 1;
        if id == start {
          assert false;
        }
      }
    }

    /** `(id + 1) % max_ids` */
    function Next(id: nat): (n: nat)
      requires id < maxIds
      ensures n == Around(id, 1, maxIds)
    {
      (id + 1) % maxIds
    }

    lemma FreeIffCounted()
      requires Valid()
      ensures freeCount == 0 <==> Given(View()) == None
    {
      if maxIds > 0 {
        FreeExactly(View());
      } else {
        assert used == {};
      }
    }

    /** Frees the id; refuses an id that is out of range or not in use. */
    method IdFree(id: nat) returns (ok: bool)
      requires Valid() && id < U32
      modifies this, bitmap
      ensures Valid() && View() == Apply(old(View()), Free(id)) && ok == (id in old(used))
    {
      if id >= maxIds {
        return false;
      }
      var word, mask := bitmap[WordOf(id)], Pow2(BitOf(id));
      MaskTests(word, BitOf(id));
      if And(word, mask) == 0 {
        return false;
      }
      forall j
        ensures Bit(AndNot(word, mask), j) <==> Bit(word, j) && j != BitOf(id)
      {
        SetsBit(word, BitOf(id), j);
      }
      SetWord(id, AndNot(word, mask), false);
      freeCount := freeCount + 1;
      return true;
    }
  }
}
