/** Memory as bytes, and runs of steps that each write a few of them. */
module Patches {
  import opened Machine
  import opened Elf

  // ----- memory -----

  type Memory = map<nat, Byte>

  /** The byte at `a`. */
  function At(mem: Memory, a: nat): Byte {
    if a in mem then mem[a] else 0
  }

  /** The little-endian number in the `n` bytes at `a`. */
  function Load(mem: Memory, a: nat, n: nat): nat
    decreases n
  {
    if n == 0 then 0 else At(mem, a) + 256 * Load(mem, a + 1, n - 1)
  }

  /** Byte `i` of a number, the least significant one first. */
  function ByteOf(v: nat, i: nat): Byte {
    if i == 0 then v % 256 else ByteOf(v / 256, i - 1)
  }

  /** The `n` bytes at `a` are those of `v`. */
  ghost predicate Stores(mem: Memory, a: nat, v: nat, n: nat) {
    forall i: nat | i < n :: At(mem, a + i) == ByteOf(v, i)
  }

  /** A number that fits is read back where its bytes are. */
  lemma {:induction false} StoredLoads(mem: Memory, a: nat, v: nat, n: nat)
    requires Stores(mem, a, v, n) && v < Limit(n)
    ensures Load(mem, a, n) == v
    decreases n
  {
    if n > 0 {
      assert At(mem, a + 0) == ByteOf(v, 0);
      forall i: nat | i < n - 1
        ensures At(mem, a + 1 + i) == ByteOf(v / 256, i)
      {
        assert At(mem, a + (i + 1)) == ByteOf(v, i + 1);
      }
      StoredLoads(mem, a + 1, v / 256, n - 1);
    }
  }

  /** Memory is little-endian. */
  lemma {:induction false} LoadByte(mem: Memory, a: nat, n: nat, i: nat)
    requires i < n
    ensures ByteOf(Load(mem, a, n), i) == At(mem, a + i)
    decreases n
  {
    if i > 0 {
      assert Load(mem, a, n) / 256 == Load(mem, a + 1, n - 1);
      LoadByte(mem, a + 1, n - 1, i - 1);
    }
  }

  /** Memory with `bytes` written at `at`. */
  function Patch(mem: Memory, at: nat, bytes: seq<Byte>): Memory
    decreases |bytes|
  {
    if bytes == [] then mem else Patch(mem[at := bytes[0]], at + 1, bytes[1..])
  }

  lemma {:induction false} PatchAt(mem: Memory, at: nat, bytes: seq<Byte>, a: nat)
    ensures At(Patch(mem, at, bytes), a) == if at <= a < at + |bytes| then bytes[a - at] else At(mem, a)
    decreases |bytes|
  {
    if bytes != [] {
      PatchAt(mem[at := bytes[0]], at + 1, bytes[1..], a);
    }
  }

  /** The `n` bytes at `a`. */
  function Slice(mem: Memory, a: nat, n: nat): (s: seq<Byte>)
    ensures |s| == n && forall i | 0 <= i < n :: s[i] == At(mem, a + i)
  {
    seq<Byte>(n, i requires 0 <= i < n => At(mem, a + i))
  }

  /** The `n` low bytes of `v`, least significant first. */
  function Bytes(v: nat, n: nat): (s: seq<Byte>)
    ensures |s| == n
  {
    if n == 0 then [] else [(v % 256) as Byte] + Bytes(v / 256, n - 1)
  }

  function Limit(n: nat): (l: nat)
    ensures l > 0
  {
    if n == 0 then 1 else 256 * Limit(n - 1)
  }

  lemma Limits()
    ensures Limit(2) == 0x1_0000 && Limit(4) == 0x1_0000_0000 && Limit(8) == U64
  {
    assert Limit(6) == 0x1_0000_0000_0000;
  }

  /** Memory agrees with `bytes` at `at`. */
  ghost predicate Holds(mem: Memory, at: nat, bytes: seq<Byte>) {
    forall i | 0 <= i < |bytes| :: At(mem, at + i) == bytes[i]
  }

  /** Where the low bytes of a value are, loading gives the value modulo the width. */
  lemma {:induction false} LoadBytes(mem: Memory, at: nat, v: nat, n: nat)
    requires Holds(mem, at, Bytes(v, n))
    ensures Load(mem, at, n) == Truncate(v, n)
    decreases n
  {
    if n > 0 {
      var tail := Bytes(v / 256, n - 1);
      assert At(mem, at + 0) == Bytes(v, n)[0];
      forall i | 0 <= i < |tail|
        ensures At(mem, at + 1 + i) == tail[i]
      {
        assert At(mem, at + (i + 1)) == Bytes(v, n)[i + 1];
      }
      LoadBytes(mem, at + 1, v / 256, n - 1);
    }
  }

  /** The `n` low bytes of `v`, as a number. */
  function Truncate(v: nat, n: nat): nat {
    if n == 0 then 0 else v % 256 + 256 * Truncate(v / 256, n - 1)
  }

  lemma {:induction false} TruncateFits(v: nat, n: nat)
    requires v < Limit(n)
    ensures Truncate(v, n) == v
  {
    if n > 0 {
      TruncateFits(v / 256, n - 1);
    }
  }

  lemma Truncates(v: nat)
    ensures Truncate(v, 4) == v % 0x1_0000_0000
    ensures v < U64 ==> Truncate(v, 8) == v
  {
    var a, b, c := v / 256, v / 256 / 256, v / 256 / 256 / 256;
    assert Truncate(c, 1) == c % 256;
    assert Truncate(b, 2) == b % 256 + 256 * Truncate(c, 1);
    assert Truncate(a, 3) == a % 256 + 256 * Truncate(b, 2);
    assert Truncate(v, 4) == v % 256 + 256 * Truncate(a, 3);
    TwoBytes(b);
    ThreeBytes(a);
    FourBytes(v);
    assert Limit(4) == 0x1_0000_0000 && Limit(6) == 0x1_0000_0000_0000;
    if v < U64 {
      TruncateFits(v, 8);
    }
  }

  lemma TwoBytes(v: nat)
    ensures v % 256 + 256 * (v / 256 % 256) == v % 0x1_0000
  {
    TwoBytesParts(v, v / 256, v / 256 / 256, v / 256 % 256, v % 256);
  }

  lemma TwoBytesParts(v: nat, h: nat, a: nat, b: nat, r: nat)
    requires v == 256 * h + r && h == 256 * a + b && b < 256 && r < 256
    ensures v % 0x1_0000 == r + 256 * b
  {
    Remainder2(v, a, 256 * b + r);
  }

  lemma Remainder2(v: nat, q: nat, r: nat)
    requires v == 0x1_0000 * q + r && r < 0x1_0000
    ensures v % 0x1_0000 == r
  {
  }

  lemma ThreeBytes(v: nat)
    ensures v % 256 + 256 * (v / 256 % 0x1_0000) == v % 0x100_0000
  {
    ThreeBytesParts(v, v / 256, v / 256 / 0x1_0000, v / 256 % 0x1_0000, v % 256);
  }

  lemma ThreeBytesParts(v: nat, h: nat, a: nat, b: nat, r: nat)
    requires v == 256 * h + r && h == 0x1_0000 * a + b && b < 0x1_0000 && r < 256
    ensures v % 0x100_0000 == r + 256 * b
  {
    Remainder3(v, a, 256 * b + r);
  }

  lemma Remainder3(v: nat, q: nat, r: nat)
    requires v == 0x100_0000 * q + r && r < 0x100_0000
    ensures v % 0x100_0000 == r
  {
  }

  lemma FourBytes(v: nat)
    ensures v % 256 + 256 * (v / 256 % 0x100_0000) == v % 0x1_0000_0000
  {
    FourBytesParts(v, v / 256, v / 256 / 0x100_0000, v / 256 % 0x100_0000, v % 256);
  }

  lemma FourBytesParts(v: nat, h: nat, a: nat, b: nat, r: nat)
    requires v == 256 * h + r && h == 0x100_0000 * a + b && b < 0x100_0000 && r < 256
    ensures v % 0x1_0000_0000 == r + 256 * b
  {
    Remainder4(v, a, 256 * b + r);
  }

  lemma Remainder4(v: nat, q: nat, r: nat)
    requires v == 0x1_0000_0000 * q + r && r < 0x1_0000_0000
    ensures v % 0x1_0000_0000 == r
  {
  }

  /** The `n` bytes at `a` are the same in both memories. */
  ghost predicate SameBytes(mem: Memory, mem': Memory, a: nat, n: nat) {
    forall b: nat | a <= b < a + n :: At(mem', b) == At(mem, b)
  }

  lemma {:induction false} LoadAgrees(mem: Memory, mem': Memory, a: nat, n: nat)
    requires SameBytes(mem, mem', a, n)
    ensures Load(mem', a, n) == Load(mem, a, n)
    decreases n
  {
    if n > 0 {
      LoadAgrees(mem, mem', a + 1, n - 1);
    }
  }

  // ----- runs of writes -----

  /** What one step does: it fails, or it writes bytes at its target. */
  datatype Effect = Fail | Write(at: nat, bytes: seq<Byte>)

  /** Memory when the steps end, and whether all of them succeeded. */
  datatype Outcome = Outcome(mem: Memory, done: bool)

  /** The steps `k .. n`, each decided on the memory it finds, up to the first that fails. */
  function Run(effect: (Memory, nat) -> Effect, mem: Memory, k: nat, n: nat): Outcome
    requires k <= n
    decreases n - k
  {
    if k == n then Outcome(mem, true)
    else
      match effect(mem, k)
      case Fail => Outcome(mem, false)
      case Write(at, bytes) => Run(effect, Patch(mem, at, bytes), k + 1, n)
  }

  predicate Targets(w: Effect, a: nat) {
    w.Write? && w.at <= a < w.at + |w.bytes|
  }

  /** Memory differs only where `inside` holds. */
  ghost predicate OnlyIn(inside: nat -> bool, mem: Memory, mem': Memory) {
    forall a: nat | !inside(a) :: At(mem', a) == At(mem, a)
  }

  ghost predicate StepIn(inside: nat -> bool, w: Effect) {
    forall a: nat | Targets(w, a) :: inside(a)
  }

  ghost predicate StepsIn(effect: (Memory, nat) -> Effect, inside: nat -> bool, n: nat) {
    forall m: Memory, k: nat | k < n :: StepIn(inside, effect(m, k))
  }

  lemma PatchIn(inside: nat -> bool, mem: Memory, w: Effect)
    requires w.Write? && StepIn(inside, w)
    ensures OnlyIn(inside, mem, Patch(mem, w.at, w.bytes))
  {
    forall a: nat | !inside(a)
      ensures At(Patch(mem, w.at, w.bytes), a) == At(mem, a)
    {
      PatchAt(mem, w.at, w.bytes, a);
      assert !Targets(w, a);
    }
  }

  lemma {:induction false} RunIn(effect: (Memory, nat) -> Effect, inside: nat -> bool, mem: Memory, k: nat, n: nat)
    requires k <= n && StepsIn(effect, inside, n)
    ensures OnlyIn(inside, mem, Run(effect, mem, k, n).mem)
    decreases n - k
  {
    if k < n {
      var w := effect(mem, k);
      if w.Write? {
        PatchIn(inside, mem, w);
        RunIn(effect, inside, Patch(mem, w.at, w.bytes), k + 1, n);
      }
    }
  }

  // ----- separate targets -----

  ghost predicate Agree(prot: nat -> bool, mem: Memory, mem': Memory) {
    forall a: nat | prot(a) :: At(mem', a) == At(mem, a)
  }

  /** The steps read only protected bytes, as far as `origin` is concerned. */
  ghost predicate ReadsOnly(effect: (Memory, nat) -> Effect, prot: nat -> bool, origin: Memory, n: nat) {
    forall m: Memory, k: nat | k < n && Agree(prot, origin, m) :: effect(m, k) == effect(origin, k)
  }

  /** No step writes a protected byte, and no byte is written by two steps. */
  ghost predicate Separate(effect: (Memory, nat) -> Effect, prot: nat -> bool, origin: Memory, n: nat) {
    (forall k: nat, a: nat | k < n && Targets(effect(origin, k), a) :: !prot(a)) &&
    (forall k: nat, l: nat, a: nat | k < n && l < n && Targets(effect(origin, k), a) && Targets(effect(origin, l), a) :: k == l)
  }

  /** With separate targets the order does not matter: every step's bytes, computed
      on the memory before the run, are in the memory after it, and the rest is as before. */
  lemma {:induction false} RunSeparate(effect: (Memory, nat) -> Effect, prot: nat -> bool, origin: Memory,
                                       mem: Memory, k: nat, n: nat)
    requires k <= n && ReadsOnly(effect, prot, origin, n) && Separate(effect, prot, origin, n)
    requires Agree(prot, origin, mem) && Run(effect, mem, k, n).done
    ensures var end := Run(effect, mem, k, n).mem;
            (forall l: nat | k <= l < n :: effect(origin, l).Write?) &&
            (forall l: nat, a: nat | k <= l < n && Targets(effect(origin, l), a) ::
               At(end, a) == effect(origin, l).bytes[a - effect(origin, l).at]) &&
            (forall a: nat | (forall l: nat | k <= l < n :: !Targets(effect(origin, l), a)) :: At(end, a) == At(mem, a))
    decreases n - k
  {
    if k < n {
      var w := effect(mem, k);
      assert w == effect(origin, k);
      var next := Patch(mem, w.at, w.bytes);
      forall a: nat
        ensures At(next, a) == if Targets(w, a) then w.bytes[a - w.at] else At(mem, a)
      {
        PatchAt(mem, w.at, w.bytes, a);
      }
      RunSeparate(effect, prot, origin, next, k + 1, n);
      var end := Run(effect, next, k + 1, n).mem;
      forall a: nat | forall l: nat | k <= l < n :: !Targets(effect(origin, l), a)
        ensures At(end, a) == At(mem, a)
      {
        assert !Targets(effect(origin, k), a);
      }
      forall a: nat | Targets(w, a)
        ensures At(end, a) == w.bytes[a - w.at]
      {
        forall l: nat | k + 1 <= l < n
          ensures !Targets(effect(origin, l), a)
        {
        }
      }
    }
  }

  /** What `RunSeparate` says of one step. */
  lemma StepHolds(effect: (Memory, nat) -> Effect, prot: nat -> bool, origin: Memory, n: nat, k: nat, w: Effect)
    requires ReadsOnly(effect, prot, origin, n) && Separate(effect, prot, origin, n) && Run(effect, origin, 0, n).done
    requires k < n && w == effect(origin, k)
    ensures w.Write? && Holds(Run(effect, origin, 0, n).mem, w.at, w.bytes)
  {
    RunSeparate(effect, prot, origin, origin, 0, n);
    var end := Run(effect, origin, 0, n).mem;
    forall i | 0 <= i < |w.bytes|
      ensures At(end, w.at + i) == w.bytes[i]
    {
      assert Targets(effect(origin, k), w.at + i);
    }
  }

  /** Steps that all write on the memory before the run all succeed, if their targets are separate. */
  lemma {:induction false} RunSucceeds(effect: (Memory, nat) -> Effect, prot: nat -> bool, origin: Memory,
                                       mem: Memory, k: nat, n: nat)
    requires k <= n && ReadsOnly(effect, prot, origin, n) && Separate(effect, prot, origin, n)
    requires Agree(prot, origin, mem) && forall l: nat | k <= l < n :: effect(origin, l).Write?
    ensures Run(effect, mem, k, n).done
    decreases n - k
  {
    if k < n {
      var w := effect(mem, k);
      assert w == effect(origin, k) && effect(origin, k).Write?;
      var next := Patch(mem, w.at, w.bytes);
      forall a: nat | prot(a)
        ensures At(next, a) == At(origin, a)
      {
        PatchAt(mem, w.at, w.bytes, a);
        assert !Targets(effect(origin, k), a);
      }
      RunSucceeds(effect, prot, origin, next, k + 1, n);
    }
  }
}
