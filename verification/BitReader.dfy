/** The MP3 decoder's bit reader, and the side information read with it. */
module BitReader {
  import opened Machine

  // ----- shifts and masks -----

  /** `x << k` */
  function Shl(x: nat, k: nat): nat {
    if k == 0 then x else 2 * Shl(x, k - 1)
  }

  /** `x >> k` */
  function Shr(x: nat, k: nat): nat {
    if k == 0 then x else Shr(x / 2, k - 1)
  }

  /** The `k` low bits of `x`. */
  function LowBits(x: nat, k: nat): nat {
    if k == 0 then 0 else x % 2 + 2 * LowBits(x / 2, k - 1)
  }

  /** `2^k - 1` */
  function Ones(k: nat): nat {
    if k == 0 then 0 else 1 + 2 * Ones(k - 1)
  }

  lemma {:induction false} AndOnes(x: nat, k: nat)
    ensures And(x, Ones(k)) == LowBits(x, k)
  {
    if k > 0 {
      AndOnes(x / 2, k - 1);
      if x == 0 {
        LowBitsZero(k);
      }
    }
  }

  lemma {:induction false} LowBitsZero(k: nat)
    ensures LowBits(0, k) == 0
  {
    if k > 0 {
      LowBitsZero(k - 1);
    }
  }

  /** Or is addition where one side has only zero low bits and the other nothing else. */
  lemma {:induction false} OrAdds(x: nat, k: nat, y: nat)
    requires y <= Ones(k)
    ensures Or(Shl(x, k), y) == Shl(x, k) + y
  {
    if k > 0 && y > 0 {
      OrAdds(x, k - 1, y / 2);
    }
  }

  lemma {:induction false} ShlAdds(x: nat, y: nat, k: nat)
    ensures Shl(x + y, k) == Shl(x, k) + Shl(y, k)
  {
    if k > 0 {
      ShlAdds(x, y, k - 1);
    }
  }

  lemma {:induction false} ShlTwice(x: nat, a: nat, b: nat)
    ensures Shl(Shl(x, a), b) == Shl(x, a + b)
  {
    if b > 0 {
      ShlTwice(x, a, b - 1);
    }
  }

  // ----- the meaning: bits, most significant first -----

  /** Bit `i` counted from byte `p`. */
  function BitAt(buf: seq<Byte>, p: nat, i: nat): (b: nat)
    requires 8 * p + i < 8 * |buf|
    ensures b <= 1
    decreases i
  {
    if i < 8 then Shr(buf[p], 7 - i) % 2 else BitAt(buf, p + 1, i - 8)
  }

  type Bit = b: nat | b <= 1

  /** The bits of the bytes, most significant first. */
  function Unpack(buf: seq<Byte>): (bits: seq<Bit>)
    ensures |bits| == 8 * |buf|
  {
    seq<Bit>(8 * |buf|, i requires 0 <= i < 8 * |buf| => BitAt(buf, 0, i))
  }

  /** The `n` bits from `pos`, as a number. */
  function Bits(bits: seq<Bit>, pos: nat, n: nat): (v: nat)
    requires pos + n <= |bits|
    decreases n
  {
    if n == 0 then 0 else 2 * Bits(bits, pos, n - 1) + bits[pos + n - 1]
  }

  lemma {:induction false} BitsBound(bits: seq<Bit>, pos: nat, n: nat)
    requires pos + n <= |bits|
    ensures Bits(bits, pos, n) <= Ones(n)
    decreases n
  {
    if n > 0 {
      BitsBound(bits, pos, n - 1);
    }
  }

  /** Reading in two goes is reading at once. */
  lemma {:induction false} BitsSplit(bits: seq<Bit>, pos: nat, a: nat, b: nat)
    requires pos + a + b <= |bits|
    ensures Bits(bits, pos, a + b) == Shl(Bits(bits, pos, a), b) + Bits(bits, pos + a, b)
    decreases b
  {
    if b > 0 {
      BitsSplit(bits, pos, a, b - 1);
      var x, y := Bits(bits, pos, a), Bits(bits, pos + a, b - 1);
      var bit := bits[pos + a + b - 1];
      assert Bits(bits, pos, a + b) == 2 * (Shl(x, b - 1) + y) + bit;
      assert Bits(bits, pos + a, b) == 2 * y + bit;
    }
  }

  /** Shifting out the last bits leaves the first. */
  lemma {:induction false} BitsDrop(bits: seq<Bit>, pos: nat, a: nat, b: nat)
    requires pos + a + b <= |bits|
    ensures Shr(Bits(bits, pos, a + b), b) == Bits(bits, pos, a)
    decreases b
  {
    if b > 0 {
      assert Bits(bits, pos, a + b) / 2 == Bits(bits, pos, a + b - 1);
      BitsDrop(bits, pos, a, b - 1);
    }
  }

  lemma {:induction false} ShrTwo(x: nat, k: nat)
    ensures Shr(x, k) / 2 == Shr(x, k + 1)
  {
    if k > 0 {
      ShrTwo(x / 2, k - 1);
    }
  }

  lemma {:induction false} BitOfByte(buf: seq<Byte>, p: nat, i: nat, j: nat)
    requires p + i < |buf| && j < 8
    ensures BitAt(buf, p, 8 * i + j) == Shr(buf[p + i], 7 - j) % 2
    decreases i
  {
    if i > 0 {
      BitOfByte(buf, p + 1, i - 1, j);
    }
  }

  lemma UnpackedBit(buf: seq<Byte>, i: nat, j: nat)
    requires i < |buf| && j < 8
    ensures Unpack(buf)[8 * i + j] == Shr(buf[i], 7 - j) % 2
  {
    BitOfByte(buf, 0, i, j);
  }

  lemma NextLowBit(x: nat, k: nat)
    requires k > 0
    ensures LowBits(x, k) == x % 2 + 2 * LowBits(x / 2, k - 1)
  {
  }

  /** Bits within one byte. */
  lemma {:induction false} BitsInByte(buf: seq<Byte>, i: nat, s: nat, k: nat)
    requires i < |buf| && s + k <= 8
    ensures Bits(Unpack(buf), 8 * i + s, k) == LowBits(Shr(buf[i], 8 - s - k), k)
    decreases k
  {
    if k > 0 {
      BitsInByte(buf, i, s, k - 1);
      UnpackedBit(buf, i, s + k - 1);
      ShrTwo(buf[i], 8 - s - k);
      NextLowBit(Shr(buf[i], 8 - s - k), k);
    }
  }

  lemma {:induction false} LowBitsWhole(x: nat, k: nat)
    requires x <= Ones(k)
    ensures LowBits(x, k) == x
  {
    if k > 0 {
      LowBitsWhole(x / 2, k - 1);
    }
  }

  lemma EightOnes()
    ensures Ones(8) == 255
  {
    assert Ones(2) == 3 && Ones(4) == 15 && Ones(6) == 63;
  }

  lemma WholeByte(buf: seq<Byte>, i: nat)
    requires i < |buf|
    ensures Bits(Unpack(buf), 8 * i, 8) == buf[i]
  {
    BitsInByte(buf, i, 0, 8);
    EightOnes();
    LowBitsWhole(buf[i], 8);
  }

  /** A field of `n` bits at `pos`; zero where it runs past the end. */
  function Field(buf: seq<Byte>, pos: nat, n: nat): nat {
    if pos + n > 8 * |buf| then 0 else Bits(Unpack(buf), pos, n)
  }

  lemma FieldBound(buf: seq<Byte>, pos: nat, n: nat)
    ensures Field(buf, pos, n) <= Ones(n)
  {
    if pos + n <= 8 * |buf| {
      BitsBound(Unpack(buf), pos, n);
    }
  }

  // ----- the reader -----

  class BitStream {
    var buf: seq<Byte>
    var pos: nat
    var limit: nat

    ghost predicate Valid()
      reads this
    {
      limit == 8 * |buf|
    }

    constructor (data: seq<Byte>)
      ensures Valid() && buf == data && pos == 0
    {
      buf, pos, limit := data, 0, 8 * |data|;
    }

    /** The next `n` bits, most significant first; zero, with the position moved
        all the same, if they run past the limit. */
    method GetBits(n: nat) returns (v: nat)
      requires Valid() && 0 < n <= 32
      modifies this`pos
      ensures pos == old(pos) + n
      ensures v == Field(buf, old(pos), n)
    {
      var s := pos % 8;
      var p := pos / 8;
      pos := pos + n;
      if pos > limit {
        return 0;
      }
      v := Gather(p, s, n);

    }

    /** The bits from bit `s` of byte `first` on, byte by byte. */
    method Gather(first: nat, s: nat, n: nat) returns (v: nat)
      requires s < 8 && 0 < n && 8 * first + s + n <= 8 * |buf|
      ensures v == Bits(Unpack(buf), 8 * first + s, n)
    {
      GatherIsBits(buf, first, s, n);
      var p: nat, shl: int := first, n + s - 8;
      var cache, next := 0, And(buf[p], Ones(8 - s));
      p := p + 1;
      while shl > 0
        invariant p <= |buf| && shl <= 8 * (|buf| - p)
        invariant Gathered(buf, p, cache, next, shl) ==
                  Gathered(buf, first + 1, 0, And(buf[first], Ones(8 - s)), n + s - 8)
      {
        cache, next := Or(cache, Shl(next, shl)), buf[p];
        p, shl := p + 1, shl - 8;
      }
      v := Or(cache, Shr(next, -shl));
    }
  }

  /** What the loop makes of the bytes from `p` on. */
  function Gathered(buf: seq<Byte>, p: nat, cache: nat, next: nat, shl: int): nat
    requires p <= |buf| && shl <= 8 * (|buf| - p)
    decreases if shl > 0 then shl else 0
  {
    if shl > 0 then Gathered(buf, p + 1, Or(cache, Shl(next, shl)), buf[p], shl - 8) else Or(cache, Shr(next, -shl))
  }

  lemma GatherIsBits(buf: seq<Byte>, p: nat, s: nat, n: nat)
    requires s < 8 && 0 < n && 8 * p + s + n <= 8 * |buf|
    ensures Gathered(buf, p + 1, 0, And(buf[p], Ones(8 - s)), n + s - 8) == Bits(Unpack(buf), 8 * p + s, n)
  {
    GatherStart(buf, 8 * p + s, n, p, s);
    var bits, start := Unpack(buf), 8 * p + s;
    var held := (d: nat, w: nat, p: nat, cache: nat, next: nat) => Gathering(bits, start, n, d, w, p, cache, next);
    GatheredIsBits(buf, bits, start, n, held, 0, 8 - s, p + 1, 0, And(buf[p], Ones(8 - s)), n + s - 8);
  }

  /** `held` says of a reader's state what `Gathering` says, as a function value. */
  ghost predicate StandsForGathering(held: (nat, nat, nat, nat, nat) -> bool, bits: seq<Bit>, start: nat, n: nat) {
    forall d: nat, w: nat, p: nat, cache: nat, next: nat {:trigger Gathering(bits, start, n, d, w, p, cache, next)} ::
      held(d, w, p, cache, next) == Gathering(bits, start, n, d, w, p, cache, next)
  }

  lemma HeldStep(buf: seq<Byte>, bits: seq<Bit>, start: nat, n: nat, held: (nat, nat, nat, nat, nat) -> bool,
                 d: nat, w: nat, p: nat, cache: nat, next: nat)
    requires bits == Unpack(buf) && StandsForGathering(held, bits, start, n) && held(d, w, p, cache, next)
    ensures start + n <= |bits|
    ensures d + w < n ==>
      p < |buf| && n - d - w <= 8 * (|buf| - p) && held(d + w, 8, p + 1, Or(cache, Shl(next, n - d - w)), buf[p])
    ensures d + w >= n ==> p <= |buf| && Or(cache, Shr(next, d + w - n)) == Bits(bits, start, n)
  {
    assert Gathering(bits, start, n, d, w, p, cache, next);
    if d + w < n {
      GatherStep(buf, bits, start, n, d, w, p, cache, next);
      assert Gathering(bits, start, n, d + w, 8, p + 1, Or(cache, Shl(next, n - d - w)), buf[p]);
    } else {
      GatherEnd(bits, start, n, d, w, p, cache, next);
    }
  }

  lemma {:induction false} GatheredIsBits(buf: seq<Byte>, bits: seq<Bit>, start: nat, n: nat,
                                          held: (nat, nat, nat, nat, nat) -> bool,
                                          d: nat, w: nat, p: nat, cache: nat, next: nat, shl: int)
    requires bits == Unpack(buf) && StandsForGathering(held, bits, start, n) && held(d, w, p, cache, next)
    requires shl == n - d - w && p <= |buf| && shl <= 8 * (|buf| - p) && start + n <= |bits|
    ensures Gathered(buf, p, cache, next, shl) == Bits(bits, start, n)
    decreases if shl > 0 then shl else 0
  {
    HeldStep(buf, bits, start, n, held, d, w, p, cache, next);
    if shl > 0 {
      var more := Or(cache, Shl(next, shl));
      GatheredMore(buf, p, cache, next, shl, more);
      GatheredIsBits(buf, bits, start, n, held, d + w, 8, p + 1, more, buf[p], shl - 8);
    }
  }

  lemma GatheredMore(buf: seq<Byte>, p: nat, cache: nat, next: nat, shl: int, more: nat)
    requires p < |buf| && 0 < shl <= 8 * (|buf| - p) && more == Or(cache, Shl(next, shl))
    ensures Gathered(buf, p, cache, next, shl) == Gathered(buf, p + 1, more, buf[p], shl - 8)
  {
  }

  lemma GatherEnd(bits: seq<Bit>, start: nat, n: nat, d: nat, w: nat, p: nat, cache: nat, next: nat)
    requires Gathering(bits, start, n, d, w, p, cache, next) && n <= d + w
    ensures Or(cache, Shr(next, d + w - n)) == Bits(bits, start, n)
  {
    Finished(bits, start, d, n - d, d + w - n, cache, next);
  }

  /** The reader's state after `d` bits went to the cache and the next `w` bits were fetched. */
  ghost predicate Gathering(bits: seq<Bit>, start: nat, n: nat, d: nat, w: nat, p: nat, cache: nat, next: nat) {
    d < n && start + n <= |bits| && 8 * p <= |bits| && start + d + w == 8 * p &&
    cache == Shl(Bits(bits, start, d), n - d) && next == Bits(bits, start + d, w)
  }

  lemma GatherStart(buf: seq<Byte>, start: nat, n: nat, p: nat, s: nat)
    requires s < 8 && start == 8 * p + s && 0 < n && start + n <= 8 * |buf|
    ensures p < |buf| && Gathering(Unpack(buf), start, n, 0, 8 - s, p + 1, 0, And(buf[p], Ones(8 - s)))
  {
    FirstBits(buf, p, s);
    ShlZero(n);
  }

  lemma GatherStep(buf: seq<Byte>, bits: seq<Bit>, start: nat, n: nat, d: nat, w: nat, p: nat, cache: nat, next: nat)
    requires bits == Unpack(buf) && Gathering(bits, start, n, d, w, p, cache, next) && d + w < n
    ensures p < |buf|
    ensures Gathering(bits, start, n, d + w, 8, p + 1, Or(cache, Shl(next, n - d - w)), buf[p])
  {
    Collected(bits, start, d, w, n - d - w, cache, next);
    WholeByte(buf, p);
  }

  lemma {:induction false} ShlZero(k: nat)
    ensures Shl(0, k) == 0
  {
    if k > 0 {
      ShlZero(k - 1);
    }
  }

  lemma FirstBits(buf: seq<Byte>, i: nat, s: nat)
    requires i < |buf| && s < 8
    ensures And(buf[i], Ones(8 - s)) == Bits(Unpack(buf), 8 * i + s, 8 - s)
  {
    AndOnes(buf[i], 8 - s);
    BitsInByte(buf, i, s, 8 - s);
  }

  lemma {:induction false} ShlBound(y: nat, w: nat, k: nat)
    requires y <= Ones(w)
    ensures Shl(y, k) <= Ones(w + k)
  {
    if k > 0 {
      ShlBound(y, w, k - 1);
    }
  }

  lemma Joined(x: nat, y: nat, w: nat, k: nat)
    requires y <= Ones(w)
    ensures Or(Shl(x, w + k), Shl(y, k)) == Shl(Shl(x, w) + y, k)
  {
    ShlTwice(x, w, k);
    ShlAdds(Shl(x, w), y, k);
    ShlBound(y, w, k);
    OrAdds(x, w + k, Shl(y, k));
  }

  /** The bits of one more byte join the cache above the place of the bits still to come. */
  lemma Collected(bits: seq<Bit>, start: nat, d: nat, w: nat, k: nat, cache: nat, next: nat)
    requires start + d + w <= |bits|
    requires cache == Shl(Bits(bits, start, d), w + k) && next == Bits(bits, start + d, w)
    ensures Or(cache, Shl(next, k)) == Shl(Bits(bits, start, d + w), k)
  {
    BitsSplit(bits, start, d, w);
    BitsBound(bits, start + d, w);
    Joined(Bits(bits, start, d), next, w, k);
  }

  /** The first `m` bits of the last byte complete the number. */
  lemma Finished(bits: seq<Bit>, start: nat, d: nat, m: nat, r: nat, cache: nat, next: nat)
    requires start + d + m + r <= |bits|
    requires cache == Shl(Bits(bits, start, d), m) && next == Bits(bits, start + d, m + r)
    ensures Or(cache, Shr(next, r)) == Bits(bits, start, d + m)
  {
    BitsSplit(bits, start, d, m);
    BitsDrop(bits, start + d, m, r);
    BitsBound(bits, start + d, m);
    Completed(Bits(bits, start, d), m, Bits(bits, start + d, m), next, r);
  }

  lemma Completed(x: nat, m: nat, z: nat, y: nat, r: nat)
    requires z <= Ones(m) && Shr(y, r) == z
    ensures Or(Shl(x, m), Shr(y, r)) == Shl(x, m) + z
  {
    OrAdds(x, m, z);
  }
}
