/** Decoding and counting UTF-8. */
module Utf {
  import opened Machine

  const RUNE_ERROR: int := -1

  // ----- the encoding of section 3 of RFC 3629 -----

  function Encode(r: nat): (s: seq<Byte>)
    requires r <= 0x10FFFF
    ensures 1 <= |s| <= 4
  {
    if r < 0x80 then [r]
    else if r < 0x800 then [0xC0 + r / 64, 0x80 + r % 64]
    else if r < 0x10000 then [0xE0 + r / 64 / 64, 0x80 + r / 64 % 64, 0x80 + r % 64]
    else [0xF0 + r / 64 / 64 / 64, 0x80 + r / 64 / 64 % 64, 0x80 + r / 64 % 64, 0x80 + r % 64]
  }

  /** Neither a surrogate nor a non-character, and not too large. */
  predicate IsValidRune(r: int) {
    0 <= r <= 0x10FFFF && !(0xD800 <= r <= 0xDFFF) && !(0xFDD0 <= r <= 0xFDEF) && r % 0x10000 < 0xFFFE
  }

  /** The bytes of a sequence, by its first byte; 0 for bytes that start none. */
  function LeadLength(c: Byte): nat
    requires c >= 0xC0
  {
    if c < 0xC2 then 0 else if c < 0xE0 then 2 else if c < 0xF0 then 3 else if c < 0xF8 then 4
    else if c < 0xFC then 5 else if c < 0xFE then 6 else 0
  }

  /** `0377 >> n` */
  function Mask(n: nat): nat {
    if n == 2 then 63 else if n == 3 then 31 else if n == 4 then 15 else if n == 5 then 7 else 3
  }

  predicate Continues(c: Byte) {
    0x80 <= c < 0xC0
  }

  /** `(r << 6) | (c & 077)` */
  function Push(r: nat, c: Byte): nat {
    r * 64 + c % 64
  }

  /** `s[i]`; past the end stands a terminator. */
  function At(s: seq<Byte>, i: nat): Byte {
    if i < |s| then s[i] else 0
  }

  // ----- one rune -----

  /** The rune, or the error rune, and the bytes used; none when the bytes end too soon. */
  datatype Step = Step(rune: int, used: nat)

  const SHORT: Step := Step(RUNE_ERROR, 0)

  /** The rune of the first `len` bytes from `at` on. */
  function Decode(s: seq<Byte>, at: nat, len: nat): (d: Step)
    ensures d.used <= len
  {
    if len == 0 then SHORT
    else
      var c := At(s, at);
      if c < 0x80 then Step(c, 1)
      else if c < 0xC0 || LeadLength(c) == 0 then Step(RUNE_ERROR, 1)
      else if len == 1 then SHORT
      else if !Continues(At(s, at + 1)) then Step(RUNE_ERROR, 1)
      else
        var n := LeadLength(c);
        var r := Push(c % (Mask(n) + 1), At(s, at + 1));
        if r <= Mask(n) then Step(RUNE_ERROR, 2) else Rest(s, at, len, n, 2, r)
  }

  /** The bytes from number `i` on of a sequence of `n`. */
  function Rest(s: seq<Byte>, at: nat, len: nat, n: nat, i: nat, r: nat): (d: Step)
    requires i <= n && i <= len
    ensures d.used <= len && d.used <= n
    decreases n - i
  {
    if i == n then Step(if IsValidRune(r) then r else RUNE_ERROR, n)
    else if i == len then SHORT
    else if !Continues(At(s, at + i)) then Step(RUNE_ERROR, i)
    else Rest(s, at, len, n, i + 1, Push(r, At(s, at + i)))
  }

  /** The bytes at `at` are those of `e`. */
  predicate StandsAt(s: seq<Byte>, at: nat, e: seq<Byte>) {
    at + |e| <= |s| && s[at..at + |e|] == e
  }

  lemma ByteAt(s: seq<Byte>, at: nat, e: seq<Byte>, i: nat)
    requires StandsAt(s, at, e) && i < |e|
    ensures At(s, at + i) == e[i]
  {
    assert s[at + i] == s[at..at + |e|][i];
  }

  /** The continuation bytes of a rune bring its lower bits back. */
  lemma LowerBits(r: nat)
    ensures Push(r / 64, 0x80 + r % 64) == r && Continues(0x80 + r % 64)
  {
  }

  /** The first byte of a sequence of `n` bytes, and what is left of it under the mask. */
  lemma LeadByte(n: nat, high: nat)
    requires (n == 2 && 2 <= high < 32) || (n == 3 && high < 16) || (n == 4 && high < 8)
    ensures var c := Lead(n) + high;
            0xC0 <= c < 256 && LeadLength(c) == n && c % (Mask(n) + 1) == high
  {
  }

  function Lead(n: nat): nat {
    if n == 2 then 0xC0 else if n == 3 then 0xE0 else 0xF0
  }

  /** The continuation byte that holds the low bits of `v` takes the scan from `v / 64` to `v`. */
  lemma RestStep(s: seq<Byte>, at: nat, len: nat, n: nat, i: nat, v: nat)
    requires i < n && i < len && At(s, at + i) == 0x80 + v % 64
    ensures Rest(s, at, len, n, i, v / 64) == Rest(s, at, len, n, i + 1, v)
  {
    LowerBits(v);
  }

  lemma RestDone(s: seq<Byte>, at: nat, len: nat, n: nat, r: nat)
    requires n <= len && IsValidRune(r)
    ensures Rest(s, at, len, n, n, r) == Step(r, n)
  {
  }

  /** A first byte with high bits `high` and a continuation byte with the low bits of `v` start a sequence. */
  lemma LongStart(s: seq<Byte>, at: nat, len: nat, n: nat, high: nat, v: nat)
    requires (n == 2 && 2 <= high < 32) || (n == 3 && high < 16) || (n == 4 && high < 8)
    requires 2 <= len && At(s, at) == Lead(n) + high && At(s, at + 1) == 0x80 + v % 64 && high == v / 64 && v > Mask(n)
    ensures Decode(s, at, len) == Rest(s, at, len, n, 2, v)
  {
    LeadByte(n, high);
    LowerBits(v);
  }

  lemma TwoBytes(s: seq<Byte>, at: nat, len: nat, r: nat)
    requires 0x80 <= r < 0x800 && IsValidRune(r) && 2 <= len
    requires At(s, at) == 0xC0 + r / 64 && At(s, at + 1) == 0x80 + r % 64
    ensures Decode(s, at, len) == Step(r, 2)
  {
    LongStart(s, at, len, 2, r / 64, r);
    RestDone(s, at, len, 2, r);
  }

  lemma ThreeBytes(s: seq<Byte>, at: nat, len: nat, r: nat, a: nat, h: nat)
    requires 0x800 <= r < 0x10000 && IsValidRune(r) && 3 <= len && a == r / 64 && h == a / 64
    requires At(s, at) == 0xE0 + h && At(s, at + 1) == 0x80 + a % 64 && At(s, at + 2) == 0x80 + r % 64
    ensures Decode(s, at, len) == Step(r, 3)
  {
    LongStart(s, at, len, 3, h, a);
    RestStep(s, at, len, 3, 2, r);
    RestDone(s, at, len, 3, r);
  }

  lemma FourBytes(s: seq<Byte>, at: nat, len: nat, r: nat, a: nat, b: nat, h: nat)
    requires 0x10000 <= r && IsValidRune(r) && 4 <= len && a == r / 64 && b == a / 64 && h == b / 64
    requires At(s, at) == 0xF0 + h && At(s, at + 1) == 0x80 + b % 64
    requires At(s, at + 2) == 0x80 + a % 64 && At(s, at + 3) == 0x80 + r % 64
    ensures Decode(s, at, len) == Step(r, 4)
  {
    FourthQuotient(r, a, b, h);
    LongStart(s, at, len, 4, h, b);
    RestStep(s, at, len, 4, 2, a);
    RestStep(s, at, len, 4, 3, r);
    RestDone(s, at, len, 4, r);
  }

  lemma FourthQuotient(r: nat, a: nat, b: nat, h: nat)
    requires 0x10000 <= r <= 0x10FFFF && a == r / 64 && b == a / 64 && h == b / 64
    ensures h < 8 && b > 15
  {
  }

  /** Every valid rune decodes from its encoding, with its length. */
  lemma EncodedDecodes(s: seq<Byte>, at: nat, len: nat, r: nat)
    requires IsValidRune(r) && StandsAt(s, at, Encode(r)) && |Encode(r)| <= len
    ensures Decode(s, at, len) == Step(r, |Encode(r)|)
  {
    var e := Encode(r);
    ByteAt(s, at, e, 0);
    if r >= 0x80 {
      ByteAt(s, at, e, 1);
      if r < 0x800 {
        TwoBytes(s, at, len, r);
      } else {
        ByteAt(s, at, e, 2);
        if r < 0x10000 {
          ThreeBytes(s, at, len, r, r / 64, r / 64 / 64);
        } else {
          ByteAt(s, at, e, 3);
          FourBytes(s, at, len, r, r / 64, r / 64 / 64, r / 64 / 64 / 64);
        }
      }
    }
  }

  // ----- nothing else decodes -----

  lemma PushBack(r: nat, c: Byte)
    requires Continues(c)
    ensures Push(r, c) / 64 == r && 0x80 + Push(r, c) % 64 == c && Push(r, c) >= 64 * r
  {
  }

  /** A rune comes out of the rest only through one more continuation byte. */
  lemma RestNext(s: seq<Byte>, at: nat, len: nat, n: nat, i: nat, r: nat)
    requires i < n && i <= len && Rest(s, at, len, n, i, r).rune != RUNE_ERROR
    ensures i < len && Continues(At(s, at + i))
    ensures Rest(s, at, len, n, i, r) == Rest(s, at, len, n, i + 1, Push(r, At(s, at + i)))
    ensures Push(r, At(s, at + i)) >= 64 * r
  {
  }

  /** What comes out of all bytes is a valid rune. */
  lemma RestEnd(s: seq<Byte>, at: nat, len: nat, n: nat, r: nat)
    requires n <= len && Rest(s, at, len, n, n, r).rune != RUNE_ERROR
    ensures IsValidRune(r) && Rest(s, at, len, n, n, r) == Step(r, n)
  {
  }

  lemma EncodedTwo(r: nat, c: Byte, d: Byte)
    requires 0xC2 <= c < 0xE0 && Continues(d) && r == Push(c % 64, d)
    ensures r <= 0x10FFFF && Encode(r) == [c, d]
  {
    PushBack(c % 64, d);
  }

  lemma EncodedThree(r: nat, c: Byte, d: Byte, e: Byte)
    requires 0xE0 <= c < 0xF0 && Continues(d) && Continues(e)
    requires 0x1F < Push(c % 32, d) && r == Push(Push(c % 32, d), e)
    ensures r <= 0x10FFFF && Encode(r) == [c, d, e]
  {
    PushBack(c % 32, d);
    PushBack(Push(c % 32, d), e);
  }

  lemma EncodedFour(r: nat, c: Byte, d: Byte, e: Byte, f: Byte)
    requires 0xF0 <= c < 0xF8 && Continues(d) && Continues(e) && Continues(f) && r <= 0x10FFFF
    requires 0x0F < Push(c % 16, d) && r == Push(Push(Push(c % 16, d), e), f)
    ensures Encode(r) == [c, d, e, f]
  {
    var h, a, b := c - 0xF0, Push(c % 16, d), Push(Push(c % 16, d), e);
    LeadOfFour(c);
    PushBack(h, d);
    PushBack(a, e);
    PushBack(b, f);
    assert Encode(r)[0] == 0xF0 + h && Encode(r)[1] == 0x80 + a % 64;
  }

  lemma LeadOfFour(c: Byte)
    requires 0xF0 <= c < 0xF8
    ensures c % 16 == c - 0xF0
  {
  }

  /** The decoded bytes are where they were read, and no terminator among them was made up. */
  lemma FoundAt(s: seq<Byte>, at: nat, e: seq<Byte>)
    requires forall i: nat | i < |e| :: At(s, at + i) == e[i] && (i > 0 ==> e[i] != 0)
    requires |e| > 1 || (|e| == 1 && at < |s|)
    ensures StandsAt(s, at, e)
  {
    assert At(s, at + (|e| - 1)) == e[|e| - 1];
    forall i | 0 <= i < |e|
      ensures s[at + i] == e[i]
    {
      assert At(s, at + i) == e[i];
    }
  }

  /** Sequences of five and six bytes give no rune. */
  lemma TooLarge(s: seq<Byte>, at: nat, len: nat, n: nat, r: nat)
    requires (n == 5 && r >= 8) || (n == 6 && r >= 4)
    requires 2 <= len
    ensures Rest(s, at, len, n, 2, r).rune == RUNE_ERROR
  {
    if Rest(s, at, len, n, 2, r).rune != RUNE_ERROR {
      RestNext(s, at, len, n, 2, r);
      var a := Push(r, At(s, at + 2));
      RestNext(s, at, len, n, 3, a);
      var b := Push(a, At(s, at + 3));
      RestNext(s, at, len, n, 4, b);
      if n == 6 {
        RestNext(s, at, len, n, 5, Push(b, At(s, at + 4)));
      }
    }
  }

  /** The bytes of a sequence that decodes to a rune, without the first two checks. */
  lemma LongDecoded(s: seq<Byte>, at: nat, len: nat, n: nat, r: nat) returns (e: seq<Byte>)
    requires 2 <= n <= 6 && 2 <= len && 0xC0 <= At(s, at) && LeadLength(At(s, at)) == n && Continues(At(s, at + 1))
    requires r == Push(At(s, at) % (Mask(n) + 1), At(s, at + 1)) && r > Mask(n)
    requires Rest(s, at, len, n, 2, r).rune != RUNE_ERROR
    ensures var d := Rest(s, at, len, n, 2, r);
            IsValidRune(d.rune) && d.used == n <= 4 && e == Encode(d.rune) && |e| == n &&
            e[0] == At(s, at) && e[1] == At(s, at + 1) &&
            (n > 2 ==> e[2] == At(s, at + 2) != 0) && (n > 3 ==> e[3] == At(s, at + 3) != 0)
  {
    var c, d := At(s, at), At(s, at + 1);
    if n == 2 {
      RestEnd(s, at, len, 2, r);
      EncodedTwo(r, c, d);
      e := [c, d];
    } else if n == 3 {
      RestNext(s, at, len, 3, 2, r);
      var q := Push(r, At(s, at + 2));
      RestEnd(s, at, len, 3, q);
      EncodedThree(q, c, d, At(s, at + 2));
      e := [c, d, At(s, at + 2)];
    } else if n == 4 {
      RestNext(s, at, len, 4, 2, r);
      var q := Push(r, At(s, at + 2));
      RestNext(s, at, len, 4, 3, q);
      var p := Push(q, At(s, at + 3));
      RestEnd(s, at, len, 4, p);
      EncodedFour(p, c, d, At(s, at + 2), At(s, at + 3));
      e := [c, d, At(s, at + 2), At(s, at + 3)];
    } else {
      TooLarge(s, at, len, n, r);
    }
  }

  /** A result that is no error is a valid rune, or the code of one byte, and the bytes used are its encoding. */
  lemma DecodedEncodes(s: seq<Byte>, at: nat, len: nat)
    requires at < |s| && Decode(s, at, len).rune != RUNE_ERROR
    ensures var d := Decode(s, at, len); IsValidRune(d.rune) && StandsAt(s, at, Encode(d.rune)) && d.used == |Encode(d.rune)|
  {
    var c := At(s, at);
    if c < 0x80 {
      FoundAt(s, at, [c]);
    } else {
      LongFound(s, at, len);
    }
  }

  lemma LongFound(s: seq<Byte>, at: nat, len: nat)
    requires at < |s| && Decode(s, at, len).rune != RUNE_ERROR && At(s, at) >= 0x80
    ensures var d := Decode(s, at, len); IsValidRune(d.rune) && StandsAt(s, at, Encode(d.rune)) && d.used == |Encode(d.rune)|
  {
    var n := LeadLength(At(s, at));
    var r := Push(At(s, at) % (Mask(n) + 1), At(s, at + 1));
    assert Decode(s, at, len) == Rest(s, at, len, n, 2, r);
    var e := LongDecoded(s, at, len, n, r);
    assert At(s, at + 0) == e[0] && At(s, at + 1) == e[1];
    FoundAt(s, at, e);
  }

  /** The bytes break off inside a sequence that was good so far. */
  predicate BrokenOff(s: seq<Byte>, at: nat, len: nat) {
    len == 0 ||
    (At(s, at) >= 0xC0 && 0 < len < LeadLength(At(s, at)) && (forall i | at < i < at + len :: Continues(At(s, i))) &&
     (len >= 2 ==> Push(At(s, at) % (Mask(LeadLength(At(s, at))) + 1), At(s, at + 1)) > Mask(LeadLength(At(s, at)))))
  }

  lemma {:induction false} RestBrokenOff(s: seq<Byte>, at: nat, len: nat, n: nat, i: nat, r: nat)
    requires 0 < i <= n && i <= len
    ensures Rest(s, at, len, n, i, r).used == 0 <==> len < n && forall j | at + i <= j < at + len :: Continues(At(s, j))
    decreases n - i
  {
    if i < n && i < len && Continues(At(s, at + i)) {
      RestBrokenOff(s, at, len, n, i + 1, Push(r, At(s, at + i)));
    }
  }

  /** No bytes are used exactly when they break off inside a sequence. */
  lemma ShortExactly(s: seq<Byte>, at: nat, len: nat)
    ensures Decode(s, at, len).used == 0 <==> BrokenOff(s, at, len)
  {
    var c := At(s, at);
    if len >= 2 && c >= 0xC0 && LeadLength(c) > 0 {
      RestBrokenOff(s, at, len, LeadLength(c), 2, Push(c % (Mask(LeadLength(c)) + 1), At(s, at + 1)));
    }
  }

  /** The bytes an error uses are a byte that starts nothing or is not continued, or the bytes from a first
      one up to where the sequence is complete or not continued, or two that spell too small a number. */
  lemma ErrorUses(s: seq<Byte>, at: nat, len: nat)
    requires Decode(s, at, len).rune == RUNE_ERROR && Decode(s, at, len).used > 0
    ensures var c, k := At(s, at), Decode(s, at, len).used;
            c >= 0x80 && (forall j | at < j < at + k :: Continues(At(s, j))) &&
            (k == 1 <==> c < 0xC2 || c >= 0xFE || !Continues(At(s, at + 1)))
    ensures var c, k := At(s, at), Decode(s, at, len).used;
            k > 1 ==> k == LeadLength(c) || (k < LeadLength(c) && !Continues(At(s, at + k))) ||
                      (k == 2 && Push(c % (Mask(LeadLength(c)) + 1), At(s, at + 1)) <= Mask(LeadLength(c)))
  {
    var c := At(s, at);
    if c >= 0xC2 && c < 0xFE && Continues(At(s, at + 1)) {
      var n := LeadLength(c);
      RestUses(s, at, len, n, 2, Push(c % (Mask(n) + 1), At(s, at + 1)));
    }
  }

  lemma {:induction false} RestUses(s: seq<Byte>, at: nat, len: nat, n: nat, i: nat, r: nat)
    requires 0 < i <= n && i <= len
    ensures var k := Rest(s, at, len, n, i, r).used;
            k > 0 ==> i <= k <= n && (forall j | at + i <= j < at + k :: Continues(At(s, j))) &&
                      (k < n ==> !Continues(At(s, at + k)))
    decreases n - i
  {
    if i < n && i < len && Continues(At(s, at + i)) {
      RestUses(s, at, len, n, i + 1, Push(r, At(s, at + i)));
    }
  }

  // ----- the routines -----

  /** The bytes may be read: enough of them, or a terminator among them. */
  predicate Readable(s: seq<Byte>, at: nat, len: nat) {
    at + len <= |s| || exists i | at <= i < |s| :: s[i] == 0
  }

  /** `At` of a byte the routines read is a byte that is there. */
  lemma BytesThere(s: seq<Byte>, at: nat, len: nat, i: nat)
    requires Readable(s, at, len) && i < len && forall j | at <= j < at + i :: At(s, j) != 0
    ensures at + i < |s|
  {
    if at + len > |s| {
      var k :| at <= k < |s| && s[k] == 0;
      assert At(s, k) == 0;
      assert k >= at + i;
    }
  }

  method Charntorune(s: seq<Byte>, at: nat, len: nat) returns (r: int, used: nat)
    requires Readable(s, at, len)
    ensures Step(r, used) == Decode(s, at, len)
  {
    if len == 0 {
      return RUNE_ERROR, 0;
    }
    BytesThere(s, at, len, 0);
    var c := s[at];
    if c < 0x80 {
      return c, 1;
    }
    if c < 0xC0 {
      return RUNE_ERROR, 1;
    }
    var n := LeadLength(c);
    if n == 0 {
      return RUNE_ERROR, 1;
    }
    if len == 1 {
      return RUNE_ERROR, 0;
    }
    BytesThere(s, at, len, 1);
    if !Continues(s[at + 1]) {
      return RUNE_ERROR, 1;
    }
    var x := Mask(n);
    var q := Push(c % (x + 1), s[at + 1]);
    if q <= x {
      return RUNE_ERROR, 2;
    }
    r, used := ReadRest(s, at, len, n, q);
  }

  method ReadRest(s: seq<Byte>, at: nat, len: nat, n: nat, q: nat) returns (r: int, used: nat)
    requires Readable(s, at, len) && 2 <= n && 2 <= len && At(s, at) != 0 && At(s, at + 1) != 0
    ensures Step(r, used) == Rest(s, at, len, n, 2, q)
  {
    var m := if len < n then len else n;
    var i, value := 2, q;
    while i < m
      invariant 2 <= i <= m && forall j | at <= j < at + i :: At(s, j) != 0
      invariant Rest(s, at, len, n, i, value) == Rest(s, at, len, n, 2, q)
    {
      BytesThere(s, at, len, i);
      if !Continues(s[at + i]) {
        return RUNE_ERROR, i;
      }
      value := Push(value, s[at + i]);
      i := i + 1;
    }
    if i < n {
      return RUNE_ERROR, 0;
    }
    if !IsValidRune(value) {
      return RUNE_ERROR, i;
    }
    return value, i;
  }

  /** How many times a rune can be decoded before a terminator or a sequence that breaks off. */
  function Runes(s: seq<Byte>, at: nat, len: nat): nat
    decreases len
  {
    var d := Decode(s, at, len);
    if At(s, at) == 0 || d.used == 0 then 0 else 1 + Runes(s, at + d.used, len - d.used)
  }

  predicate AllValid(runes: seq<nat>) {
    forall i | 0 <= i < |runes| :: IsValidRune(runes[i]) && runes[i] > 0
  }

  function Encodings(runes: seq<nat>): (pieces: seq<seq<Byte>>)
    requires AllValid(runes)
    ensures |pieces| == |runes| && forall i | 0 <= i < |runes| :: pieces[i] == Encode(runes[i])
  {
    seq<seq<Byte>>(|runes|, i requires 0 <= i < |runes| => Encode(runes[i]))
  }

  function Concat(pieces: seq<seq<Byte>>): seq<Byte> {
    if pieces == [] then [] else pieces[0] + Concat(pieces[1..])
  }

  lemma StandsParts(s: seq<Byte>, at: nat, a: seq<Byte>, b: seq<Byte>)
    requires StandsAt(s, at, a + b)
    ensures StandsAt(s, at, a) && StandsAt(s, at + |a|, b)
  {
    var t := s[at..at + |a + b|];
    assert t[..|a|] == a && t[|a|..] == b;
    assert s[at..at + |a|] == t[..|a|];
    assert s[at + |a|..at + |a| + |b|] == t[|a|..];
  }

  lemma FirstNotZero(s: seq<Byte>, at: nat, r: nat)
    requires 0 < r <= 0x10FFFF && StandsAt(s, at, Encode(r))
    ensures At(s, at) != 0
  {
    ByteAt(s, at, Encode(r), 0);
  }

  lemma RuneCounts(s: seq<Byte>, at: nat, len: nat, r: nat)
    requires IsValidRune(r) && r > 0 && StandsAt(s, at, Encode(r)) && |Encode(r)| <= len
    ensures Runes(s, at, len) == 1 + Runes(s, at + |Encode(r)|, len - |Encode(r)|)
  {
    EncodedDecodes(s, at, len, r);
    FirstNotZero(s, at, r);
  }

  /** Wherever the piece stands it counts as one rune. */
  ghost predicate CountsOne(s: seq<Byte>, piece: seq<Byte>) {
    forall at: nat, len: nat | StandsAt(s, at, piece) && |piece| <= len ::
      Runes(s, at, len) == 1 + Runes(s, at + |piece|, len - |piece|)
  }

  lemma {:induction false} PiecesCount(s: seq<Byte>, at: nat, pieces: seq<seq<Byte>>)
    requires StandsAt(s, at, Concat(pieces)) && forall i | 0 <= i < |pieces| :: CountsOne(s, pieces[i])
    ensures Runes(s, at, |Concat(pieces)|) == |pieces|
    decreases |pieces|
  {
    if pieces != [] {
      StandsParts(s, at, pieces[0], Concat(pieces[1..]));
      assert CountsOne(s, pieces[0]);
      PiecesCount(s, at + |pieces[0]|, pieces[1..]);
    }
  }

  /** Encoded runes are counted. */
  lemma EncodedCounts(s: seq<Byte>, at: nat, runes: seq<nat>)
    requires AllValid(runes) && StandsAt(s, at, Concat(Encodings(runes)))
    ensures Runes(s, at, |Concat(Encodings(runes))|) == |runes|
  {
    forall i | 0 <= i < |runes|
      ensures CountsOne(s, Encodings(runes)[i])
    {
      EncodingCounts(s, runes[i]);
    }
    PiecesCount(s, at, Encodings(runes));
  }

  lemma EncodingCounts(s: seq<Byte>, r: nat)
    requires IsValidRune(r) && r > 0
    ensures CountsOne(s, Encode(r))
  {
    forall at: nat, len: nat | StandsAt(s, at, Encode(r)) && |Encode(r)| <= len
      ensures Runes(s, at, len) == 1 + Runes(s, at + |Encode(r)|, len - |Encode(r)|)
    {
      RuneCounts(s, at, len, r);
    }
  }

  /** The counting loop's own scan of one sequence: where the next one starts, the same
      position if it breaks off. */
  method SkipRune(s: seq<Byte>, at: nat, len: nat) returns (used: nat)
    requires Readable(s, at, len) && 0 < len && At(s, at) != 0
    ensures used == Decode(s, at, len).used
  {
    BytesThere(s, at, len, 0);
    var c := s[at];
    if c < 0xC0 {
      return 1;
    }
    var n := LeadLength(c);
    if n == 0 {
      return 1;
    }
    if len == 1 {
      return 0;
    }
    BytesThere(s, at, len, 1);
    if !Continues(s[at + 1]) {
      return 1;
    }
    var x := Mask(n);
    var q := Push(c % (x + 1), s[at + 1]);
    if q <= x {
      return 2;
    }
    used := SkipRest(s, at, len, n, q);
  }

  method SkipRest(s: seq<Byte>, at: nat, len: nat, n: nat, ghost q: nat) returns (used: nat)
    requires Readable(s, at, len) && 2 <= n && 2 <= len && At(s, at) != 0 && At(s, at + 1) != 0
    ensures used == Rest(s, at, len, n, 2, q).used
  {
    var m := if len < n then len else n;
    var i := 2;
    ghost var value := q;
    while i < m
      invariant 2 <= i <= m && forall j | at <= j < at + i :: At(s, j) != 0
      invariant Rest(s, at, len, n, i, value).used == Rest(s, at, len, n, 2, q).used
    {
      BytesThere(s, at, len, i);
      if !Continues(s[at + i]) {
        break;
      }
      value := Push(value, s[at + i]);
      i := i + 1;
    }
    if i < m {
      return i;
    }
    return if i < n then 0 else i;
  }

  /** Counts the runes, reading one byte beyond the length to look for a terminator. */
  method Utfnlen(s: seq<Byte>, length: nat) returns (k: nat)
    requires Readable(s, 0, length + 1)
    ensures k == Runes(s, 0, length)
  {
    k := 0;
    var at: nat, len: nat := 0, length;
    ReadableLess(s, 0, length);
    while s[at] != 0
      invariant at < |s| && Readable(s, at, len + 1)
      invariant k + Runes(s, at, len) == Runes(s, 0, length)
      decreases len
    {
      if len == 0 {
        return k;
      }
      ReadableLess(s, at, len);
      var used := SkipRune(s, at, len);
      if used == 0 {
        return k;
      }
      Forward(s, at, len, used);
      at, len, k := at + used, len - used, k + 1;
    }
  }

  lemma ReadableLess(s: seq<Byte>, at: nat, len: nat)
    requires Readable(s, at, len + 1)
    ensures Readable(s, at, len) && at < |s|
  {
  }

  /** The bytes of a used sequence are no terminators, so what follows can be read. */
  lemma Forward(s: seq<Byte>, at: nat, len: nat, used: nat)
    requires Readable(s, at, len + 1) && At(s, at) != 0 && 0 < used == Decode(s, at, len).used
    ensures Readable(s, at + used, len - used + 1) && at + used < |s|
  {
    UsedBytes(s, at, len);
    if at + len + 1 > |s| {
      var k :| at <= k < |s| && s[k] == 0;
      assert At(s, k) == 0;
      assert k >= at + used;
    }
  }

  lemma UsedBytes(s: seq<Byte>, at: nat, len: nat)
    requires At(s, at) != 0
    ensures forall j | at <= j < at + Decode(s, at, len).used :: At(s, j) != 0
  {
    var c := At(s, at);
    if len >= 2 && c >= 0xC0 && LeadLength(c) > 0 && Continues(At(s, at + 1)) {
      RestBytes(s, at, len, LeadLength(c), 2, Push(c % (Mask(LeadLength(c)) + 1), At(s, at + 1)));
    }
  }

  lemma {:induction false} RestBytes(s: seq<Byte>, at: nat, len: nat, n: nat, i: nat, r: nat)
    requires i <= n && i <= len
    ensures forall j | at + i <= j < at + Rest(s, at, len, n, i, r).used :: At(s, j) != 0
    decreases n - i
  {
    if i < n && i < len && Continues(At(s, at + i)) {
      RestBytes(s, at, len, n, i + 1, Push(r, At(s, at + i)));
    }
  }
}
