/** Parsing a signed number in any base from 2 to 36, or in the base its prefix shows. */
module Strtol {

  /** The characters of a C string before its terminator. */
  type CString = s: string | forall i | 0 <= i < |s| :: s[i] != '\0' witness ""

  const LONG_MAX: int := 0x7fff_ffff_ffff_ffff
  const LONG_MIN: int := -0x8000_0000_0000_0000

  /** `s[i]`, where the terminator ends the string. */
  function CharAt(s: CString, i: nat): char {
    if i < |s| then s[i] else '\0'
  }

  predicate IsSpace(c: char) {
    c == ' ' || c == '\t' || c == '\n' || c == '\r' || c as nat == 12 || c as nat == 11
  }

  /** The value of a digit or letter, 99 for other characters. */
  function DigitOf(c: char): nat {
    if '0' <= c <= '9' then c as nat - '0' as nat
    else if 'A' <= c <= 'Z' then c as nat - 'A' as nat + 10
    else if 'a' <= c <= 'z' then c as nat - 'a' as nat + 10
    else 99
  }

  predicate IsDigit(c: char, base: nat) {
    DigitOf(c) < base && DigitOf(c) < 36
  }

  /** The first position from `i` on that holds no space. */
  function SkipSpaces(s: CString, i: nat): (j: nat)
    requires i <= |s|
    ensures i <= j <= |s| && (j < |s| ==> !IsSpace(s[j])) && forall k | i <= k < j :: IsSpace(s[k])
    decreases |s| - i
  {
    if i < |s| && IsSpace(s[i]) then SkipSpaces(s, i + 1) else i
  }

  /** The first position from `i` on that holds no digit of the base. */
  function SkipDigits(s: CString, i: nat, base: nat): (j: nat)
    requires i <= |s|
    ensures i <= j <= |s| && (j < |s| ==> !IsDigit(s[j], base)) && forall k | i <= k < j :: IsDigit(s[k], base)
    decreases |s| - i
  {
    if i < |s| && IsDigit(s[i], base) then SkipDigits(s, i + 1, base) else i
  }

  /** The number the digits `i .. j` denote. */
  function Value(s: CString, i: nat, j: nat, base: nat): nat
    requires i <= j <= |s|
  {
    if i == j then 0 else WithDigit(Value(s, i, j - 1, base), base, DigitOf(s[j - 1]))
  }

  function WithDigit(v: nat, base: nat, digit: nat): nat {
    v * base + digit
  }

  function HasSign(s: CString, i: nat): bool {
    CharAt(s, i) == '-' || CharAt(s, i) == '+'
  }

  /** A hexadecimal prefix counts only before a hexadecimal digit. */
  predicate HasHexPrefix(s: CString, i: nat) {
    CharAt(s, i) == '0' && (CharAt(s, i + 1) == 'x' || CharAt(s, i + 1) == 'X') && IsDigit(CharAt(s, i + 2), 16)
  }

  /** Where the digits are, and their base and sign. */
  datatype Shape = Shape(start: nat, base: nat, negative: bool)

  function ShapeOf(s: CString, base: nat): (f: Shape)
    ensures f.start <= |s|
  {
    var i := SkipSpaces(s, 0);
    var negative := CharAt(s, i) == '-';
    var j := if HasSign(s, i) then i + 1 else i;
    if (base == 0 || base == 16) && HasHexPrefix(s, j) then Shape(j + 2, 16, negative)
    else Shape(j, if base != 0 then base else if CharAt(s, j) == '0' then 8 else 10, negative)
  }

  function Signed(negative: bool, v: nat): int {
    if negative then 0 - v else v
  }

  function Clamp(v: int): int {
    if v > LONG_MAX then LONG_MAX else if v < LONG_MIN then LONG_MIN else v
  }

  /** What parsing gives: the value, and the position after the last character used. */
  function Parsed(s: CString, base: int): (r: (int, nat)) {
    if base != 0 && (base < 2 || base > 36) then (0, 0)
    else
      var f := ShapeOf(s, base);
      var end := SkipDigits(s, f.start, f.base);
      if end == f.start then (0, 0)
      else (Clamp(Signed(f.negative, Value(s, f.start, end, f.base))), end)
  }

  /** Clamping gives the number of 64 bits nearest to the value, and the value itself if it is one. */
  lemma ClampNearest(v: int, w: int)
    requires -0x8000_0000_0000_0000 <= w <= 0x7fff_ffff_ffff_ffff
    ensures -0x8000_0000_0000_0000 <= Clamp(v) <= 0x7fff_ffff_ffff_ffff
    ensures Distance(Clamp(v), v) <= Distance(w, v)
  {
  }

  function Distance(a: int, b: int): nat {
    if a <= b then b - a else a - b
  }

  /** The number starts at `j`, behind spaces and at most one sign. */
  predicate NumberAt(s: CString, i: nat, j: nat) {
    i <= j <= i + 1 && j <= |s| && (forall k | 0 <= k < i :: IsSpace(s[k])) &&
    (i < |s| ==> !IsSpace(s[i])) && (j > i <==> i < |s| && (s[i] == '-' || s[i] == '+'))
  }

  lemma {:induction false} SpacesSkipped(s: CString, from: nat, i: nat)
    requires from <= i <= |s| && (forall k | from <= k < i :: IsSpace(s[k])) && (i < |s| ==> !IsSpace(s[i]))
    ensures SkipSpaces(s, from) == i
    decreases i - from
  {
    if from < i {
      SpacesSkipped(s, from + 1, i);
    }
  }

  predicate IsHex(c: char) {
    '0' <= c <= '9' || 'A' <= c <= 'F' || 'a' <= c <= 'f'
  }

  predicate ShowsHex(s: CString, j: nat) {
    j + 2 < |s| && s[j] == '0' && (s[j + 1] == 'x' || s[j + 1] == 'X') && IsHex(s[j + 2])
  }

  lemma ShapeShown(s: CString, i: nat, j: nat)
    requires NumberAt(s, i, j)
    ensures ShapeOf(s, 0) ==
      if ShowsHex(s, j) then ShapeOf(s, 16) else if j < |s| && s[j] == '0' then ShapeOf(s, 8) else ShapeOf(s, 10)
  {
    SpacesSkipped(s, 0, i);
    assert HasHexPrefix(s, j) <==> ShowsHex(s, j);
  }

  lemma SameShape(s: CString, a: int, b: int)
    requires (a == 0 || 2 <= a <= 36) && 2 <= b <= 36 && ShapeOf(s, a) == ShapeOf(s, b)
    ensures Parsed(s, a) == Parsed(s, b)
  {
  }

  /** In base 0 the text shows the base: 16 behind 0x or 0X and a hexadecimal digit, 8 from a zero on, 10 otherwise. */
  lemma BaseShown(s: CString, i: nat, j: nat)
    requires NumberAt(s, i, j)
    ensures Parsed(s, 0) ==
      if ShowsHex(s, j) then Parsed(s, 16)
      else if j < |s| && s[j] == '0' then Parsed(s, 8)
      else Parsed(s, 10)
  {
    ShapeShown(s, i, j);
    SameShape(s, 0, if ShowsHex(s, j) then 16 else if j < |s| && s[j] == '0' then 8 else 10);
  }

  // ----- the routine -----

  method DigitValue(c: char) returns (digit: int)
    ensures digit == if DigitOf(c) < 36 then DigitOf(c) else -1
  {
    if '0' <= c <= '9' {
      digit := c as int - '0' as int;
    } else if 'A' <= c <= 'Z' {
      digit := c as int - 'A' as int + 10;
    } else if 'a' <= c <= 'z' {
      digit := c as int - 'a' as int + 10;
    } else {
      digit := -1;
    }
  }

  /** Whether another digit stays within the limit, tested without overflow. */
  method DigitFits(value: nat, digit: nat, base: nat, limit: nat) returns (fits: bool)
    requires 2 <= base && digit < base <= 36 && limit >= 36
    ensures fits <==> WithDigit(value, base, digit) <= limit
  {
    var q := (limit - digit) / base;
    DivisionBounds(limit - digit, base);
    fits := value <= q;
    if fits {
      TimesMonotone(value, q, base);
    } else {
      TimesMonotone(q + 1, value, base);
      assert (q + 1) * base == q * base + base;
    }
  }

  lemma DivisionBounds(x: nat, base: nat)
    requires base > 0
    ensures x / base * base <= x < x / base * base + base
  {
  }

  lemma TimesMonotone(a: nat, b: nat, m: nat)
    requires a <= b
    ensures a * m <= b * m
  {
    assert b * m == a * m + (b - a) * m;
  }

  lemma WithDigitGrows(v: nat, base: nat, digit: nat)
    requires base >= 1
    ensures WithDigit(v, base, digit) >= v
  {
  }

  /** The digits from `start` on: the number, or that it is above the limit. */
  method ReadDigits(s: CString, start: nat, base: nat, limit: nat) returns (value: nat, overflow: bool, cursor: nat)
    requires start <= |s| && 2 <= base <= 36 && limit >= 36
    ensures cursor == SkipDigits(s, start, base)
    ensures overflow <==> Value(s, start, cursor, base) > limit
    ensures !overflow ==> value == Value(s, start, cursor, base)
  {
    cursor, value, overflow := start, 0, false;
    while cursor < |s|
      invariant start <= cursor <= |s| && SkipDigits(s, start, base) == SkipDigits(s, cursor, base)
      invariant overflow <==> Value(s, start, cursor, base) > limit
      invariant !overflow ==> value == Value(s, start, cursor, base)
    {
      var digit := DigitValue(s[cursor]);
      if digit < 0 || digit >= base {
        break;
      }
      WithDigitGrows(Value(s, start, cursor, base), base, digit);
      var fits := DigitFits(value, digit, base, limit);
      if !fits {
        overflow := true;
      } else {
        value := WithDigit(value, base, digit);
      }
      cursor := cursor + 1;
    }
  }

  /** Spaces, sign and prefix. */
  method FindShape(s: CString, base: nat) returns (f: Shape)
    ensures f == ShapeOf(s, base)
  {
    var cursor := 0;
    while IsSpace(CharAt(s, cursor))
      invariant cursor <= |s| && SkipSpaces(s, 0) == SkipSpaces(s, cursor)
      decreases |s| - cursor
    {
      cursor := cursor + 1;
    }
    var negative := false;
    if CharAt(s, cursor) == '-' || CharAt(s, cursor) == '+' {
      negative := CharAt(s, cursor) == '-';
      cursor := cursor + 1;
    }
    var radix := base;
    if (base == 0 || base == 16) && CharAt(s, cursor) == '0' &&
       (CharAt(s, cursor + 1) == 'x' || CharAt(s, cursor + 1) == 'X') {
      var first := DigitValue(CharAt(s, cursor + 2));
      if 0 <= first < 16 {
        cursor := cursor + 2;
        radix := 16;
      }
    }
    if radix == 0 {
      radix := if CharAt(s, cursor) == '0' then 8 else 10;
    }
    f := Shape(cursor, radix, negative);
  }

  /** Returns the clamped value and the position of the first character not used. */
  method Strtol(s: CString, base: int) returns (value: int, end: nat)
    ensures (value, end) == Parsed(s, base)
    ensures LONG_MIN <= value <= LONG_MAX
  {
    if base != 0 && (base < 2 || base > 36) {
      return 0, 0;
    }
    var f := FindShape(s, base);
    var limit := if f.negative then LONG_MAX + 1 else LONG_MAX;
    var number, overflow, cursor := ReadDigits(s, f.start, f.base, limit);
    if cursor == f.start {
      return 0, 0;
    }
    end := cursor;
    if overflow {
      value := if f.negative then LONG_MIN else LONG_MAX;
    } else {
      value := Signed(f.negative, number);
    }
  }
}
