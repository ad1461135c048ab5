/** Writing a number with sign, prefix, precision and field width, and reading it back. */
module Wnumber {
  import opened Machine
  import opened Strtol

  datatype Formatter = Formatter(num: Word64, base: nat, size: nat, precision: nat)

  datatype Flags = Flags(zeropad: bool, sign: bool, plus: bool, space: bool, left: bool, special: bool, small: bool)

  // ----- the text of a number -----

  /** The digit for `d`, as `Strtol.DigitOf` reads it. */
  function DigitChar(d: nat, small: bool): (c: char)
    requires d < 36
    ensures DigitOf(c) == d && c != '\0' && !IsSpace(c) && c != '-' && c != '+'
    ensures d < 16 ==> c != 'x' && c != 'X'
    ensures d == 0 ==> c == '0'
  {
    if d < 10 then '0' + d as char else if small then 'a' + (d - 10) as char else 'A' + (d - 10) as char
  }

  /** `v / base`, and the digit it leaves off. */
  function Shorter(v: nat, base: nat): (q: nat)
    requires 2 <= base
    ensures WithDigit(q, base, LastDigit(v, base)) == v && q <= v && (v > 0 ==> q < v) && (q > 0 <==> v >= base)
  {
    DivisionBounds(v, base);
    Divided(v, v / base, base);
    v / base
  }

  function LastDigit(v: nat, base: nat): (d: nat)
    requires 2 <= base
    ensures d < base
  {
    v % base
  }

  lemma Divided(v: nat, q: nat, base: nat)
    requires 2 <= base && q * base <= v < q * base + base
    ensures 2 * q <= v && (q > 0 <==> v >= base)
  {
    TimesMonotone(2, base, q);
    if q > 0 {
      TimesMonotone(1, q, base);
    }
  }

  /** The digits of `v`, most significant first. */
  function Digits(v: nat, base: nat, small: bool): (s: string)
    requires 2 <= base <= 36
    ensures |s| > 0
  {
    if v < base then [DigitChar(v, small)]
    else Digits(Shorter(v, base), base, small) + [DigitChar(LastDigit(v, base), small)]
  }

  function Repeat(c: char, n: nat): (s: string)
    ensures |s| == n && forall i | 0 <= i < n :: s[i] == c
  {
    if n == 0 then [] else Repeat(c, n - 1) + [c]
  }

  function AsSigned(w: Word64): int {
    if w < 0x8000_0000_0000_0000 then w else w - U64
  }

  predicate Negative(f: Formatter, t: Flags) {
    t.sign && AsSigned(f.num) < 0
  }

  function Magnitude(f: Formatter, t: Flags): Word64 {
    if Negative(f, t) then -AsSigned(f.num) else f.num
  }

  function SignText(f: Formatter, t: Flags): string {
    if Negative(f, t) then "-" else if t.plus then "+" else if t.space then " " else ""
  }

  function PrefixText(f: Formatter, t: Flags): string {
    if t.special && f.base == 8 then "0"
    else if t.special && f.base == 16 then (if t.small then "0x" else "0X")
    else ""
  }

  predicate Formattable(f: Formatter) {
    2 <= f.base <= 36
  }

  function DigitText(f: Formatter, t: Flags): string
    requires Formattable(f)
  {
    Digits(Magnitude(f, t), f.base, t.small)
  }

  function PrecisionPad(f: Formatter, t: Flags): nat
    requires Formattable(f)
  {
    Max(f.precision, |DigitText(f, t)|) - |DigitText(f, t)|
  }

  /** Sign, prefix and digits, at the precision. */
  function ContentWidth(f: Formatter, t: Flags): nat
    requires Formattable(f)
  {
    Max(f.precision, |DigitText(f, t)|) + |PrefixText(f, t)| + |SignText(f, t)|
  }

  function FieldPad(f: Formatter, t: Flags): nat
    requires Formattable(f)
  {
    Max(f.size, ContentWidth(f, t)) - ContentWidth(f, t)
  }

  /** Where the padding of the field goes: before the sign, after the prefix, or at the end. */
  function Before(f: Formatter, t: Flags): nat
    requires Formattable(f)
  {
    if !t.left && !t.zeropad then FieldPad(f, t) else 0
  }

  function Zeros(f: Formatter, t: Flags): nat
    requires Formattable(f)
  {
    (if !t.left && t.zeropad then FieldPad(f, t) else 0) + PrecisionPad(f, t)
  }

  function After(f: Formatter, t: Flags): nat
    requires Formattable(f)
  {
    if t.left then FieldPad(f, t) else 0
  }

  /** The whole output. */
  function Formatted(f: Formatter, t: Flags): string
    requires Formattable(f)
  {
    Join(Before(f, t), SignText(f, t), PrefixText(f, t), Zeros(f, t), DigitText(f, t), After(f, t))
  }

  function Join(before: nat, sign: string, prefix: string, zeros: nat, digits: string, after: nat): string {
    Repeat(' ', before) + sign + prefix + Repeat('0', zeros) + digits + Repeat(' ', after)
  }

  /** The output is as wide as the field, or as its content where that is wider. */
  lemma WidthExact(f: Formatter, t: Flags)
    requires Formattable(f)
    ensures |Formatted(f, t)| == Max(f.size, ContentWidth(f, t))
  {
  }

  /** The text is `bare` with `n` characters of padding: behind it, in front of it, or as zeros
      between its sign and prefix and its digits. */
  predicate PaddedBy(text: string, bare: string, t: Flags, sign: string, prefix: string, n: nat) {
    sign + prefix <= bare &&
    text == if t.left then bare + Repeat(' ', n)
            else if !t.zeropad then Repeat(' ', n) + bare
            else sign + prefix + Repeat('0', n) + bare[|sign + prefix|..]
  }

  /** A field adds its padding, and nothing else, to the output of a field of no width. */
  lemma FieldPads(f: Formatter, t: Flags, bare: string, n: nat)
    requires Formattable(f) && bare == Formatted(f.(size := 0), t) && n == Max(f.size, |bare|) - |bare|
    ensures PaddedBy(Formatted(f, t), bare, t, SignText(f, t), PrefixText(f, t), n)
  {
    var sign, prefix, d := SignText(f, t), PrefixText(f, t), DigitText(f, t);
    PaddedIsFormatted(f, t);
    BareParts(f, t);
    PaddedIsFormatted(f.(size := 0), t);
    PaddedField(f.size, f.precision, t, sign, prefix, d, bare, n);
  }

  lemma PaddedField(size: nat, precision: nat, t: Flags, sign: string, prefix: string, d: string, bare: string, n: nat)
    requires bare == Padded(0, precision, t, sign, prefix, d) && n == Max(size, |bare|) - |bare|
    ensures PaddedBy(Padded(size, precision, t, sign, prefix, d), bare, t, sign, prefix, n)
  {
    FieldLaid(Padded(size, precision, t, sign, prefix, d), t, sign, prefix, Max(precision, |d|) - |d|, d, n, bare);
  }

  lemma FieldLaid(text: string, t: Flags, sign: string, prefix: string, z: nat, d: string, n: nat, bare: string)
    requires bare == Join(0, sign, prefix, z, d, 0)
    requires text == if t.left then Join(0, sign, prefix, z, d, n)
                     else if t.zeropad then Join(0, sign, prefix, n + z, d, 0) else Join(n, sign, prefix, z, d, 0)
    ensures PaddedBy(text, bare, t, sign, prefix, n)
  {
    Laid(sign, prefix, z, d, n, bare);
  }

  lemma Laid(sign: string, prefix: string, z: nat, d: string, n: nat, bare: string)
    requires bare == Join(0, sign, prefix, z, d, 0)
    ensures Join(0, sign, prefix, z, d, n) == bare + Repeat(' ', n)
    ensures Join(n, sign, prefix, z, d, 0) == Repeat(' ', n) + bare
    ensures sign + prefix <= bare
    ensures Join(0, sign, prefix, n + z, d, 0) == sign + prefix + Repeat('0', n) + bare[|sign + prefix|..]
  {
    RepeatAdds('0', n, z);
    Outside(Repeat(' ', n), sign, prefix, Repeat('0', z), d);
    Between(Repeat('0', n), sign, prefix, Repeat('0', z), d);
  }

  lemma Outside(a: string, s: string, p: string, z: string, d: string)
    ensures [] + s + p + z + d + a == ([] + s + p + z + d + []) + a
    ensures a + s + p + z + d + [] == a + ([] + s + p + z + d + [])
  {
    Regroup5(a, s, p, z, d);
    assert [] + s == s;
    assert s + p + z + d + [] == s + p + z + d;
    assert a + s + p + z + d + [] == a + s + p + z + d;
  }

  lemma Regroup5(a: string, s: string, p: string, z: string, d: string)
    ensures a + s + p + z + d == a + (s + p + z + d)
  {
    assert a + s + p + z == a + (s + p + z);
  }

  lemma Between(y: string, s: string, p: string, z: string, d: string)
    ensures var bare := [] + s + p + z + d + [];
            s + p <= bare && [] + s + p + (y + z) + d + [] == s + p + y + bare[|s + p|..]
  {
    var head := s + p;
    var bare := [] + s + p + z + d + [];
    assert [] + s == s;
    assert bare == head + (z + d);
    assert bare[|head|..] == z + d;
    assert head + (y + z) + d == head + y + (z + d);
  }

  /** Without a width, nothing but the width is different. */
  lemma BareParts(f: Formatter, t: Flags)
    requires Formattable(f)
    ensures var g := f.(size := 0);
            DigitText(g, t) == DigitText(f, t) && SignText(g, t) == SignText(f, t) && PrefixText(g, t) == PrefixText(f, t) &&
            PrecisionPad(g, t) == PrecisionPad(f, t) && ContentWidth(g, t) == ContentWidth(f, t) && FieldPad(g, t) == 0
  {
    assert Magnitude(f.(size := 0), t) == Magnitude(f, t);
  }

  lemma BareIs(f: Formatter, t: Flags)
    requires Formattable(f)
    ensures Formatted(f.(size := 0), t) == Join(0, SignText(f, t), PrefixText(f, t), PrecisionPad(f, t), DigitText(f, t), 0)
  {
    BareParts(f, t);
  }

  /** Digits above nine are letters of the case the flags ask for, and so is the x of the prefix. */
  lemma {:induction false} LetterCase(v: nat, base: nat, small: bool, c: char)
    requires 2 <= base <= 36 && c in Digits(v, base, small)
    ensures '0' <= c <= '9' || (if small then 'a' <= c <= 'z' else 'A' <= c <= 'Z')
    decreases v
  {
    if v >= base {
      if c in Digits(Shorter(v, base), base, small) {
        LetterCase(Shorter(v, base), base, small, c);
      }
    }
  }

  /** What the number is written with, whatever the field: the sign, asked for or needed; the prefix, if
      asked for; as many digits as the precision asks for. */
  lemma TextOf(f: Formatter, t: Flags)
    requires Formattable(f)
    ensures var bare := Formatted(f.(size := 0), t); var negative := t.sign && f.num >= 0x8000_0000_0000_0000;
            (negative <==> bare[0] == '-') &&
            (bare[0] == '+' <==> !negative && t.plus) && (bare[0] == ' ' <==> !negative && !t.plus && t.space) &&
            |bare| == (if negative || t.plus || t.space then 1 else 0) +
                      (if t.special && f.base == 8 then 1 else if t.special && f.base == 16 then 2 else 0) +
                      Max(f.precision, |DigitText(f, t)|)
  {
    BareIs(f, t);
    BareParts(f, t);
    WidthExact(f.(size := 0), t);
    var c := DigitText(f, t)[0];
    LetterCase(Magnitude(f, t), f.base, t.small, c);
  }

  // ----- reading it back -----

  /** A digit of the base that parsing takes for nothing else. */
  predicate Plain(c: char, base: nat) {
    IsDigit(c, base) && c != '\0' && !IsSpace(c) && c != '-' && c != '+' && (base <= 16 ==> c != 'x' && c != 'X')
  }

  predicate AllPlain(s: string, base: nat) {
    forall i | 0 <= i < |s| :: Plain(s[i], base)
  }

  lemma {:induction false} DigitsArePlain(v: nat, base: nat, small: bool)
    requires 2 <= base <= 36
    ensures AllPlain(Digits(v, base, small), base)
  {
    if v >= base {
      DigitsArePlain(Shorter(v, base), base, small);
      assert Plain(DigitChar(LastDigit(v, base), small), base);
    } else {
      assert Plain(DigitChar(v, small), base);
    }
  }

  /** The digits before the last one, and the last one, as they stand in the text. */
  lemma LastOfDigits(s: CString, i: nat, v: nat, base: nat, small: bool, j: nat)
    requires 2 <= base <= 36 && v >= base && j == i + |Digits(v, base, small)| <= |s| && s[i..j] == Digits(v, base, small)
    ensures j - 1 == i + |Digits(Shorter(v, base), base, small)|
    ensures s[i..j - 1] == Digits(Shorter(v, base), base, small) && DigitOf(s[j - 1]) == LastDigit(v, base)
  {
    var d := Digits(v, base, small);
    assert s[j - 1] == s[i..j][|d| - 1];
    assert s[i..j - 1] == s[i..j][..|d| - 1];
  }

  lemma ValueStep(s: CString, i: nat, j: nat, base: nat, q: nat, digit: nat)
    requires i < j <= |s| && Value(s, i, j - 1, base) == q && DigitOf(s[j - 1]) == digit
    ensures Value(s, i, j, base) == WithDigit(q, base, digit)
  {
  }

  /** Digits read back as the number. */
  lemma {:induction false} ValueOfDigits(s: CString, i: nat, v: nat, base: nat, small: bool, j: nat)
    requires 2 <= base <= 36 && j == i + |Digits(v, base, small)| <= |s| && s[i..j] == Digits(v, base, small)
    ensures Value(s, i, j, base) == v
  {
    if v < base {
      assert s[i] == s[i..j][0];
      OneDigit(s, i, base);
    } else {
      var q := Shorter(v, base);
      LastOfDigits(s, i, v, base, small, j);
      ValueOfDigits(s, i, q, base, small, j - 1);
      ValueStep(s, i, j, base, q, LastDigit(v, base));
    }
  }

  lemma OneDigit(s: CString, i: nat, base: nat)
    requires i < |s|
    ensures Value(s, i, i + 1, base) == DigitOf(s[i])
  {
    assert Value(s, i, i, base) == 0;
  }

  /** Zeros in front change nothing. */
  lemma {:induction false} LeadingZeros(s: CString, i: nat, m: nat, j: nat, base: nat)
    requires i <= m <= j <= |s| && forall k | i <= k < m :: s[k] == '0'
    ensures Value(s, i, j, base) == Value(s, m, j, base)
    decreases j
  {
    if i < j {
      if m < j {
        LeadingZeros(s, i, m, j - 1, base);
      } else {
        LeadingZeros(s, i, m - 1, j - 1, base);
      }
    }
  }

  lemma {:induction false} SkipsSpaces(s: CString, i: nat, j: nat)
    requires i <= j <= |s| && (forall k | i <= k < j :: IsSpace(s[k])) && !IsSpace(CharAt(s, j))
    ensures SkipSpaces(s, i) == j
    decreases j - i
  {
    if i < j {
      SkipsSpaces(s, i + 1, j);
    }
  }

  lemma {:induction false} SkipsDigits(s: CString, i: nat, j: nat, base: nat)
    requires i <= j <= |s| && (forall k | i <= k < j :: IsDigit(s[k], base)) && !IsDigit(CharAt(s, j), base)
    ensures SkipDigits(s, i, base) == j
    decreases j - i
  {
    if i < j {
      SkipsDigits(s, i + 1, j, base);
    }
  }

  /** The layout of an output: spaces, a sign, a prefix, digits, spaces. */
  datatype Layout = Layout(sign: nat, prefix: nat, run: nat, digits: nat, tail: nat)

  predicate LaidOut(s: CString, base: nat, l: Layout) {
    l.sign <= l.prefix <= l.run <= l.digits < l.tail <= |s| &&
    (forall k | 0 <= k < l.sign :: s[k] == ' ') &&
    (l.sign == l.prefix || (l.prefix == l.sign + 1 && (s[l.sign] == '-' || s[l.sign] == '+'))) &&
    (l.prefix == l.run ||
      (base == 16 && l.run == l.prefix + 2 && s[l.prefix] == '0' && (s[l.prefix + 1] == 'x' || s[l.prefix + 1] == 'X'))) &&
    (forall k | l.run <= k < l.digits :: s[k] == '0') &&
    (forall k | l.run <= k < l.tail :: Plain(s[k], base)) &&
    (forall k | l.tail <= k < |s| :: s[k] == ' ')
  }

  lemma ShapeFound(s: CString, base: nat, l: Layout)
    requires 2 <= base <= 36 && LaidOut(s, base, l)
    ensures ShapeOf(s, base) == Shape(l.run, base, l.sign < l.prefix && s[l.sign] == '-')
  {
    assert Plain(s[l.run], base);
    SkipsSpaces(s, 0, l.sign);
    if l.run + 1 < l.tail {
      assert Plain(s[l.run + 1], base);
    }
    assert HasSign(s, l.sign) <==> l.sign < l.prefix;
    if base == 16 {
      assert HasHexPrefix(s, l.prefix) <==> l.prefix < l.run;
    }
  }

  /** Parsing a laid out number gives its value and stops after its digits. */
  lemma ParsedLayout(s: CString, base: nat, l: Layout, v: nat, small: bool)
    requires 2 <= base <= 36 && LaidOut(s, base, l) && s[l.digits..l.tail] == Digits(v, base, small)
    ensures Parsed(s, base) == (Clamp(Signed(l.sign < l.prefix && s[l.sign] == '-', v)), l.tail)
  {
    ShapeFound(s, base, l);
    forall k | l.run <= k < l.tail
      ensures IsDigit(s[k], base)
    {
      assert Plain(s[k], base);
    }
    SkipsDigits(s, l.run, l.tail, base);
    LeadingZeros(s, l.run, l.digits, l.tail, base);
    ValueOfDigits(s, l.digits, v, base, small, l.tail);
  }

  /** Where the pieces of a joined text are. */
  ghost predicate PiecesAt(s: string, p: nat, sign: string, prefix: string, z: nat, d: string, a: nat) {
    var q := p + |sign|; var r := q + |prefix|; var e := r + z + |d|;
    |s| == e + a &&
    (forall k | 0 <= k < p :: s[k] == ' ') && s[p..q] == sign && s[q..r] == prefix &&
    (forall k | r <= k < r + z :: s[k] == '0') && s[r + z..e] == d && (forall k | e <= k < |s| :: s[k] == ' ')
  }

  lemma Pieces(s: string, p: nat, sign: string, prefix: string, z: nat, d: string, a: nat)
    requires s == Join(p, sign, prefix, z, d, a)
    ensures PiecesAt(s, p, sign, prefix, z, d, a)
  {
  }

  lemma NoTerminator(s: string, p: nat, sign: string, prefix: string, z: nat, d: string, a: nat)
    requires PiecesAt(s, p, sign, prefix, z, d, a)
    requires '\0' !in sign && '\0' !in prefix && '\0' !in d
    ensures forall i | 0 <= i < |s| :: s[i] != '\0'
  {
    var q := p + |sign|; var r := q + |prefix|; var e := r + z + |d|;
    forall i | 0 <= i < |s|
      ensures s[i] != '\0'
    {
      if p <= i < q {
        assert s[i] == s[p..q][i - p] && s[p..q][i - p] in sign;
      } else if q <= i < r {
        assert s[i] == s[q..r][i - q] && s[q..r][i - q] in prefix;
      } else if r + z <= i < e {
        assert s[i] == s[r + z..e][i - r - z] && s[r + z..e][i - r - z] in d;
      }
    }
  }

  lemma FormattedPieces(f: Formatter, t: Flags)
    requires Formattable(f)
    ensures PiecesAt(Formatted(f, t), Before(f, t), SignText(f, t), PrefixText(f, t), Zeros(f, t), DigitText(f, t), After(f, t))
    ensures forall i | 0 <= i < |Formatted(f, t)| :: Formatted(f, t)[i] != '\0'
  {
    Pieces(Formatted(f, t), Before(f, t), SignText(f, t), PrefixText(f, t), Zeros(f, t), DigitText(f, t), After(f, t));
    DigitsArePlain(Magnitude(f, t), f.base, t.small);
    forall c | c in DigitText(f, t)
      ensures c != '\0'
    {
      assert Plain(c, f.base);
    }
    NoTerminator(Formatted(f, t), Before(f, t), SignText(f, t), PrefixText(f, t), Zeros(f, t), DigitText(f, t), After(f, t));
  }

  /** The layout of the pieces; a space for the sign is one more space in front,
      and the octal prefix one more zero. */
  function LayoutOf(p: nat, sign: string, prefix: string, z: nat, d: string): Layout {
    var at := p + |sign|;
    var digits := at + |prefix| + z;
    Layout(if sign == " " then at else p, at, if |prefix| == 2 then at + 2 else at, digits, digits + |d|)
  }

  predicate OneOf(sign: string) {
    sign == "" || sign == "-" || sign == "+" || sign == " "
  }

  lemma PieceStarts(s: string, at: nat, piece: string)
    requires at + |piece| <= |s| && s[at..at + |piece|] == piece
    ensures |piece| >= 1 ==> s[at] == piece[0]
    ensures |piece| >= 2 ==> s[at + 1] == piece[1]
  {
  }

  lemma FrontLaidOut(s: string, base: nat, p: nat, at: nat, sign: string, prefix: string)
    requires at == p + |sign| && at + |prefix| <= |s| && (forall k | 0 <= k < p :: s[k] == ' ')
    requires s[p..at] == sign && s[at..at + |prefix|] == prefix && OneOf(sign)
    requires prefix == "" || (prefix == "0" && base == 8) || ((prefix == "0x" || prefix == "0X") && base == 16)
    ensures var start, run := if sign == " " then at else p, if |prefix| == 2 then at + 2 else at;
            (forall k | 0 <= k < start :: s[k] == ' ') &&
            (start == at || (at == start + 1 && (s[start] == '-' || s[start] == '+'))) &&
            (start < at && s[start] == '-' <==> sign == "-") &&
            (at == run || (base == 16 && s[at] == '0' && (s[at + 1] == 'x' || s[at + 1] == 'X'))) &&
            (forall k | run <= k < at + |prefix| :: s[k] == '0')
  {
    PieceStarts(s, p, sign);
    PieceStarts(s, at, prefix);
  }

  lemma PlainPiece(s: string, at: nat, d: string, base: nat)
    requires at + |d| <= |s| && s[at..at + |d|] == d && AllPlain(d, base)
    ensures forall k | at <= k < at + |d| :: Plain(s[k], base)
  {
    forall k | at <= k < at + |d|
      ensures Plain(s[k], base)
    {
      assert s[k] == d[k - at];
    }
  }

  lemma PiecesLaidOut(s: CString, base: nat, p: nat, sign: string, prefix: string, z: nat, d: string, a: nat)
    requires PiecesAt(s, p, sign, prefix, z, d, a)
    requires 2 <= base <= 36 && OneOf(sign) && |d| > 0 && AllPlain(d, base)
    requires prefix == "" || (prefix == "0" && base == 8) || ((prefix == "0x" || prefix == "0X") && base == 16)
    ensures var l := LayoutOf(p, sign, prefix, z, d);
            LaidOut(s, base, l) && (l.sign < l.prefix && s[l.sign] == '-' <==> sign == "-") && s[l.digits..l.tail] == d
  {
    var digits := p + |sign| + |prefix| + z;
    FrontLaidOut(s, base, p, p + |sign|, sign, prefix);
    PlainPiece(s, digits, d, base);
    assert Plain('0', base);
  }

  /** For every number, base, width, precision and flags of signed formatting,
      parsing the output gives the number back and ends at its digits. */
  lemma RoundTrip(f: Formatter, t: Flags)
    requires Formattable(f) && t.sign
    ensures forall i | 0 <= i < |Formatted(f, t)| :: Formatted(f, t)[i] != '\0'
    ensures Parsed(Formatted(f, t), f.base) == (AsSigned(f.num), |Formatted(f, t)| - After(f, t))
  {
    FormattedPieces(f, t);
    ReadBack(f, t, Formatted(f, t));
  }

  lemma PiecesParse(s: CString, base: nat, p: nat, sign: string, prefix: string, z: nat, d: string, a: nat, v: nat, small: bool)
    requires PiecesAt(s, p, sign, prefix, z, d, a)
    requires 2 <= base <= 36 && OneOf(sign) && d == Digits(v, base, small) && AllPlain(d, base)
    requires prefix == "" || (prefix == "0" && base == 8) || ((prefix == "0x" || prefix == "0X") && base == 16)
    ensures Parsed(s, base) == (Clamp(Signed(sign == "-", v)), |s| - a)
  {
    PiecesLaidOut(s, base, p, sign, prefix, z, d, a);
    ParsedLayout(s, base, LayoutOf(p, sign, prefix, z, d), v, small);
  }

  lemma ReadBack(f: Formatter, t: Flags, s: CString)
    requires Formattable(f) && t.sign
    requires PiecesAt(s, Before(f, t), SignText(f, t), PrefixText(f, t), Zeros(f, t), DigitText(f, t), After(f, t))
    ensures Parsed(s, f.base) == (AsSigned(f.num), |s| - After(f, t))
  {
    var p, sign, prefix, z, d := Before(f, t), SignText(f, t), PrefixText(f, t), Zeros(f, t), DigitText(f, t);
    DigitsArePlain(Magnitude(f, t), f.base, t.small);
    SignAndPrefix(f, t);
    PiecesParse(s, f.base, p, sign, prefix, z, d, After(f, t), Magnitude(f, t), t.small);
  }

  lemma SignAndPrefix(f: Formatter, t: Flags)
    requires Formattable(f) && t.sign
    ensures OneOf(SignText(f, t)) && (SignText(f, t) == "-" <==> Negative(f, t))
    ensures var prefix := PrefixText(f, t);
            prefix == "" || (prefix == "0" && f.base == 8) || ((prefix == "0x" || prefix == "0X") && f.base == 16)
    ensures Clamp(Signed(Negative(f, t), Magnitude(f, t))) == AsSigned(f.num)
  {
  }

  // ----- the routine -----

  class Writer {
    var out: string

    constructor ()
      ensures out == ""
    {
      out := "";
    }

    method Write(c: char)
      modifies this
      ensures out == old(out) + [c]
    {
      out := out + [c];
    }

    /** Writes a character over and over. */
    method WriteRepeated(c: char, n: nat)
      modifies this
      ensures out == old(out) + Repeat(c, n)
    {
      var left: nat := n;
      while left > 0
        invariant left <= n && out == old(out) + Repeat(c, n - left)
      {
        left := left - 1;
        Write(c);
      }
    }

    method WriteText(s: string)
      modifies this
      ensures out == old(out) + s
    {
      var i := 0;
      while i < |s|
        invariant i <= |s| && out == old(out) + s[..i]
      {
        Write(s[i]);
        assert s[..i + 1] == s[..i] + [s[i]];
        i := i + 1;
      }
      assert s[..i] == s;
    }

    /** The digits collected in reverse, from the last one on. */
    method WriteReversed(tmp: array<char>, count: nat)
      requires count <= tmp.Length
      modifies this
      ensures out == old(out) + Reversed(tmp[..count])
    {
      var n: nat := count;
      while n > 0
        invariant n <= count && old(out) + Reversed(tmp[..count]) == out + Reversed(tmp[..n])
      {
        n := n - 1;
        assert tmp[..n + 1] == tmp[..n] + [tmp[n]];
        Write(tmp[n]);
      }
    }

    method WriteAll(before: nat, sign: string, prefix: string, zeros: nat, more: nat, tmp: array<char>, count: nat,
                    after: nat)
      requires count <= tmp.Length
      modifies this
      ensures out == old(out) + Join(before, sign, prefix, zeros + more, Reversed(tmp[..count]), after)
    {
      WriteRepeated(' ', before);
      WriteText(sign);
      WriteText(prefix);
      WriteRepeated('0', zeros);
      WriteRepeated('0', more);
      RepeatAdds('0', zeros, more);
      WriteReversed(tmp, count);
      WriteRepeated(' ', after);
    }

    /** Writes the pieces with the paddings computed from their widths, and counts what it wrote. */
    method WritePadded(size: nat, precision: nat, t: Flags, sign: string, prefix: string, tmp: array<char>, digits: nat)
        returns (count: nat)
      requires digits <= tmp.Length
      modifies this
      ensures out == old(out) + Padded(size, precision, t, sign, prefix, Reversed(tmp[..digits]))
      ensures count == |Padded(size, precision, t, sign, prefix, Reversed(tmp[..digits]))|
    {
      var precisionWidth := Max(precision, digits);
      var contentWidth := precisionWidth + |prefix| + |sign|;
      var padding := if size > contentWidth then size - contentWidth else 0;
      var zeroField := t.zeropad && !t.left;
      var before := if !t.left && !zeroField then padding else 0;
      var zeros := if zeroField then padding else 0;
      var after := if t.left then padding else 0;
      count := before + |sign| + |prefix| + zeros + precisionWidth + after;
      WriteAll(before, sign, prefix, zeros, precisionWidth - digits, tmp, digits, after);
    }

    /** Writes the number as formatted, unless the base is out of range, and counts what it wrote. */
    method Wnumber(f: Formatter, t: Flags) returns (count: nat)
      modifies this
      ensures !Formattable(f) ==> out == old(out) && count == 0
      ensures Formattable(f) ==> out == old(out) + Formatted(f, t) && count == |Formatted(f, t)|
    {
      if f.base < 2 || f.base > 36 {
        return 0;
      }
      var sign, prefix := SignText(f, t), PrefixText(f, t);
      var tmp, digits := CollectDigits(Magnitude(f, t), f.base, t.small);
      PaddedIsFormatted(f, t);
      count := WritePadded(f.size, f.precision, t, sign, prefix, tmp, digits);
    }
  }

  /** The pieces with the paddings of their widths. */
  function Padded(size: nat, precision: nat, t: Flags, sign: string, prefix: string, d: string): string {
    var content := Max(precision, |d|) + |prefix| + |sign|;
    var padding := if size > content then size - content else 0;
    Join(if !t.left && !t.zeropad then padding else 0, sign, prefix,
      (if !t.left && t.zeropad then padding else 0) + (Max(precision, |d|) - |d|), d, if t.left then padding else 0)
  }

  lemma PaddedIsFormatted(f: Formatter, t: Flags)
    requires Formattable(f)
    ensures Padded(f.size, f.precision, t, SignText(f, t), PrefixText(f, t), DigitText(f, t)) == Formatted(f, t)
  {
  }

  lemma {:induction false} RepeatAdds(c: char, m: nat, n: nat)
    ensures Repeat(c, m + n) == Repeat(c, m) + Repeat(c, n)
  {
    if n > 0 {
      RepeatAdds(c, m, n - 1);
    }
  }

  function Reversed(s: string): (r: string)
    ensures |r| == |s|
  {
    if s == [] then [] else [s[|s| - 1]] + Reversed(s[..|s| - 1])
  }

  lemma Pow64()
    ensures Pow2(64) == U64
  {
    assert Pow2(16) == 0x1_0000 by { assert Pow2(8) == 0x100 by { assert Pow2(4) == 16; } assert Pow2(12) == 0x1000; }
    assert Pow2(32) == 0x1_0000_0000 by {
      assert Pow2(20) == 0x10_0000; assert Pow2(24) == 0x100_0000; assert Pow2(28) == 0x1000_0000;
    }
    assert Pow2(40) == 0x100_0000_0000 by { assert Pow2(36) == 0x10_0000_0000; }
    assert Pow2(48) == 0x1_0000_0000_0000 by { assert Pow2(44) == 0x1000_0000_0000; }
    assert Pow2(56) == 0x100_0000_0000_0000 by { assert Pow2(52) == 0x10_0000_0000_0000; }
    assert Pow2(60) == 0x1000_0000_0000_0000;
  }

  /** The digits, last one first, never more than 64 of them. */
  method CollectDigits(value: Word64, base: nat, small: bool) returns (tmp: array<char>, count: nat)
    requires 2 <= base <= 36
    ensures fresh(tmp) && count <= tmp.Length && Reversed(tmp[..count]) == Digits(value, base, small)
  {
    tmp := new char[65](_ => '0');
    Pow64();
    ghost var text := (v: nat) => Digits(v, base, small);
    count := FillDigits(tmp, value, base, small, text);
  }

  /** The loop of `CollectDigits`. */
  method FillDigits(tmp: array<char>, value: Word64, base: nat, small: bool, ghost text: nat -> string)
      returns (count: nat)
    requires 2 <= base <= 36 && tmp.Length == 65 && value < Pow2(64) && StandsForDigits(text, base, small)
    modifies tmp
    ensures count <= tmp.Length && Reversed(tmp[..count]) == text(value)
  {
    count := 0;
    var rest: nat := value;
    ghost var done := "";
    while rest >= base
      invariant count <= 64 && rest < Pow2(64 - count)
      invariant done == tmp[..count] && text(value) == text(rest) + Reversed(done)
    {
      var c := DigitChar(LastDigit(rest, base), small);
      DigitsStep(rest, base, small, done, c, text);
      HalvesFit(rest, base, 64 - count);
      PutDigit(tmp, count, c);
      rest, count, done := Shorter(rest, base), count + 1, done + [c];
    }
    count := LastDigitOf(tmp, rest, base, small, count, done, text);
  }

  /** The first digit comes last. */
  method LastDigitOf(tmp: array<char>, rest: nat, base: nat, small: bool, count: nat, ghost done: string, ghost text: nat -> string)
      returns (more: nat)
    requires 2 <= base <= 36 && rest < base && count < tmp.Length && done == tmp[..count] && StandsForDigits(text, base, small)
    modifies tmp
    ensures more == count + 1 && Reversed(tmp[..more]) == text(rest) + Reversed(done)
  {
    ReversedMore(done, DigitChar(rest, small));
    LastIs(rest, base, small, text);
    PutDigit(tmp, count, DigitChar(rest, small));
    more := count + 1;
  }

  method PutDigit(tmp: array<char>, count: nat, c: char)
    requires count < tmp.Length
    modifies tmp
    ensures tmp[..count + 1] == old(tmp[..count]) + [c]
  {
    tmp[count] := c;
  }

  lemma HalvesFit(v: nat, base: nat, n: nat)
    requires 2 <= base <= v && v < Pow2(n)
    ensures n > 0 && Shorter(v, base) < Pow2(n - 1)
  {
    DivisionBounds(v, base);
    Divided(v, v / base, base);
  }

  /** One digit moves from the number to the digits done. */
  lemma DigitsStep(rest: nat, base: nat, small: bool, done: string, c: char, text: nat -> string)
    requires 2 <= base <= 36 && rest >= base && c == DigitChar(LastDigit(rest, base), small)
    requires StandsForDigits(text, base, small)
    ensures text(rest) + Reversed(done) == text(Shorter(rest, base)) + Reversed(done + [c])
  {
    ReversedMore(done, c);
    var front := Digits(Shorter(rest, base), base, small);
    assert text(rest) == Digits(rest, base, small) == front + [c];
    assert text(Shorter(rest, base)) == front;
    Regroup(front, c, Reversed(done));
  }

  lemma LastIs(v: nat, base: nat, small: bool, text: nat -> string)
    requires 2 <= base <= 36 && v < base && StandsForDigits(text, base, small)
    ensures text(v) == [DigitChar(v, small)]
  {
    assert text(v) == Digits(v, base, small);
  }

  /** `text` is `Digits` for this base and case, as a function value. */
  ghost predicate StandsForDigits(text: nat -> string, base: nat, small: bool)
    requires 2 <= base <= 36
  {
    forall v: nat {:trigger Digits(v, base, small)} :: text(v) == Digits(v, base, small)
  }

  lemma Regroup(a: string, c: char, b: string)
    ensures (a + [c]) + b == a + ([c] + b)
  {
  }

  lemma ReversedMore(done: string, c: char)
    ensures Reversed(done + [c]) == [c] + Reversed(done)
  {
    assert (done + [c])[..|done|] == done;
  }
}
