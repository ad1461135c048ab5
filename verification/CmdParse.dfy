/** Splitting a command line at a separator, with quotes and backslashes. */
module CmdParse {
  import opened Machine
  import opened Strtol

  predicate IsQuote(c: char) {
    c == '\'' || c == '"'
  }

  // ----- the meaning -----

  /** The first position from `i` on without the separator. */
  function SkipToken(s: CString, i: nat, token: char): (j: nat)
    requires i <= |s|
    ensures i <= j <= |s| && (j < |s| ==> s[j] != token)
    decreases |s| - i
  {
    if i < |s| && s[i] == token then SkipToken(s, i + 1, token) else i
  }

  /** The argument from `i` on, inside the quote `quote` unless that is the
      terminator character, and the position where it ends. */
  function ParseArg(s: CString, i: nat, token: char, quote: char): (r: (string, nat))
    requires i <= |s|
    ensures i <= r.1 <= |s| && |r.0| <= r.1 - i
    ensures forall k | 0 <= k < |r.0| :: r.0[k] != '\0'
    ensures i < |s| && (quote != '\0' || s[i] != token) ==> i < r.1
    decreases |s| - i
  {
    if i == |s| then ("", i)
    else if quote != '\0' && s[i] == quote then ParseArg(s, i + 1, token, '\0')
    else if quote == '\0' && s[i] == token then ("", i)
    else if quote == '\0' && IsQuote(s[i]) then ParseArg(s, i + 1, token, s[i])
    else
      var at := if s[i] == '\\' && i + 1 < |s| then i + 1 else i;
      var (arg, end) := ParseArg(s, at + 1, token, quote);
      ([s[at]] + arg, end)
  }

  /** At most `max` arguments from `i` on. */
  function ParseAll(s: CString, i: nat, token: char, max: nat): (args: seq<string>)
    requires i <= |s|
    ensures |args| <= max
    decreases max
  {
    var j := SkipToken(s, i, token);
    if max == 0 || j == |s| then []
    else
      var (arg, end) := ParseArg(s, j, token, '\0');
      [arg] + ParseAll(s, end, token, max - 1)
  }

  // ----- round trip -----

  /** Every character behind a backslash. */
  function Escaped(a: CString): (s: CString)
    ensures |s| == 2 * |a|
  {
    seq(2 * |a|, k requires 0 <= k < 2 * |a| => EscapedAt(a, k))
  }

  function EscapedAt(a: CString, k: nat): (c: char)
    requires k < 2 * |a|
    ensures c != '\0'
  {
    if k % 2 == 0 then '\\' else a[k / 2]
  }

  lemma EscapedFirst(a: CString)
    requires a != ""
    ensures Escaped(a)[0] == '\\' && Escaped(a)[1] == a[0] && Escaped(a)[2..] == Escaped(a[1..])
  {
    forall k | 0 <= k < 2 * |a| - 2
      ensures Escaped(a)[2..][k] == Escaped(a[1..])[k]
    {
      assert (k + 2) / 2 == k / 2 + 1;
    }
  }

  /** An argument as it can be written: the empty one as two quotes. */
  function Written(a: CString): (s: CString)
    ensures |s| >= 2 && (s[0] == '\\' || s[0] == '\'')
  {
    if a == "" then "''" else EscapedFirst(a); Escaped(a)
  }

  function Words(args: seq<CString>): (words: seq<string>)
    ensures |words| == |args| && forall k | 0 <= k < |args| :: words[k] == Written(args[k])
  {
    seq(|args|, k requires 0 <= k < |args| => Written(args[k]))
  }

  /** The words with separators between them. */
  function JoinWords(words: seq<string>, token: char): string {
    if words == [] then "" else if |words| == 1 then words[0] else words[0] + [token] + JoinWords(words[1..], token)
  }

  predicate Separator(token: char) {
    token != '\0' && token != '\\' && !IsQuote(token)
  }

  lemma {:induction false} EscapedParses(s: CString, i: nat, a: CString, token: char)
    requires Separator(token) && i + 2 * |a| <= |s| && s[i..i + 2 * |a|] == Escaped(a)
    requires i + 2 * |a| == |s| || s[i + 2 * |a|] == token
    ensures ParseArg(s, i, token, '\0') == (a, i + 2 * |a|)
    decreases |a|
  {
    if a != "" {
      var e := Escaped(a);
      EscapedFirst(a);
      assert s[i] == s[i..i + 2 * |a|][0] == e[0] == '\\';
      assert s[i + 1] == s[i..i + 2 * |a|][1] == e[1] == a[0];
      assert s[i + 2..i + 2 * |a|] == s[i..i + 2 * |a|][2..] == e[2..] == Escaped(a[1..]);
      EscapedParses(s, i + 2, a[1..], token);
      assert [a[0]] + a[1..] == a;
    }
  }

  lemma WrittenParses(s: CString, i: nat, a: CString, token: char)
    requires Separator(token) && i + |Written(a)| <= |s| && s[i..i + |Written(a)|] == Written(a)
    requires i + |Written(a)| == |s| || s[i + |Written(a)|] == token
    ensures ParseArg(s, i, token, '\0') == (a, i + |Written(a)|)
  {
    if a == "" {
      assert s[i] == s[i..i + 2][0] && s[i + 1] == s[i..i + 2][1];
      assert ParseArg(s, i + 2, token, '\0') == ("", i + 2);
      assert ParseArg(s, i + 1, token, '\'') == ("", i + 2);
    } else {
      EscapedParses(s, i, a, token);
    }
  }

  lemma NoTokenToSkip(s: CString, i: nat, token: char)
    requires i <= |s| && (i < |s| ==> s[i] != token)
    ensures SkipToken(s, i, token) == i
  {
  }

  /** Wherever `w` stands in `s` as a word, parsing there gives `a`. */
  ghost predicate Reads(s: CString, w: string, a: string, token: char) {
    |w| > 0 && w[0] != token &&
    forall i: nat | i + |w| <= |s| && s[i..i + |w|] == w && (i + |w| == |s| || s[i + |w|] == token) ::
      ParseArg(s, i, token, '\0') == (a, i + |w|)
  }

  lemma WrittenReads(s: CString, a: CString, token: char)
    requires Separator(token)
    ensures Reads(s, Written(a), a, token)
  {
    forall i: nat | i + |Written(a)| <= |s| && s[i..i + |Written(a)|] == Written(a) &&
      (i + |Written(a)| == |s| || s[i + |Written(a)|] == token)
      ensures ParseArg(s, i, token, '\0') == (a, i + |Written(a)|)
    {
      WrittenParses(s, i, a, token);
    }
  }

  /** `parsed` is `ParseAll` on `s`, as a function value. */
  ghost predicate StandsForParse(parsed: (nat, nat) -> seq<string>, s: CString, token: char) {
    forall i: nat, max: nat {:trigger ParseAll(s, i, token, max)} | i <= |s| :: parsed(i, max) == ParseAll(s, i, token, max)
  }

  lemma FirstWord(s: CString, i: nat, w: string, a: string, token: char, max: nat, parsed: (nat, nat) -> seq<string>)
    requires StandsForParse(parsed, s, token) && Reads(s, w, a, token) && max > 0
    requires i + |w| <= |s| && s[i..i + |w|] == w && (i + |w| == |s| || s[i + |w|] == token)
    ensures parsed(i, max) == [a] + parsed(i + |w|, max - 1)
  {
    assert s[i] == s[i..i + |w|][0];
    NoTokenToSkip(s, i, token);
    assert parsed(i, max) == ParseAll(s, i, token, max);
    assert parsed(i + |w|, max - 1) == ParseAll(s, i + |w|, token, max - 1);
  }

  lemma AfterWord(s: CString, j: nat, token: char, max: nat, parsed: (nat, nat) -> seq<string>)
    requires StandsForParse(parsed, s, token) && j <= |s| && (j < |s| ==> s[j] == token)
    ensures parsed(j, max) == if j == |s| then [] else parsed(j + 1, max)
  {
    assert parsed(j, max) == ParseAll(s, j, token, max);
    if j < |s| {
      assert parsed(j + 1, max) == ParseAll(s, j + 1, token, max);
      assert SkipToken(s, j, token) == SkipToken(s, j + 1, token);
    }
  }

  lemma Front(s: string, i: nat, w: string, token: char, rest: string)
    requires i <= |s| && s[i..] == w + [token] + rest
    ensures i + |w| < |s| && s[i..i + |w|] == w && s[i + |w|] == token && s[i + |w| + 1..] == rest
  {
    assert s[i..i + |w|] == s[i..][..|w|];
    assert s[i + |w|] == s[i..][|w|];
    assert s[i + |w| + 1..] == s[i..][|w| + 1..];
  }

  /** The words, from `i` to the end of the string, parse to the arguments they read as. */
  lemma {:induction false} WordsParse(s: CString, i: nat, words: seq<string>, args: seq<string>, token: char, max: nat,
                                      parsed: (nat, nat) -> seq<string>)
    requires StandsForParse(parsed, s, token) && |words| == |args| <= max
    requires forall k | 0 <= k < |words| :: Reads(s, words[k], args[k], token)
    requires i <= |s| && s[i..] == JoinWords(words, token)
    ensures parsed(i, max) == args
    decreases |words|
  {
    if words == [] {
      AfterWord(s, i, token, max, parsed);
    } else {
      var w := words[0];
      if |words| == 1 {
        assert s[i..] == s[i..|s|];
        FirstWord(s, i, w, args[0], token, max, parsed);
        AfterWord(s, |s|, token, max - 1, parsed);
      } else {
        Front(s, i, w, token, JoinWords(words[1..], token));
        FirstWord(s, i, w, args[0], token, max, parsed);
        AfterWord(s, i + |w|, token, max - 1, parsed);
        WordsParse(s, i + |w| + 1, words[1..], args[1..], token, max - 1, parsed);
      }
      assert args == [args[0]] + args[1..];
    }
  }

  /** Joining any arguments and parsing the result gives the arguments back. */
  lemma RoundTrip(args: seq<CString>, token: char, max: nat)
    requires Separator(token) && |args| <= max
    ensures forall i | 0 <= i < |JoinWords(Words(args), token)| :: JoinWords(Words(args), token)[i] != '\0'
    ensures ParseAll(JoinWords(Words(args), token), 0, token, max) == args
  {
    JoinedIsCString(Words(args), token);
    JoinedArgumentsParse(args, token, max, JoinWords(Words(args), token));
  }

  lemma JoinedArgumentsParse(args: seq<CString>, token: char, max: nat, s: CString)
    requires Separator(token) && |args| <= max && s == JoinWords(Words(args), token)
    ensures ParseAll(s, 0, token, max) == args
  {
    assert s[0..] == s;
    var parsed := (i: nat, n: nat) => if i <= |s| then ParseAll(s, i, token, n) else [];
    forall k | 0 <= k < |args|
      ensures Reads(s, Words(args)[k], args[k], token)
    {
      WrittenReads(s, args[k], token);
    }
    WordsParse(s, 0, Words(args), args, token, max, parsed);
    assert parsed(0, max) == ParseAll(s, 0, token, max);
  }

  // ----- other ways to write an argument -----

  /** Inside quotes only the quote itself and the backslash need a backslash. */
  function Body(a: string, quote: char): string {
    if a == "" then "" else FirstOf(a[0], quote) + Body(a[1..], quote)
  }

  function Quoted(a: string, quote: char): string {
    [quote] + Body(a, quote) + [quote]
  }

  /** Nothing in the argument is special. */
  predicate Bare(a: string, token: char) {
    a != "" && forall i | 0 <= i < |a| :: a[i] != token && a[i] != '\\' && a[i] != '\'' && a[i] != '"'
  }

  /** A word that stands for the argument: every character behind a backslash, either kind of quotes
      around it, or the argument as it is. */
  predicate Spells(w: string, a: CString, token: char) {
    w == Written(a) || w == Quoted(a, '\'') || w == Quoted(a, '"') || (Bare(a, token) && w == a)
  }

  /** `part` stands in `s` at `i`. */
  predicate StandsAt(s: string, i: nat, part: string) {
    i + |part| <= |s| && s[i..i + |part|] == part
  }

  lemma StandsParts(s: string, i: nat, a: string, b: string)
    requires StandsAt(s, i, a + b)
    ensures StandsAt(s, i, a) && StandsAt(s, i + |a|, b)
    ensures |a| > 0 ==> s[i] == a[0]
    ensures |a| > 1 ==> s[i + 1] == a[1]
  {
    var t := s[i..i + |a + b|];
    assert t[..|a|] == a && t[|a|..] == b;
    assert s[i..i + |a|] == t[..|a|];
    assert s[i + |a|..i + |a| + |b|] == t[|a|..];
    assert |a| > 0 ==> s[i..i + |a|][0] == a[0];
    assert |a| > 1 ==> s[i..i + |a|][1] == a[1];
  }

  lemma ArgEnds(s: CString, i: nat, token: char)
    requires i <= |s| && (i == |s| || s[i] == token)
    ensures ParseArg(s, i, token, '\0') == ("", i)
  {
  }

  /** How the first character of a quoted argument is written. */
  function FirstOf(c: char, quote: char): (w: string)
    ensures 0 < |w| <= 2
  {
    if c == quote || c == '\\' then ['\\', c] else [c]
  }

  lemma QuotedStep(s: CString, i: nat, c: char, quote: char, token: char, parsed: (nat, char) -> (string, nat))
    requires StandsForArgument(parsed, s, token) && IsQuote(quote) && StandsAt(s, i, FirstOf(c, quote))
    ensures var rest := parsed(i + |FirstOf(c, quote)|, quote); parsed(i, quote) == ([c] + rest.0, rest.1)
  {
    StandsParts(s, i, FirstOf(c, quote), "");
    ArgumentStep(s, i, token, quote, parsed);
  }

  lemma QuoteCloses(s: CString, i: nat, quote: char, token: char, parsed: (nat, char) -> (string, nat))
    requires StandsForArgument(parsed, s, token) && IsQuote(quote) && StandsAt(s, i, [quote])
    requires i + 1 == |s| || s[i + 1] == token
    ensures parsed(i, quote) == ("", i + 1)
  {
    StandsParts(s, i, [quote], "");
    ArgumentStep(s, i, token, quote, parsed);
    ArgumentEnd(s, 0, i + 1, token, '\0', parsed);
  }

  lemma BodySplits(a: string, quote: char)
    requires a != ""
    ensures Body(a, quote) + [quote] == FirstOf(a[0], quote) + (Body(a[1..], quote) + [quote])
    ensures |Body(a, quote)| == |FirstOf(a[0], quote)| + |Body(a[1..], quote)|
  {
  }

  /** From behind the opening quote to behind the closing one: separators and the other quote are ordinary there. */
  lemma {:induction false} BodyParses(s: CString, i: nat, a: string, quote: char, token: char,
                                      parsed: (nat, char) -> (string, nat))
    requires StandsForArgument(parsed, s, token) && IsQuote(quote) && StandsAt(s, i, Body(a, quote) + [quote])
    requires var end := i + |Body(a, quote)| + 1; end == |s| || s[end] == token
    ensures parsed(i, quote) == (a, i + |Body(a, quote)| + 1)
    decreases |a|
  {
    if a == "" {
      assert Body(a, quote) + [quote] == [quote];
      QuoteCloses(s, i, quote, token, parsed);
    } else {
      BodySplits(a, quote);
      var first, rest := FirstOf(a[0], quote), Body(a[1..], quote) + [quote];
      assert StandsAt(s, i, first + rest);
      StandsParts(s, i, first, rest);
      BodyParses(s, i + |first|, a[1..], quote, token, parsed);
      QuotedStep(s, i, a[0], quote, token, parsed);
      assert [a[0]] + a[1..] == a;
    }
  }

  lemma QuotedParses(s: CString, i: nat, a: CString, quote: char, token: char)
    requires Separator(token) && IsQuote(quote) && StandsAt(s, i, Quoted(a, quote))
    requires i + |Quoted(a, quote)| == |s| || s[i + |Quoted(a, quote)|] == token
    ensures ParseArg(s, i, token, '\0') == (a, i + |Quoted(a, quote)|)
  {
    assert Quoted(a, quote) == [quote] + (Body(a, quote) + [quote]);
    StandsParts(s, i, [quote], Body(a, quote) + [quote]);
    var parsed := (i: nat, q: char) => if i <= |s| then ParseArg(s, i, token, q) else ("", i);
    ArgumentStep(s, i, token, '\0', parsed);
    BodyParses(s, i + 1, a, quote, token, parsed);
    ArgumentEnd(s, i, i, token, quote, parsed);
  }

  lemma {:induction false} BareParses(s: CString, i: nat, a: CString, token: char)
    requires StandsAt(s, i, a) && (a == "" || Bare(a, token)) && (i + |a| == |s| || s[i + |a|] == token)
    ensures ParseArg(s, i, token, '\0') == (a, i + |a|)
    decreases |a|
  {
    if a == "" {
      ArgEnds(s, i, token);
    } else {
      assert a == [a[0]] + a[1..];
      StandsParts(s, i, [a[0]], a[1..]);
      BareParses(s, i + 1, a[1..], token);
    }
  }

  lemma SpelledReads(s: CString, w: string, a: CString, token: char)
    requires Separator(token) && Spells(w, a, token)
    ensures Reads(s, w, a, token)
  {
    if w == Written(a) {
      WrittenReads(s, a, token);
    } else if w == Quoted(a, '\'') {
      QuotedReads(s, a, '\'', token);
    } else if w == Quoted(a, '"') {
      QuotedReads(s, a, '"', token);
    } else {
      BareReads(s, a, token);
    }
  }

  lemma QuotedReads(s: CString, a: CString, quote: char, token: char)
    requires Separator(token) && IsQuote(quote)
    ensures Reads(s, Quoted(a, quote), a, token)
  {
    var w := Quoted(a, quote);
    forall i: nat | i + |w| <= |s| && s[i..i + |w|] == w && (i + |w| == |s| || s[i + |w|] == token)
      ensures ParseArg(s, i, token, '\0') == (a, i + |w|)
    {
      QuotedParses(s, i, a, quote, token);
    }
  }

  lemma BareReads(s: CString, a: CString, token: char)
    requires Bare(a, token)
    ensures Reads(s, a, a, token)
  {
    forall i: nat | i + |a| <= |s| && s[i..i + |a|] == a && (i + |a| == |s| || s[i + |a|] == token)
      ensures ParseArg(s, i, token, '\0') == (a, i + |a|)
    {
      BareParses(s, i, a, token);
    }
  }

  /** Arguments written in any of these ways, each in its own, parse back. */
  lemma SpelledParse(s: CString, words: seq<string>, args: seq<CString>, token: char, max: nat)
    requires Separator(token) && |words| == |args| <= max && s == JoinWords(words, token)
    requires forall k | 0 <= k < |words| :: Spells(words[k], args[k], token)
    ensures ParseAll(s, 0, token, max) == args
  {
    assert s[0..] == s;
    var parsed := (i: nat, n: nat) => if i <= |s| then ParseAll(s, i, token, n) else [];
    forall k | 0 <= k < |args|
      ensures Reads(s, words[k], args[k], token)
    {
      SpelledReads(s, words[k], args[k], token);
    }
    WordsParse(s, 0, words, args, token, max, parsed);
    assert parsed(0, max) == ParseAll(s, 0, token, max);
  }

  /** The joined words are a C string: they hold no terminator. */
  lemma {:induction false} JoinedIsCString(words: seq<string>, token: char)
    requires token != '\0' && forall k | 0 <= k < |words| :: '\0' !in words[k]
    ensures '\0' !in JoinWords(words, token)
  {
    if |words| > 1 {
      JoinedIsCString(words[1..], token);
    }
  }

  // ----- the routine -----

  /** One argument, copied into an allocation of the remaining length plus one. */
  method ReadArgument(s: CString, start: nat, token: char) returns (arg: string, next: nat)
    requires start < |s|
    ensures (arg, next) == ParseArg(s, start, token, '\0')
  {
    var buffer := new char[|s| - start + 1](_ => '\0');
    var quote, len := '\0', 0;
    next := start;
    ghost var done := "";
    ghost var parsed := (i: nat, q: char) => if i <= |s| then ParseArg(s, i, token, q) else ("", i);
    ghost var whole := parsed(start, '\0');
    BehindNothing(whole);
    while next < |s|
      invariant start <= next <= |s| && len <= next - start && done == buffer[..len]
      invariant whole == Behind(done, parsed(next, quote))
    {
      var c := s[next];
      ArgumentStep(s, next, token, quote, parsed);
      if quote != '\0' && c == quote {
        quote := '\0';
        next := next + 1;
        continue;
      }
      if quote == '\0' {
        if c == token {
          break;
        }
        if IsQuote(c) {
          quote := c;
          next := next + 1;
          continue;
        }
      }
      if c == '\\' && CharAt(s, next + 1) != '\0' {
        next := next + 1;
        c := s[next];
      }
      buffer[len] := c;
      len, next := len + 1, next + 1;
      Regroup(done, c, parsed(next, quote));
      done := done + [c];
    }
    BehindEmpty(done, next);
    ArgumentEnd(s, start, next, token, quote, parsed);
    arg := buffer[..len];
  }

  /** `parsed` is `ParseArg` on `s`, as a function value. */
  ghost predicate StandsForArgument(parsed: (nat, char) -> (string, nat), s: CString, token: char) {
    forall i: nat, q: char {:trigger ParseArg(s, i, token, q)} | i <= |s| :: parsed(i, q) == ParseArg(s, i, token, q)
  }

  lemma ArgumentStep(s: CString, i: nat, token: char, quote: char, parsed: (nat, char) -> (string, nat))
    requires StandsForArgument(parsed, s, token) && i < |s|
    ensures parsed(i, quote) ==
      if quote != '\0' && s[i] == quote then parsed(i + 1, '\0')
      else if quote == '\0' && s[i] == token then ("", i)
      else if quote == '\0' && IsQuote(s[i]) then parsed(i + 1, s[i])
      else
        var at := if s[i] == '\\' && i + 1 < |s| then i + 1 else i;
        ([s[at]] + parsed(at + 1, quote).0, parsed(at + 1, quote).1)
  {
    assert parsed(i, quote) == ParseArg(s, i, token, quote);
    assert parsed(i + 1, '\0') == ParseArg(s, i + 1, token, '\0');
    assert parsed(i + 1, s[i]) == ParseArg(s, i + 1, token, s[i]);
    var at := if s[i] == '\\' && i + 1 < |s| then i + 1 else i;
    assert parsed(at + 1, quote) == ParseArg(s, at + 1, token, quote);
  }

  lemma ArgumentEnd(s: CString, start: nat, i: nat, token: char, quote: char, parsed: (nat, char) -> (string, nat))
    requires StandsForArgument(parsed, s, token) && start <= |s| && i <= |s|
    ensures parsed(start, '\0') == ParseArg(s, start, token, '\0')
    ensures i == |s| || (quote == '\0' && s[i] == token) ==> parsed(i, quote) == ("", i)
  {
    assert parsed(start, '\0') == ParseArg(s, start, token, '\0');
    assert parsed(i, quote) == ParseArg(s, i, token, quote);
  }

  /** The characters parsed so far in front of what is still to come. */
  function Behind(done: string, r: (string, nat)): (string, nat) {
    (done + r.0, r.1)
  }

  lemma BehindNothing(r: (string, nat))
    ensures Behind("", r) == r
  {
    assert "" + r.0 == r.0;
  }

  lemma BehindEmpty(done: string, end: nat)
    ensures Behind(done, ("", end)) == (done, end)
  {
    assert done + "" == done;
  }

  lemma Regroup(done: string, c: char, r: (string, nat))
    ensures Behind(done + [c], r) == Behind(done, ([c] + r.0, r.1))
  {
    assert (done + [c]) + r.0 == done + ([c] + r.0);
  }

  /** Fills `argv` with the arguments and a terminating entry, and returns how many there
      are; -1 if an argument comes up after `memory` allocations. */
  method CmdParseLimit(s: CString, argv: array<Option<string>>, token: char, maxArgc: int, memory: nat) returns (argc: int)
    requires token != '\0' && argv.Length > 0 && argv.Length > maxArgc
    modifies argv
    ensures maxArgc <= 0 ==> argc == 0 && argv[0] == None
    ensures maxArgc > 0 ==>
              var all := ParseAll(s, 0, token, maxArgc);
              if |all| > memory then argc == -1
              else argc == |all| && argv[argc] == None && forall k | 0 <= k < argc :: argv[k] == Some(all[k])
  {
    if maxArgc <= 0 {
      argv[0] := None;
      return 0;
    }
    argc := 0;
    var next := 0;
    ghost var all, taken := ParseAll(s, 0, token, maxArgc), [];
    while next < |s|
      invariant 0 <= argc < maxArgc && argc <= memory && next <= |s|
      invariant |taken| == argc && all == taken + ParseAll(s, next, token, maxArgc - argc)
      invariant forall k | 0 <= k < argc :: argv[k] == Some(taken[k])
      decreases |s| - next
    {
      ghost var from := next;
      next := SkipTokens(s, next, token);
      if next == |s| {
        break;
      }
      if argc == memory {
        return -1;
      }
      var arg;
      arg, next := ReadArgument(s, next, token);
      TakeOne(all, taken, arg, ParseAll(s, from, token, maxArgc - argc), ParseAll(s, next, token, maxArgc - argc - 1));
      taken := taken + [arg];
      argv[argc] := Some(arg);
      argc := argc + 1;
      if argc >= maxArgc {
        break;
      }
    }
    argv[argc] := None;
  }

  lemma TakeOne(all: seq<string>, taken: seq<string>, arg: string, was: seq<string>, rest: seq<string>)
    requires all == taken + was && was == [arg] + rest
    ensures all == (taken + [arg]) + rest
  {
  }

  method SkipTokens(s: CString, from: nat, token: char) returns (next: nat)
    requires token != '\0' && from <= |s|
    ensures next == SkipToken(s, from, token)
  {
    next := from;
    while CharAt(s, next) == token
      invariant from <= next <= |s| && SkipToken(s, from, token) == SkipToken(s, next, token)
      decreases |s| - next
    {
      next := next + 1;
    }
  }
}
