/** The installer's archive: a header and entries, each a directory or a file. */
module Installer {
  import opened Machine
  import opened Elf
  import opened Patches

  const EOK: int := 0
  const EINVAL: int := 22

  const MAGIC: seq<Byte> := [88, 74, 80, 65, 75, 49, 48, 0]
  const HEADER_SIZE: nat := 16
  const ENTRY_SIZE: nat := 16
  const ENTRY_FILE: nat := 1
  const ENTRY_DIR: nat := 2
  const SLASH: Byte := 47

  // ----- the archive format -----

  /** An entry: its path, its mode, and for a directory the size field, which is ignored. */
  datatype Entry =
    | Dir(path: seq<Byte>, mode: nat, size: nat)
    | File(path: seq<Byte>, mode: nat, data: seq<Byte>)

  predicate EntryOk(e: Entry) {
    0 < |e.path| < 512 && e.path[0] == SLASH && e.mode < 0x1_0000_0000 &&
    match e {
      case Dir(_, _, size) => size < U64
      case File(_, _, data) => |data| < U64
    }
  }

  function KindOf(e: Entry): nat {
    if e.Dir? then 2 else 1
  }

  function SizeOf(e: Entry): nat {
    if e.Dir? then e.size else |e.data|
  }

  function DataOf(e: Entry): seq<Byte> {
    if e.Dir? then [] else e.data
  }

  /** The numbers in front of an entry. */
  datatype Fixed = Fixed(length: nat, kind: nat, mode: nat, size: nat)

  function FixedOf(e: Entry): Fixed {
    Fixed(|e.path|, KindOf(e), e.mode, SizeOf(e))
  }

  function FixedBytes(f: Fixed): (s: seq<Byte>)
    ensures |s| == ENTRY_SIZE
  {
    Bytes(f.length, 2) + Bytes(f.kind, 2) + Bytes(f.mode, 4) + Bytes(f.size, 8)
  }

  function Serialized(e: Entry): (s: seq<Byte>)
    ensures |s| == ENTRY_SIZE + |e.path| + |DataOf(e)|
  {
    FixedBytes(FixedOf(e)) + e.path + DataOf(e)
  }

  function SerializedAll(entries: seq<Entry>): seq<Byte> {
    if entries == [] then [] else Serialized(entries[0]) + SerializedAll(entries[1..])
  }

  function Archive(entries: seq<Entry>): seq<Byte> {
    [88, 74, 80, 65, 75, 49, 48, 0] + Bytes(|entries|, 8) + SerializedAll(entries)
  }

  // ----- numbers in bytes -----

  lemma {:induction false} WordOfBytes(s: seq<Byte>, at: nat, n: nat, v: nat)
    requires at + n <= |s| && s[at..at + n] == Bytes(v, n) && v < Limit(n)
    ensures Word(s, at, n) == v
    decreases n
  {
    if n > 0 {
      assert s[at] == s[at..at + n][0];
      assert s[at + 1..at + n] == s[at..at + n][1..] == Bytes(v / 256, n - 1);
      WordOfBytes(s, at + 1, n - 1, v / 256);
    }
  }

  lemma {:induction false} BytesOfWord(s: seq<Byte>, at: nat, n: nat)
    requires at + n <= |s|
    ensures Bytes(Word(s, at, n), n) == s[at..at + n] && Word(s, at, n) < Limit(n)
    decreases n
  {
    if n > 0 {
      BytesOfWord(s, at + 1, n - 1);
      assert s[at..at + n] == [s[at]] + s[at + 1..at + n];
    }
  }

  // ----- parsing -----

  datatype Parsed = Bad | Good(entry: Entry, next: nat)

  function FixedAt(pak: seq<Byte>, off: nat): Fixed
    requires off + ENTRY_SIZE <= |pak|
  {
    Fixed(Word(pak, off, 2), Word(pak, off + 2, 2), Word(pak, off + 4, 4), Word(pak, off + 8, 8))
  }

  predicate FixedOk(f: Fixed) {
    f.length < 0x1_0000 && f.kind < 0x1_0000 && f.mode < 0x1_0000_0000 && f.size < U64
  }

  /** The numbers are those their bytes spell. */
  lemma FixedSpelled(pak: seq<Byte>, off: nat, f: Fixed)
    requires off + ENTRY_SIZE <= |pak| && FixedOk(f)
    ensures FixedAt(pak, off) == f <==> pak[off..off + ENTRY_SIZE] == FixedBytes(f)
    ensures FixedOk(FixedAt(pak, off))
  {
    var g := FixedAt(pak, off);
    FixedRead(pak, off, g);
    if FixedBytes(g) == FixedBytes(f) {
      FixedInjective(f, g);
    }
  }

  lemma FixedRead(pak: seq<Byte>, off: nat, g: Fixed)
    requires off + ENTRY_SIZE <= |pak| && g == FixedAt(pak, off)
    ensures FixedOk(g) && pak[off..off + ENTRY_SIZE] == FixedBytes(g)
  {
    Limits();
    BytesOfWord(pak, off, 2);
    BytesOfWord(pak, off + 2, 2);
    BytesOfWord(pak, off + 4, 4);
    BytesOfWord(pak, off + 8, 8);
    FourSlices(pak, off);
  }

  lemma FourSlices(pak: seq<Byte>, off: nat)
    requires off + ENTRY_SIZE <= |pak|
    ensures pak[off..off + ENTRY_SIZE] == pak[off..off + 2] + pak[off + 2..off + 4] + pak[off + 4..off + 8] + pak[off + 8..off + 16]
  {
  }

  lemma FixedInjective(f: Fixed, g: Fixed)
    requires FixedOk(f) && FixedOk(g) && FixedBytes(f) == FixedBytes(g)
    ensures f == g
  {
    Limits();
    FourFields(FixedBytes(f), Bytes(f.length, 2), Bytes(f.kind, 2), Bytes(f.mode, 4), Bytes(f.size, 8));
    FourFields(FixedBytes(f), Bytes(g.length, 2), Bytes(g.kind, 2), Bytes(g.mode, 4), Bytes(g.size, 8));
    BytesInjective(f.length, g.length, 2);
    BytesInjective(f.kind, g.kind, 2);
    BytesInjective(f.mode, g.mode, 4);
    BytesInjective(f.size, g.size, 8);
  }

  lemma {:induction false} BytesInjective(v: nat, w: nat, n: nat)
    requires v < Limit(n) && w < Limit(n) && Bytes(v, n) == Bytes(w, n)
    ensures v == w
  {
    if n > 0 {
      assert Bytes(v, n)[0] == Bytes(w, n)[0];
      assert Bytes(v, n)[1..] == Bytes(w, n)[1..];
      BytesInjective(v / 256, w / 256, n - 1);
    }
  }

  lemma SliceOfSlice(s: seq<Byte>, a: nat, b: nat, i: nat, j: nat)
    requires a <= b <= |s| && i <= j <= b - a
    ensures s[a..b][i..j] == s[a + i..a + j]
  {
    forall k | 0 <= k < j - i
      ensures s[a..b][i..j][k] == s[a + i..a + j][k]
    {
      assert s[a..b][i + k] == s[a + i + k];
    }
  }

  lemma FourFields(s: seq<Byte>, a: seq<Byte>, b: seq<Byte>, c: seq<Byte>, d: seq<Byte>)
    requires |s| == 16 && |a| == 2 && |b| == 2 && |c| == 4 && |d| == 8
    ensures s == a + b + c + d <==> s[0..2] == a && s[2..4] == b && s[4..8] == c && s[8..16] == d
  {
    if s[0..2] == a && s[2..4] == b && s[4..8] == c && s[8..16] == d {
      assert s == s[0..2] + s[2..4] + s[4..8] + s[8..16];
    }
  }

  lemma FieldSpelled(s: seq<Byte>, at: nat, n: nat, v: nat)
    requires at + n <= |s| && v < Limit(n)
    ensures Word(s, at, n) == v <==> s[at..at + n] == Bytes(v, n)
    ensures Word(s, at, n) < Limit(n)
  {
    BytesOfWord(s, at, n);
    if s[at..at + n] == Bytes(v, n) {
      WordOfBytes(s, at, n, v);
    }
  }

  /** The rest of an entry, behind its numbers. */
  function ParseBody(pak: seq<Byte>, at: nat, f: Fixed): (p: Parsed)
    requires at <= |pak|
    ensures p.Good? ==> at < p.next <= |pak|
  {
    if f.length == 0 || f.length >= 512 || |pak| - at < f.length || pak[at] != SLASH then Bad
    else
      var path, end := pak[at..at + f.length], at + f.length;
      if f.kind == ENTRY_DIR then Good(Dir(path, f.mode, f.size), end)
      else if f.kind == ENTRY_FILE && f.size <= |pak| - end then Good(File(path, f.mode, pak[end..end + f.size]), end + f.size)
      else Bad
  }

  /** The entry at `off`, and where the next one starts. */
  function ParseEntry(pak: seq<Byte>, off: nat): (p: Parsed)
    requires off <= |pak|
    ensures p.Good? ==> off + ENTRY_SIZE < p.next <= |pak|
  {
    if |pak| - off < ENTRY_SIZE then Bad else ParseBody(pak, off + ENTRY_SIZE, FixedAt(pak, off))
  }

  lemma BodyIsSerialized(pak: seq<Byte>, at: nat, f: Fixed)
    requires at <= |pak| && FixedOk(f) && ParseBody(pak, at, f).Good?
    ensures var p := ParseBody(pak, at, f);
            EntryOk(p.entry) && FixedOf(p.entry) == f && pak[at..p.next] == p.entry.path + DataOf(p.entry)
  {
    var end := at + f.length;
    assert pak[at..end][0] == pak[at];
  }

  /** What parses is the serialization of the entry. */
  lemma ParsedIsSerialized(pak: seq<Byte>, off: nat)
    requires off <= |pak| && ParseEntry(pak, off).Good?
    ensures var p := ParseEntry(pak, off); EntryOk(p.entry) && pak[off..p.next] == Serialized(p.entry)
  {
    var f := FixedAt(pak, off);
    FixedRead(pak, off, f);
    FixedAndBody(pak, off, f);
  }

  lemma FixedAndBody(pak: seq<Byte>, off: nat, f: Fixed)
    requires off + ENTRY_SIZE <= |pak| && FixedOk(f) && pak[off..off + ENTRY_SIZE] == FixedBytes(f)
    requires ParseBody(pak, off + ENTRY_SIZE, f).Good?
    ensures var p := ParseBody(pak, off + ENTRY_SIZE, f); EntryOk(p.entry) && pak[off..p.next] == Serialized(p.entry)
  {
    var at := off + ENTRY_SIZE;
    BodyIsSerialized(pak, at, f);
    var p := ParseBody(pak, at, f);
    assert pak[off..p.next] == pak[off..at] + pak[at..p.next];
    Appended(FixedBytes(f), p.entry.path, DataOf(p.entry));
  }

  lemma Appended(a: seq<Byte>, b: seq<Byte>, c: seq<Byte>)
    ensures a + (b + c) == a + b + c
  {
  }

  lemma BodyParses(pak: seq<Byte>, at: nat, e: Entry)
    requires EntryOk(e) && at + |e.path| + |DataOf(e)| <= |pak|
    requires pak[at..at + |e.path|] == e.path
    requires pak[at + |e.path|..at + |e.path| + |DataOf(e)|] == DataOf(e)
    ensures ParseBody(pak, at, FixedOf(e)) == Good(e, at + |e.path| + |DataOf(e)|)
  {
    assert pak[at] == pak[at..at + |e.path|][0];
  }

  /** The serialization of an entry parses as the entry. */
  lemma SerializedParses(pak: seq<Byte>, off: nat, e: Entry)
    requires EntryOk(e) && off + |Serialized(e)| <= |pak| && pak[off..off + |Serialized(e)|] == Serialized(e)
    ensures ParseEntry(pak, off) == Good(e, off + |Serialized(e)|)
  {
    SlicesOf(pak, off, e);
    Limits();
    FixedSpelled(pak, off, FixedOf(e));
    BodyParses(pak, off + ENTRY_SIZE, e);
  }

  lemma SlicesOf(pak: seq<Byte>, off: nat, e: Entry)
    requires off + |Serialized(e)| <= |pak| && pak[off..off + |Serialized(e)|] == Serialized(e)
    ensures var at := off + ENTRY_SIZE; var end := at + |e.path|;
            pak[off..at] == FixedBytes(FixedOf(e)) && pak[at..end] == e.path && pak[end..end + |DataOf(e)|] == DataOf(e)
  {
    var s, n := Serialized(e), ENTRY_SIZE + |e.path|;
    PartsOf(e);
    SliceOfSlice(pak, off, off + |s|, 0, ENTRY_SIZE);
    SliceOfSlice(pak, off, off + |s|, ENTRY_SIZE, n);
    SliceOfSlice(pak, off, off + |s|, n, |s|);
  }

  lemma PartsOf(e: Entry)
    ensures var s, n := Serialized(e), ENTRY_SIZE + |e.path|;
            s[0..ENTRY_SIZE] == FixedBytes(FixedOf(e)) && s[ENTRY_SIZE..n] == e.path && s[n..|s|] == DataOf(e)
  {
  }

  // ----- unpacking -----

  /** What is asked of the file system. */
  datatype Op = Mkdir(path: seq<Byte>) | Write(path: seq<Byte>, data: seq<Byte>)

  /** The path as a C string: up to a terminator among its bytes. */
  function CPath(path: seq<Byte>): seq<Byte> {
    if path == [] || path[0] == 0 then [] else [path[0]] + CPath(path[1..])
  }

  /** The directories above the path, from the `i`-th character on. */
  function Parents(path: seq<Byte>, i: nat): seq<Op>
    decreases |path| - i
  {
    if i >= |path| then [] else (if path[i] == SLASH then [Mkdir(path[..i])] else []) + Parents(path, i + 1)
  }

  function EntryOps(e: Entry): seq<Op> {
    var path := CPath(e.path);
    if e.Dir? then [Mkdir(path)] else Parents(path, 1) + [Op.Write(path, e.data)]
  }

  predicate AllEntriesOk(entries: seq<Entry>) {
    forall i | 0 <= i < |entries| :: EntryOk(entries[i])
  }

  function AllOps(entries: seq<Entry>): seq<Op> {
    if entries == [] then [] else EntryOps(entries[0]) + AllOps(entries[1..])
  }

  /** What is asked for, and the result. */
  datatype Report = Report(ops: seq<Op>, result: int)

  /** Unpacking `left` entries from `off` on with a parser of single entries; `status` is the
      result of each file's write, negative for an error. */
  function Unpacked(parse: nat -> Parsed, off: nat, left: nat, status: nat -> int, writes: nat): Report
    decreases left
  {
    if left == 0 then Report([], EOK)
    else
      match parse(off)
      case Bad => Report([], -EINVAL)
      case Good(e, next) =>
        if e.File? && status(writes) < 0 then Report(EntryOps(e), status(writes))
        else
          var rest := Unpacked(parse, next, left - 1, status, if e.File? then writes + 1 else writes);
          Report(EntryOps(e) + rest.ops, rest.result)
  }

  function ParserOf(pak: seq<Byte>): nat -> Parsed {
    (off: nat) => if off <= |pak| then ParseEntry(pak, off) else Bad
  }

  function Result(pak: seq<Byte>, status: nat -> int): Report {
    if |pak| < HEADER_SIZE || pak[..8] != MAGIC then Report([], -EINVAL)
    else Unpacked(ParserOf(pak), HEADER_SIZE, Word(pak, 8, 8), status, 0)
  }

  /** `parse` reads the entries of `pak`, as a function value. */
  ghost predicate StandsForParser(parse: nat -> Parsed, pak: seq<Byte>) {
    forall off: nat {:trigger ParseEntry(pak, off)} | off <= |pak| :: parse(off) == ParseEntry(pak, off)
  }

  lemma EntryRead(parse: nat -> Parsed, pak: seq<Byte>, off: nat, e: Entry, rest: seq<Byte>)
    requires StandsForParser(parse, pak) && off <= |pak| && EntryOk(e) && Serialized(e) + rest <= pak[off..]
    ensures off + |Serialized(e)| <= |pak| && parse(off) == Good(e, off + |Serialized(e)|)
    ensures rest <= pak[off + |Serialized(e)|..]
  {
    FirstPart(pak, off, Serialized(e), rest);
    SerializedParses(pak, off, e);
    assert parse(off) == ParseEntry(pak, off);
  }

  lemma FirstPart(pak: seq<Byte>, off: nat, a: seq<Byte>, b: seq<Byte>)
    requires off <= |pak| && a + b <= pak[off..]
    ensures off + |a| <= |pak| && pak[off..off + |a|] == a && b <= pak[off + |a|..]
  {
    assert pak[off..off + |a|] == pak[off..][..|a|] == a;
    assert pak[off + |a|..][..|b|] == pak[off..][|a|..|a| + |b|] == b;
  }

  /** Unpacking the serialization of entries asks for exactly what the entries say, in order. */
  lemma {:induction false} SerializedUnpacks(parse: nat -> Parsed, pak: seq<Byte>, off: nat, entries: seq<Entry>,
                                             status: nat -> int, writes: nat)
    requires StandsForParser(parse, pak)
    requires off <= |pak| && AllEntriesOk(entries) && SerializedAll(entries) <= pak[off..]
    requires forall k :: status(k) >= 0
    ensures Unpacked(parse, off, |entries|, status, writes) == Report(AllOps(entries), EOK)
    decreases |entries|
  {
    if entries != [] {
      var e, w := entries[0], if entries[0].File? then writes + 1 else writes;
      var next := off + |Serialized(e)|;
      EntryRead(parse, pak, off, e, SerializedAll(entries[1..]));
      SerializedUnpacks(parse, pak, next, entries[1..], status, w);
      EntryUnpacks(parse, off, |entries|, status, writes, e, next);
    }
  }

  lemma EntryUnpacks(parse: nat -> Parsed, off: nat, left: nat, status: nat -> int, writes: nat, e: Entry, next: nat)
    requires left > 0 && parse(off) == Good(e, next) && (e.File? ==> status(writes) >= 0)
    ensures var rest := Unpacked(parse, next, left - 1, status, if e.File? then writes + 1 else writes);
            Unpacked(parse, off, left, status, writes) == Report(EntryOps(e) + rest.ops, rest.result)
  {
  }

  lemma ParserStands(pak: seq<Byte>)
    ensures StandsForParser(ParserOf(pak), pak)
  {
  }

  lemma ArchiveUnpacks(entries: seq<Entry>, status: nat -> int)
    requires AllEntriesOk(entries) && |entries| < U64 && forall k :: status(k) >= 0
    ensures Result(Archive(entries), status) == Report(AllOps(entries), EOK)
  {
    var pak := Archive(entries);
    ArchiveHeader(entries);
    ParserStands(pak);
    SerializedUnpacks(ParserOf(pak), pak, HEADER_SIZE, entries, status, 0);
  }

  lemma ArchiveHeader(entries: seq<Entry>)
    requires |entries| < U64
    ensures var pak := Archive(entries);
            |pak| >= HEADER_SIZE && pak[..8] == MAGIC && Word(pak, 8, 8) == |entries| &&
            pak[HEADER_SIZE..] == SerializedAll(entries)
  {
    var pak := Archive(entries);
    assert pak[8..16] == Bytes(|entries|, 8);
    Limits();
    FieldSpelled(pak, 8, 8, |entries|);
  }

  lemma CutAt(s: seq<Byte>, a: nat, b: nat)
    requires a <= b <= |s|
    ensures s[a..] == s[a..b] + s[b..]
  {
  }

  /** The files among the entries. */
  function Files(entries: seq<Entry>): nat {
    if entries == [] then 0 else (if entries[0].File? then 1 else 0) + Files(entries[1..])
  }

  /** `ops` gives the operations of an entry, and `rest` is `Unpacked`, as function values. */
  ghost predicate StandsForOps(ops: Entry -> seq<Op>) {
    forall e: Entry {:trigger EntryOps(e)} :: ops(e) == EntryOps(e)
  }

  lemma FailsHere(rest: (nat, nat, nat) -> Report, ops: Entry -> seq<Op>, parse: nat -> Parsed, off: nat, left: nat,
                  status: nat -> int, writes: nat)
    requires StandsForUnpacked(rest, parse, status) && StandsForOps(ops)
    requires left > 0 && parse(off).Good? && parse(off).entry.File? && status(writes) < 0
    ensures rest(off, left, writes) == Report(ops(parse(off).entry) + [], status(writes))
  {
    var e := parse(off).entry;
    UnpackedStep(rest, parse, off, left, status, writes);
    assert ops(e) == EntryOps(e);
    assert EntryOps(e) + [] == EntryOps(e);
  }

  lemma FailsLater(rest: (nat, nat, nat) -> Report, ops: Entry -> seq<Op>, parse: nat -> Parsed, off: nat, left: nat,
                   status: nat -> int, writes: nat, tail: seq<Op>, result: int)
    requires StandsForUnpacked(rest, parse, status) && StandsForOps(ops)
    requires left > 0 && parse(off).Good? && (parse(off).entry.File? ==> status(writes) >= 0)
    requires rest(parse(off).next, left - 1, if parse(off).entry.File? then writes + 1 else writes) == Report(tail, result)
    ensures rest(off, left, writes) == Report(ops(parse(off).entry) + tail, result)
  {
    UnpackedStep(rest, parse, off, left, status, writes);
    assert ops(parse(off).entry) == EntryOps(parse(off).entry);
  }

  /** File `i` is the first one whose write, number `w`, fails. */
  predicate FailsAt(entries: seq<Entry>, i: nat, status: nat -> int, writes: nat, w: nat) {
    i < |entries| && entries[i].File? && w == writes + Files(entries[..i]) && status(w) < 0 &&
    forall k: nat | k < w :: status(k) >= 0
  }

  lemma FailsInTail(entries: seq<Entry>, i: nat, status: nat -> int, writes: nat, w: nat)
    requires FailsAt(entries, i, status, writes, w)
    ensures i == 0 ==> w == writes && entries[0].File?
    ensures i > 0 ==> FailsAt(entries[1..], i - 1, status, if entries[0].File? then writes + 1 else writes, w)
    ensures i > 0 && entries[0].File? ==> status(writes) >= 0
  {
    OpsFrom(entries, i);
  }

  /** The parser finds the entries, one behind the other. */
  ghost predicate Finds(parse: nat -> Parsed, off: nat, entries: seq<Entry>)
    decreases |entries|
  {
    entries != [] ==> parse(off).Good? && parse(off).entry == entries[0] && Finds(parse, parse(off).next, entries[1..])
  }

  lemma {:induction false} SerializedFound(parse: nat -> Parsed, pak: seq<Byte>, off: nat, entries: seq<Entry>)
    requires StandsForParser(parse, pak) && off <= |pak| && AllEntriesOk(entries) && SerializedAll(entries) <= pak[off..]
    ensures Finds(parse, off, entries)
    decreases |entries|
  {
    if entries != [] {
      EntryRead(parse, pak, off, entries[0], SerializedAll(entries[1..]));
      SerializedFound(parse, pak, off + |Serialized(entries[0])|, entries[1..]);
    }
  }

  /** The operations of the entries up to number `i`. */
  function OpsUpTo(ops: Entry -> seq<Op>, entries: seq<Entry>, i: nat): seq<Op>
    requires i < |entries|
    decreases i
  {
    ops(entries[0]) + if i == 0 then [] else OpsUpTo(ops, entries[1..], i - 1)
  }

  lemma {:induction false} OpsUpToIs(ops: Entry -> seq<Op>, entries: seq<Entry>, i: nat)
    requires i < |entries| && StandsForOps(ops)
    ensures OpsUpTo(ops, entries, i) == AllOps(entries[..i + 1])
    decreases i
  {
    OpsFrom(entries, i);
    assert ops(entries[0]) == EntryOps(entries[0]);
    if i > 0 {
      OpsUpToIs(ops, entries[1..], i - 1);
    }
  }

  /** A file whose write fails ends the unpacking with that write's status, and nothing behind it is asked for. */
  lemma {:induction false} FailedWriteStops(rest: (nat, nat, nat) -> Report, ops: Entry -> seq<Op>, parse: nat -> Parsed,
                                            off: nat, entries: seq<Entry>, i: nat, left: nat,
                                            status: nat -> int, writes: nat, w: nat)
    requires StandsForUnpacked(rest, parse, status) && StandsForOps(ops)
    requires Finds(parse, off, entries) && FailsAt(entries, i, status, writes, w) && |entries| <= left
    ensures rest(off, left, writes) == Report(OpsUpTo(ops, entries, i), status(w))
    decreases i
  {
    var next, more := parse(off).next, if entries[0].File? then writes + 1 else writes;
    FailsInTail(entries, i, status, writes, w);
    if i == 0 {
      FailsHere(rest, ops, parse, off, left, status, writes);
    } else {
      FailedWriteStops(rest, ops, parse, next, entries[1..], i - 1, left - 1, status, more, w);
      FailsLater(rest, ops, parse, off, left, status, writes, OpsUpTo(ops, entries[1..], i - 1), status(w));
    }
  }

  lemma OpsFrom(entries: seq<Entry>, i: nat)
    requires i < |entries|
    ensures AllOps(entries[..i + 1]) == EntryOps(entries[0]) + if i == 0 then [] else AllOps(entries[1..][..i])
    ensures i > 0 ==> Files(entries[..i]) == (if entries[0].File? then 1 else 0) + Files(entries[1..][..i - 1])
  {
    assert entries[..i + 1][1..] == entries[1..][..i];
    if i > 0 {
      assert entries[..i][1..] == entries[1..][..i - 1];
    }
  }

  /** Unpacking a whole archive whose `i`-th entry is the first file that cannot be written. */
  lemma ArchiveStops(entries: seq<Entry>, i: nat, status: nat -> int, w: nat)
    requires AllEntriesOk(entries) && |entries| < U64 && FailsAt(entries, i, status, 0, w)
    ensures Result(Archive(entries), status) == Report(AllOps(entries[..i + 1]), status(w))
  {
    var pak := Archive(entries);
    ArchiveHeader(entries);
    ParserStands(pak);
    SerializedFound(ParserOf(pak), pak, HEADER_SIZE, entries);
    var rest := (off: nat, left: nat, writes: nat) => Unpacked(ParserOf(pak), off, left, status, writes);
    var ops := (e: Entry) => EntryOps(e);
    FailedWriteStops(rest, ops, ParserOf(pak), HEADER_SIZE, entries, i, |entries|, status, 0, w);
    OpsUpToIs(ops, entries, i);
    assert rest(HEADER_SIZE, |entries|, 0) == Unpacked(ParserOf(pak), HEADER_SIZE, |entries|, status, 0);
  }

  /** The result is success, -22, or the negative status of a write. */
  lemma {:induction false} ResultsAre(parse: nat -> Parsed, off: nat, left: nat, status: nat -> int, writes: nat)
    ensures var r := Unpacked(parse, off, left, status, writes).result;
            r == 0 || r == -22 || exists k: nat :: status(k) == r < 0
    decreases left
  {
    if left > 0 && parse(off).Good? {
      var p := parse(off);
      if p.entry.File? && status(writes) < 0 {
        assert status(writes) == Unpacked(parse, off, left, status, writes).result;
      } else {
        ResultsAre(parse, p.next, left - 1, status, if p.entry.File? then writes + 1 else writes);
      }
    }
  }

  lemma EntryFound(parse: nat -> Parsed, pak: seq<Byte>, off: nat, e: Entry, next: nat)
    requires StandsForParser(parse, pak) && off <= |pak| && parse(off) == Good(e, next)
    ensures EntryOk(e) && off < next <= |pak| && pak[off..] == Serialized(e) + pak[next..]
  {
    assert parse(off) == ParseEntry(pak, off);
    ParsedIsSerialized(pak, off);
    CutAt(pak, off, next);
  }

  /** Whatever the result, what was asked for are the operations of entries that stand
      there serialized, all of them if it is success. */
  lemma {:induction false} UnpackedIsSerialized(parse: nat -> Parsed, pak: seq<Byte>, off: nat, left: nat,
                                                status: nat -> int, writes: nat) returns (entries: seq<Entry>)
    requires StandsForParser(parse, pak) && off <= |pak|
    ensures |entries| <= left && AllEntriesOk(entries) && SerializedAll(entries) <= pak[off..]
    ensures Unpacked(parse, off, left, status, writes).ops == AllOps(entries)
    ensures Unpacked(parse, off, left, status, writes).result == EOK ==> |entries| == left
    decreases left
  {
    entries := [];
    if left > 0 && parse(off).Good? {
      var p := parse(off);
      EntryFound(parse, pak, off, p.entry, p.next);
      if !(p.entry.File? && status(writes) < 0) {
        entries := UnpackedIsSerialized(parse, pak, p.next, left - 1, status, if p.entry.File? then writes + 1 else writes);
        EntryUnpacks(parse, off, left, status, writes, p.entry, p.next);
      }
      OneMore(p.entry, entries, pak[p.next..]);
      entries := [p.entry] + entries;
    }
  }

  lemma OneMore(e: Entry, rest: seq<Entry>, tail: seq<Byte>)
    requires SerializedAll(rest) <= tail
    ensures SerializedAll([e] + rest) <= Serialized(e) + tail
    ensures AllOps([e] + rest) == EntryOps(e) + AllOps(rest)
    ensures EntryOk(e) && AllEntriesOk(rest) ==> AllEntriesOk([e] + rest)
  {
    assert ([e] + rest)[1..] == rest;
  }

  /** On any bytes that begin with the magic number, what was asked for are the operations of
      entries that follow the header serialized, up to the first failure. */
  lemma PerformedIsSerialized(pak: seq<Byte>, status: nat -> int) returns (entries: seq<Entry>)
    requires |pak| >= HEADER_SIZE && pak[..8] == MAGIC
    ensures AllEntriesOk(entries) && SerializedAll(entries) <= pak[HEADER_SIZE..]
    ensures Result(pak, status).ops == AllOps(entries)
    ensures Result(pak, status).result == EOK ==> |entries| == Word(pak, 8, 8)
  {
    ParserStands(pak);
    entries := UnpackedIsSerialized(ParserOf(pak), pak, HEADER_SIZE, Word(pak, 8, 8), status, 0);
  }

  /** On any bytes, success means that they begin with an archive, and that exactly its
      operations were asked for. */
  lemma SuccessIsArchive(pak: seq<Byte>, status: nat -> int) returns (entries: seq<Entry>)
    requires Result(pak, status).result == EOK
    ensures AllEntriesOk(entries) && Archive(entries) <= pak && Result(pak, status).ops == AllOps(entries)
  {
    entries := PerformedIsSerialized(pak, status);
    BytesOfWord(pak, 8, 8);
    Header(pak, SerializedAll(entries));
  }

  lemma Header(pak: seq<Byte>, body: seq<Byte>)
    requires |pak| >= HEADER_SIZE && body <= pak[HEADER_SIZE..]
    ensures pak[..8] + pak[8..16] + body <= pak
  {
    assert pak == pak[..8] + pak[8..16] + pak[16..];
  }

  // ----- directories above a file -----

  /** Directory `d` is above the path: it ends where a slash follows. */
  predicate IsAbove(d: seq<Byte>, path: seq<Byte>) {
    0 < |d| < |path| && path[..|d|] == d && path[|d|] == 47
  }

  /** What is made for a path are the directories above it, the shorter ones first. */
  lemma {:induction false} ParentsAbove(path: seq<Byte>, i: nat)
    requires 0 < i
    ensures forall k | 0 <= k < |Parents(path, i)| ::
              Parents(path, i)[k].Mkdir? && IsAbove(Parents(path, i)[k].path, path) && |Parents(path, i)[k].path| >= i
    ensures forall j, k | 0 <= j < k < |Parents(path, i)| :: |Parents(path, i)[j].path| < |Parents(path, i)[k].path|
    decreases |path| - i
  {
    if i < |path| {
      ParentsAbove(path, i + 1);
    }
  }

  /** Each of them is made. */
  lemma {:induction false} ParentMade(path: seq<Byte>, i: nat, d: seq<Byte>) returns (m: nat)
    requires IsAbove(d, path) && 0 < i <= |d|
    ensures m < |Parents(path, i)| && Parents(path, i)[m] == Mkdir(d)
    decreases |path| - i
  {
    if i == |d| {
      m := 0;
    } else {
      m := ParentMade(path, i + 1, d);
      if path[i] == SLASH {
        m := m + 1;
      }
    }
  }

  /** The C string of a path is what stands before its first terminator. */
  lemma {:induction false} CPathIs(path: seq<Byte>)
    ensures CPath(path) <= path && 0 !in CPath(path)
    ensures |CPath(path)| < |path| ==> path[|CPath(path)|] == 0
  {
    if path != [] && path[0] != 0 {
      CPathIs(path[1..]);
      assert path == [path[0]] + path[1..];
    }
  }

  /** A file is written behind the directories above it. */
  lemma ParentOfEntry(e: Entry, n: nat, d: seq<Byte>) returns (m: nat)
    requires EntryOk(e) && n < |EntryOps(e)| && EntryOps(e)[n].Write? && IsAbove(d, EntryOps(e)[n].path)
    ensures m < n && EntryOps(e)[m] == Mkdir(d)
  {
    var path := CPath(e.path);
    ParentsAbove(path, 1);
    m := ParentMade(path, 1, d);
  }

  /** In everything that is asked for, a file is written only after each directory above it was made. */
  lemma {:induction false} ParentsFirst(entries: seq<Entry>, n: nat, d: seq<Byte>) returns (m: nat)
    requires AllEntriesOk(entries) && n < |AllOps(entries)| && AllOps(entries)[n].Write?
    requires IsAbove(d, AllOps(entries)[n].path)
    ensures m < n && AllOps(entries)[m] == Mkdir(d)
  {
    var ops := EntryOps(entries[0]);
    if n < |ops| {
      m := ParentOfEntry(entries[0], n, d);
    } else {
      assert AllOps(entries) == ops + AllOps(entries[1..]);
      m := ParentsFirst(entries[1..], n - |ops|, d);
      m := m + |ops|;
    }
  }

  // ----- the routine -----

  class Unpacker {
    /** The operations so far, and the files written. */
    var log: seq<Op>
    var writes: nat
    const status: nat -> int

    constructor (status: nat -> int)
      ensures log == [] && writes == 0 && this.status == status
    {
      log, writes := [], 0;
      this.status := status;
    }

    method MakeParents(path: seq<Byte>)
      requires path != []
      modifies this`log
      ensures log == old(log) + Parents(path, 1)
    {
      var i := 1;
      while i < |path|
        invariant 1 <= i <= |path| && old(log) + Parents(path, 1) == log + Parents(path, i)
      {
        if path[i] == SLASH {
          log := log + [Mkdir(path[..i])];
        }
        i := i + 1;
      }
    }

    method WriteFile(path: seq<Byte>, data: seq<Byte>) returns (result: int)
      requires path != []
      modifies this
      ensures log == old(log) + Parents(path, 1) + [Op.Write(path, data)]
      ensures result == status(old(writes)) && writes == old(writes) + 1
    {
      MakeParents(path);
      log := log + [Op.Write(path, data)];
      result := status(writes);
      writes := writes + 1;
    }

    /** Performs one entry's operations. */
    method Perform(e: Entry) returns (result: int)
      requires EntryOk(e)
      modifies this
      ensures log == old(log) + EntryOps(e)
      ensures result == (if e.File? then status(old(writes)) else EOK)
      ensures writes == if e.File? then old(writes) + 1 else old(writes)
    {
      var path := CPath(e.path);
      if e.Dir? {
        log := log + [Mkdir(path)];
        return EOK;
      }
      result := WriteFile(path, e.data);
      assert log == old(log) + (Parents(path, 1) + [Op.Write(path, e.data)]);
    }

    /** Unpacks entry by entry; what was asked for before a failure stays asked for. */
    method UnpackPak(pak: seq<Byte>) returns (result: int)
      requires |pak| < U64 && writes == 0
      modifies this
      ensures log == old(log) + Result(pak, status).ops && result == Result(pak, status).result
    {
      if |pak| < HEADER_SIZE || pak[..8] != MAGIC {
        return -EINVAL;
      }
      ParserStands(pak);
      result := UnpackEntries(pak, Word(pak, 8, 8), ParserOf(pak));
    }

    method NextEntry(pak: seq<Byte>, off: nat, ghost parse: nat -> Parsed) returns (p: Parsed)
      requires off <= |pak| && StandsForParser(parse, pak)
      ensures p == parse(off) && (p.Good? ==> EntryOk(p.entry) && off < p.next <= |pak|)
    {
      p := ParseEntry(pak, off);
      assert parse(off) == p;
      if p.Good? {
        ParsedIsSerialized(pak, off);
      }
    }

    method UnpackEntries(pak: seq<Byte>, count: nat, ghost parse: nat -> Parsed) returns (result: int)
      requires |pak| >= HEADER_SIZE && StandsForParser(parse, pak) && writes == 0
      modifies this
      ensures var all := Unpacked(parse, HEADER_SIZE, count, status, 0);
              log == old(log) + all.ops && result == all.result
    {
      var off: nat, i: nat := HEADER_SIZE, 0;
      ghost var rest := (off: nat, left: nat, writes: nat) => Unpacked(parse, off, left, status, writes);
      ghost var was, all := log, rest(HEADER_SIZE, count, 0);
      while i < count
        invariant off <= |pak| && i <= count
        invariant IsBehind(was, log, rest(off, count - i, writes), all)
      {
        var p := NextEntry(pak, off, parse);
        UnpackedStep(rest, parse, off, count - i, status, writes);
        if p.Bad? {
          return -EINVAL;
        }
        ghost var before, first := log, writes;
        result := Perform(p.entry);
        if result < 0 {
          return;
        }
        Further(was, before, EntryOps(p.entry), rest(p.next, count - i - 1, writes), all);
        off, i := p.next, i + 1;
      }
      UnpackedStep(rest, parse, off, count - i, status, writes);
      result := EOK;
    }
  }

  /** `rest` is `Unpacked`, as a function value. */
  ghost predicate StandsForUnpacked(rest: (nat, nat, nat) -> Report, parse: nat -> Parsed, status: nat -> int) {
    forall off: nat, left: nat, writes: nat {:trigger Unpacked(parse, off, left, status, writes)} ::
      rest(off, left, writes) == Unpacked(parse, off, left, status, writes)
  }

  lemma UnpackedStep(rest: (nat, nat, nat) -> Report, parse: nat -> Parsed, off: nat, left: nat, status: nat -> int,
                     writes: nat)
    requires StandsForUnpacked(rest, parse, status)
    ensures rest(off, left, writes) ==
      if left == 0 then Report([], EOK)
      else if parse(off).Bad? then Report([], -EINVAL)
      else
        var e := parse(off).entry;
        if e.File? && status(writes) < 0 then Report(EntryOps(e), status(writes))
        else
          var more := rest(parse(off).next, left - 1, if e.File? then writes + 1 else writes);
          Report(EntryOps(e) + more.ops, more.result)
  {
    assert rest(off, left, writes) == Unpacked(parse, off, left, status, writes);
    if left > 0 && parse(off).Good? {
      var p, w := parse(off), if parse(off).entry.File? then writes + 1 else writes;
      assert rest(p.next, left - 1, w) == Unpacked(parse, p.next, left - 1, status, w);
    }
  }

  /** What was asked for, followed by what is still to come, is everything, with its result. */
  ghost predicate IsBehind(was: seq<Op>, log: seq<Op>, rest: Report, all: Report) {
    log + rest.ops == was + all.ops && rest.result == all.result
  }

  lemma Further(was: seq<Op>, log: seq<Op>, ops: seq<Op>, rest: Report, all: Report)
    requires IsBehind(was, log, Report(ops + rest.ops, rest.result), all)
    ensures IsBehind(was, log + ops, rest, all)
  {
    assert log + (ops + rest.ops) == (log + ops) + rest.ops;
  }
}
