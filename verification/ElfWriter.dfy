/** A file for any list of program headers, and with it a file that shows what
    the rounding of segment ends lets through. */
module ElfWriter {
  import opened Machine
  import opened Elf
  import Patches
  import opened Placement

  /** Bytes that hold the digits of `v` read back as `v`. */
  lemma {:induction false} WordOfDigits(file: seq<Byte>, at: nat, n: nat, v: nat)
    requires at + n <= |file| && v < Patches.Limit(n)
    requires forall k | 0 <= k < n :: file[at + k] == Patches.ByteOf(v, k)
    ensures Word(file, at, n) == v
    decreases n
  {
    if n > 0 {
      assert file[at + 0] == Patches.ByteOf(v, 0);
      forall k | 0 <= k < n - 1
        ensures file[at + 1 + k] == Patches.ByteOf(v / 256, k)
      {
        assert file[at + (k + 1)] == Patches.ByteOf(v, k + 1);
      }
      WordOfDigits(file, at + 1, n - 1, v / 256);
    }
  }

  function HeadByte(i: nat, count: nat): Byte {
    if i == 0 then 0x7f else if i == 1 then 0x45 else if i == 2 then 0x4c else if i == 3 then 0x46
    else if i == 16 then ET_DYN else if i == 18 then EM_X86_64 else if i == 20 then EV_CURRENT
    else if i == 32 then EHDR_SIZE else if i == 52 then EHDR_SIZE else if i == 54 then PHDR_SIZE
    else if i == 56 then count % 256 else if i == 57 then count / 256 % 256 else 0
  }

  /** Byte `k` of a program header. */
  function SegmentByte(s: Segment, k: nat): Byte {
    if k < 4 then Patches.ByteOf(s.kind, k)
    else if 8 <= k < 16 then Patches.ByteOf(s.offset, k - 8)
    else if 16 <= k < 24 then Patches.ByteOf(s.vaddr, k - 16)
    else if 32 <= k < 40 then Patches.ByteOf(s.filesz, k - 32)
    else if 40 <= k < 48 then Patches.ByteOf(s.memsz, k - 40)
    else 0
  }

  function Row(k: nat): nat { k / PHDR_SIZE }

  function Column(k: nat): nat { k % PHDR_SIZE }

  /** The header, the program headers, and any bytes behind them. */
  function FileOf(segs: seq<Segment>, body: seq<Byte>): (file: seq<Byte>)
    ensures |file| == EHDR_SIZE + |segs| * PHDR_SIZE + |body|
  {
    seq(EHDR_SIZE + |segs| * PHDR_SIZE + |body|,
        i requires 0 <= i < EHDR_SIZE + |segs| * PHDR_SIZE + |body| => FileByte(segs, body, i))
  }

  function FileByte(segs: seq<Segment>, body: seq<Byte>, i: nat): Byte
    requires i < EHDR_SIZE + |segs| * PHDR_SIZE + |body|
  {
    if i < EHDR_SIZE then HeadByte(i, |segs|)
    else if i < EHDR_SIZE + |segs| * PHDR_SIZE then SegmentByte(segs[Row(i - EHDR_SIZE)], Column(i - EHDR_SIZE))
    else body[i - EHDR_SIZE - |segs| * PHDR_SIZE]
  }

  predicate Writable(segs: seq<Segment>) {
    0 < |segs| < 0x1_0000 && forall i | 0 <= i < |segs| :: segs[i].kind < 0x1_0000_0000
  }

  lemma HeadWritten(segs: seq<Segment>, body: seq<Byte>)
    requires Writable(segs) && |FileOf(segs, body)| < U64
    ensures TableOk(FileOf(segs, body)) && Word16(FileOf(segs, body), 56) == |segs| && Word64At(FileOf(segs, body), 32) == EHDR_SIZE
  {
    var file := FileOf(segs, body);
    assert Word64At(file, 32) == EHDR_SIZE by {
      forall k | 0 <= k < 8
        ensures file[32 + k] == Patches.ByteOf(EHDR_SIZE, k)
      {
        SmallDigits(EHDR_SIZE, k);
      }
      Patches.Limits();
      WordOfDigits(file, 32, 8, EHDR_SIZE);
    }
    assert Word(file, 20, 4) == EV_CURRENT by {
      forall k | 0 <= k < 4
        ensures file[20 + k] == Patches.ByteOf(EV_CURRENT, k)
      {
        SmallDigits(EV_CURRENT, k);
      }
      Patches.Limits();
      WordOfDigits(file, 20, 4, EV_CURRENT);
    }
  }

  lemma {:induction false} SmallDigits(v: Byte, k: nat)
    ensures Patches.ByteOf(v, k) == if k == 0 then v else 0
  {
    if k > 0 {
      SmallDigits(0, k - 1);
    }
  }

  lemma CellAt(segs: seq<Segment>, body: seq<Byte>, j: nat, k: nat)
    requires j < |segs| && k < PHDR_SIZE
    ensures FileOf(segs, body)[EHDR_SIZE + j * PHDR_SIZE + k] == SegmentByte(segs[j], k)
  {
    assert Row(j * PHDR_SIZE + k) == j && Column(j * PHDR_SIZE + k) == k;
  }

  /** The fields of a program header the linker reads: place, width, value. */
  function FieldAt(f: nat): nat {
    if f == 0 then 0 else if f == 1 then 8 else if f == 2 then 16 else if f == 3 then 32 else 40
  }

  function FieldSize(f: nat): nat {
    if f == 0 then 4 else 8
  }

  function FieldOf(s: Segment, f: nat): nat {
    if f == 0 then s.kind else if f == 1 then s.offset else if f == 2 then s.vaddr else if f == 3 then s.filesz else s.memsz
  }

  lemma FieldByte(s: Segment, f: nat, k: nat)
    requires f < 5 && k < FieldSize(f)
    ensures SegmentByte(s, FieldAt(f) + k) == Patches.ByteOf(FieldOf(s, f), k)
  {
  }

  lemma FieldWritten(segs: seq<Segment>, body: seq<Byte>, j: nat, f: nat)
    requires Writable(segs) && j < |segs| && f < 5
    ensures Word(FileOf(segs, body), EHDR_SIZE + j * PHDR_SIZE + FieldAt(f), FieldSize(f)) == FieldOf(segs[j], f)
  {
    var file, start := FileOf(segs, body), EHDR_SIZE + j * PHDR_SIZE + FieldAt(f);
    forall k | 0 <= k < FieldSize(f)
      ensures file[start + k] == Patches.ByteOf(FieldOf(segs[j], f), k)
    {
      CellAt(segs, body, j, FieldAt(f) + k);
      FieldByte(segs[j], f, k);
    }
    Patches.Limits();
    WordOfDigits(file, start, FieldSize(f), FieldOf(segs[j], f));
  }

  lemma Assemble(file: seq<Byte>, at: nat, s: Segment)
    requires at + PHDR_SIZE <= |file|
    requires forall f | 0 <= f < 5 :: Word(file, at + FieldAt(f), FieldSize(f)) == FieldOf(s, f)
    ensures SegmentAt(file, at) == s
  {
    assert Word(file, at + FieldAt(0), FieldSize(0)) == s.kind;
    assert Word(file, at + FieldAt(1), FieldSize(1)) == s.offset;
    assert Word(file, at + FieldAt(2), FieldSize(2)) == s.vaddr;
    assert Word(file, at + FieldAt(3), FieldSize(3)) == s.filesz;
    assert Word(file, at + FieldAt(4), FieldSize(4)) == s.memsz;
  }

  lemma SegmentWritten(segs: seq<Segment>, body: seq<Byte>, j: nat)
    requires Writable(segs) && j < |segs|
    ensures SegmentAt(FileOf(segs, body), EHDR_SIZE + j * PHDR_SIZE) == segs[j]
  {
    var file, at := FileOf(segs, body), EHDR_SIZE + j * PHDR_SIZE;
    forall f | 0 <= f < 5
      ensures Word(file, at + FieldAt(f), FieldSize(f)) == FieldOf(segs[j], f)
    {
      FieldWritten(segs, body, j, f);
    }
    Assemble(file, at, segs[j]);
  }

  /** Reading the program headers of the file gives them back. */
  lemma RoundTrip(segs: seq<Segment>, body: seq<Byte>)
    requires Writable(segs) && |FileOf(segs, body)| < U64
    ensures TableOk(FileOf(segs, body)) && Segments(FileOf(segs, body)) == segs
  {
    HeadWritten(segs, body);
    var file := FileOf(segs, body);
    forall j | 0 <= j < |segs|
      ensures Segments(file)[j] == segs[j]
    {
      SegmentWritten(segs, body, j);
    }
  }

  // ----- a file whose rounding wraps -----

  function TwoSegments(): seq<Segment> {
    [Segment(PT_LOAD, 0, 0, 0, PAGE_SIZE), Segment(PT_LOAD, 0, U64 - 8 - KERNEL_MOD_SPACE_START, 0, 4),
     Segment(PT_DYNAMIC, EHDR_SIZE + 3 * PHDR_SIZE, 0, DYN_SIZE, DYN_SIZE)]
  }

  lemma TwoBounds()
    ensures var segs, base := TwoSegments(), KERNEL_MOD_SPACE_START;
            Low(segs, base, 3) == base && High(segs, base, 3) == base + PAGE_SIZE
  {
    var segs, base := TwoSegments(), KERNEL_MOD_SPACE_START;
    KernelStartAligned();
    PadUpExact(End(segs[1], base));
    AlignedSum(base, PAGE_SIZE);
    PadUpOfAligned(base + PAGE_SIZE);
    assert Low(segs, base, 1) == base && High(segs, base, 1) == base + PAGE_SIZE;
    assert Low(segs, base, 2) == base && High(segs, base, 2) == base + PAGE_SIZE;
  }

  /** One terminating dynamic entry. */
  function Terminator(): (body: seq<Byte>)
    ensures |body| == DYN_SIZE
  {
    seq(DYN_SIZE, i => 0)
  }

  lemma TerminatorWritten(segs: seq<Segment>, s: Segment)
    requires s.kind == PT_DYNAMIC && s.offset == EHDR_SIZE + |segs| * PHDR_SIZE && s.filesz == DYN_SIZE
    ensures Terminated(FileOf(segs, Terminator()), s)
  {
    var file := FileOf(segs, Terminator());
    forall i | s.offset <= i < s.offset + 8
      ensures file[i] == 0
    {
      assert file[i] == FileByte(segs, Terminator(), i);
    }
    ZeroWord(file, s.offset, 8);
    assert TagAt(file, s, 0) == DT_NULL;
  }

  /** A file the validation accepts although a segment lies at the top of the
      address space, far above the module window: its rounded end is zero. */
  lemma WrappedEndAccepted()
    ensures var file, base := FileOf(TwoSegments(), Terminator()), KERNEL_MOD_SPACE_START;
            Acceptable(file, base, true) && Segments(file) == TwoSegments() && Escapes(TwoSegments(), base)
  {
    var segs, base := TwoSegments(), KERNEL_MOD_SPACE_START;
    var file := FileOf(segs, Terminator());
    RoundTrip(segs, Terminator());
    TerminatorWritten(segs, segs[2]);
    TwoBounds();
    TwoPass(file);
  }

  lemma TwoPass(file: seq<Byte>)
    requires |file| >= EHDR_SIZE + 3 * PHDR_SIZE + DYN_SIZE
    ensures var segs, base := TwoSegments(), KERNEL_MOD_SPACE_START;
            AllOk(file, segs, base, 3) && AnyLoaded(segs, 3) && AllContained(segs, base, 3) && Escapes(segs, base)
  {
    var segs, base := TwoSegments(), KERNEL_MOD_SPACE_START;
    assert segs[0].kind == PT_LOAD && segs[1].kind == PT_LOAD && End(segs[1], base) == U64 - 4;
    assert Inside(segs[2], segs[0], base);
  }
}
