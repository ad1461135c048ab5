/** The parts of an ELF64 file the dynamic linker reads, and its checks on them. */
module Elf {
  import opened Machine

  const ET_DYN: nat := 3
  const EM_386: nat := 3
  const EM_X86_64: nat := 62
  const EV_CURRENT: nat := 1
  const PT_LOAD: nat := 1
  const PT_DYNAMIC: nat := 2
  const DT_NULL: nat := 0
  const EHDR_SIZE: nat := 64
  const PHDR_SIZE: nat := 56
  const DYN_SIZE: nat := 16

  const KERNEL_MOD_SPACE_START: nat := 0xffffffffb0000000
  const KERNEL_MOD_SPACE_END: nat := 0xffffffffc0000000
  const USER_SO_BASE_START: nat := 0x40000000
  const USER_SO_BASE_END: nat := 0x80000000

  /** The little-endian number in `n` bytes of the file. */
  function Word(file: seq<Byte>, at: nat, n: nat): nat
    requires at + n <= |file|
    decreases n
  {
    if n == 0 then 0 else file[at] + 256 * Word(file, at + 1, n - 1)
  }

  function Word16(file: seq<Byte>, at: nat): (w: nat)
    requires at + 2 <= |file|
    ensures w < 0x1_0000
  {
    file[at] as nat + 256 * (file[at + 1] as nat)
  }

  lemma {:induction false} WordBound(file: seq<Byte>, at: nat)
    requires at + 8 <= |file|
    ensures Word(file, at, 8) < U64
  {
    assert Word(file, at + 4, 4) < 0x1_0000_0000 by { HalfBound(file, at + 4); }
    Halves(file, at);
    HalfBound(file, at);
  }

  lemma HalfBound(file: seq<Byte>, at: nat)
    requires at + 4 <= |file|
    ensures Word(file, at, 4) < 0x1_0000_0000
  {
    assert Word(file, at + 2, 2) == file[at + 2] + 256 * Word(file, at + 3, 1);
    assert Word(file, at + 3, 1) == file[at + 3] + 256 * Word(file, at + 4, 0);
  }

  lemma Halves(file: seq<Byte>, at: nat)
    requires at + 8 <= |file|
    ensures Word(file, at, 8) == Word(file, at, 4) + 0x1_0000_0000 * Word(file, at + 4, 4)
  {
    assert Word(file, at, 8) == file[at] + 256 * Word(file, at + 1, 7);
    assert Word(file, at + 1, 7) == file[at + 1] + 256 * Word(file, at + 2, 6);
    assert Word(file, at + 2, 6) == file[at + 2] + 256 * Word(file, at + 3, 5);
    assert Word(file, at + 3, 5) == file[at + 3] + 256 * Word(file, at + 4, 4);
    assert Word(file, at, 4) == file[at] + 256 * Word(file, at + 1, 3);
    assert Word(file, at + 1, 3) == file[at + 1] + 256 * Word(file, at + 2, 2);
    assert Word(file, at + 2, 2) == file[at + 2] + 256 * Word(file, at + 3, 1);
    assert Word(file, at + 3, 1) == file[at + 3] + 256 * Word(file, at + 4, 0);
  }

  function Word64At(file: seq<Byte>, at: nat): Word64
    requires at + 8 <= |file|
  {
    WordBound(file, at);
    Word(file, at, 8)
  }

  lemma {:induction false} ZeroWord(file: seq<Byte>, at: nat, n: nat)
    requires at + n <= |file|
    ensures Word(file, at, n) == 0 <==> forall i | at <= i < at + n :: file[i] == 0
    decreases n
  {
    if n > 0 {
      ZeroWord(file, at + 1, n - 1);
    }
  }

  /** A program header. */
  datatype Segment = Segment(kind: nat, offset: Word64, vaddr: Word64, filesz: Word64, memsz: Word64)

  function SegmentAt(file: seq<Byte>, at: nat): Segment
    requires at + PHDR_SIZE <= |file|
  {
    Segment(Word(file, at, 4), Word64At(file, at + 8), Word64At(file, at + 16), Word64At(file, at + 32), Word64At(file, at + 40))
  }

  /** The identification bytes, version, sizes and machine of the header. */
  predicate HeadOk(file: seq<Byte>)
    requires EHDR_SIZE <= |file|
  {
    file[0] == 0x7f && file[1] == 0x45 && file[2] == 0x4c && file[3] == 0x46 &&
    Word(file, 20, 4) == EV_CURRENT && Word16(file, 52) == EHDR_SIZE && Word16(file, 54) == PHDR_SIZE &&
    (Word16(file, 18) == EM_X86_64 || Word16(file, 18) == EM_386)
  }

  /** Whether `offset .. offset + length` lies in the file, without overflow. */
  function FileRange(offset: Word64, length: Word64, size: Word64): (r: bool)
    ensures r <==> offset + length <= size
  {
    offset <= size && length <= size - offset
  }

  /** The program header table lies in the file and is not empty. */
  predicate TableOk(file: seq<Byte>)
    requires |file| < U64
  {
    EHDR_SIZE <= |file| && HeadOk(file) && Word16(file, 16) == ET_DYN && Word16(file, 56) != 0 &&
    Word64At(file, 32) + Word16(file, 56) * PHDR_SIZE <= |file|
  }

  function Segments(file: seq<Byte>): (r: seq<Segment>)
    requires |file| < U64 && TableOk(file)
    ensures |r| == Word16(file, 56)
  {
    seq(Word16(file, 56), i requires 0 <= i < Word16(file, 56) => SegmentAt(file, Word64At(file, 32) + i * PHDR_SIZE))
  }

  /** `x / PAGE_SIZE * PAGE_SIZE`, written without the division (see `PadDownDivides`). */
  function PadDown(x: nat): (p: nat)
    ensures p <= x < p + PAGE_SIZE
  {
    if x < PAGE_SIZE then 0 else PAGE_SIZE + PadDown(x - PAGE_SIZE)
  }

  lemma {:induction false} PadDownDivides(x: nat)
    ensures PadDown(x) == x / PAGE_SIZE * PAGE_SIZE
  {
    if x >= PAGE_SIZE {
      PadDownDivides(x - PAGE_SIZE);
    }
  }

  /** `x` is the address of a page. */
  predicate Aligned(x: nat) {
    PadDown(x) == x
  }

  /** Rounding moves along with an aligned amount. */
  lemma {:induction false} PadDownShifts(x: nat, m: nat)
    requires Aligned(m)
    ensures PadDown(x + m) == PadDown(x) + m
  {
    if m > 0 {
      PadDownShifts(x, m - PAGE_SIZE);
    }
  }

  lemma PadDownAligned(x: nat)
    ensures Aligned(PadDown(x))
  {
    PadDownDivides(x);
    PadDownDivides(PadDown(x));
  }

  /** Addition in 64 bits. */
  function Add64(a: Word64, b: Word64): Word64 {
    if a + b < U64 then a + b else a + b - U64
  }

  /** Rounding up as the macro does, in 64 bits. */
  function PadUp(x: Word64): Word64 {
    PadDown(Add64(x, PAGE_SIZE - 1))
  }

  /** Rounding up loses the address just when it is within a page of 2^64. */
  lemma PadUpExact(x: Word64)
    ensures Aligned(PadUp(x))
    ensures x <= U64 - PAGE_SIZE ==> x <= PadUp(x) < x + PAGE_SIZE
    ensures x > U64 - PAGE_SIZE ==> PadUp(x) == 0
  {
    PadDownAligned(Add64(x, PAGE_SIZE - 1));
  }

  function Start(s: Segment, base: Word64): Word64 {
    Add64(base, s.vaddr)
  }

  function End(s: Segment, base: Word64): Word64 {
    Add64(Start(s, base), s.memsz)
  }

  /** The least page start of the first `n` segments to load, or 2^64 - 1. */
  function Low(segs: seq<Segment>, base: Word64, n: nat): Word64
    requires n <= |segs|
  {
    if n == 0 then U64 - 1
    else if segs[n - 1].kind == PT_LOAD then Min(Low(segs, base, n - 1), PadDown(Start(segs[n - 1], base)))
    else Low(segs, base, n - 1)
  }

  /** The greatest rounded end of the first `n` segments to load, or 0. */
  function High(segs: seq<Segment>, base: Word64, n: nat): Word64
    requires n <= |segs|
  {
    if n == 0 then 0
    else if segs[n - 1].kind == PT_LOAD then Max(High(segs, base, n - 1), PadUp(End(segs[n - 1], base)))
    else High(segs, base, n - 1)
  }

  /** One header passes the first loop. */
  predicate SegmentOk(file: seq<Byte>, s: Segment, base: Word64) {
    (s.kind == PT_LOAD ==> s.filesz <= s.memsz && s.offset + s.filesz <= |file| && base + s.vaddr + s.memsz < U64) &&
    (s.kind == PT_DYNAMIC ==> DYN_SIZE <= s.filesz && s.filesz % DYN_SIZE == 0 && s.offset + s.filesz <= |file|)
  }

  /** The dynamic segment holds a terminating entry. */
  predicate Terminated(file: seq<Byte>, s: Segment) {
    s.kind == PT_DYNAMIC && s.offset + s.filesz <= |file| &&
    exists j | 0 <= j < s.filesz / DYN_SIZE :: TagAt(file, s, j) == DT_NULL
  }

  function TagAt(file: seq<Byte>, s: Segment, j: nat): nat
    requires s.offset + s.filesz <= |file| && j < s.filesz / DYN_SIZE
  {
    Word(file, s.offset + j * DYN_SIZE, 8)
  }

  /** The image of `s` lies inside the image of the loaded segment `l`. */
  predicate Inside(s: Segment, l: Segment, base: Word64) {
    l.kind == PT_LOAD && base + l.vaddr + l.memsz < U64 && l.vaddr <= s.vaddr && s.vaddr + s.memsz <= l.vaddr + l.memsz
  }

  /** A dynamic segment whose address does not overflow is part of a loaded one. */
  predicate Contained(segs: seq<Segment>, s: Segment, base: Word64) {
    s.kind == PT_DYNAMIC && base + s.vaddr < U64 ==> exists j | 0 <= j < |segs| :: Inside(s, segs[j], base)
  }

  predicate InWindow(low: nat, high: nat, isKernel: bool) {
    if isKernel then KERNEL_MOD_SPACE_START <= low && high <= KERNEL_MOD_SPACE_END
    else USER_SO_BASE_START <= low && high <= USER_SO_BASE_END
  }

  predicate AllOk(file: seq<Byte>, segs: seq<Segment>, base: Word64, n: nat)
    requires n <= |segs|
  {
    forall i | 0 <= i < n :: SegmentOk(file, segs[i], base)
  }

  predicate AnyLoaded(segs: seq<Segment>, n: nat)
    requires n <= |segs|
  {
    exists i | 0 <= i < n :: segs[i].kind == PT_LOAD
  }

  predicate AnyTerminated(file: seq<Byte>, segs: seq<Segment>, n: nat)
    requires n <= |segs|
  {
    exists i | 0 <= i < n :: Terminated(file, segs[i])
  }

  predicate AllContained(segs: seq<Segment>, base: Word64, n: nat)
    requires n <= |segs|
  {
    forall i | 0 <= i < n :: Contained(segs, segs[i], base)
  }

  /** What one more header adds. */
  lemma NextHeader(file: seq<Byte>, segs: seq<Segment>, base: Word64, n: nat)
    requires n < |segs|
    ensures AllOk(file, segs, base, n + 1) <==> AllOk(file, segs, base, n) && SegmentOk(file, segs[n], base)
    ensures AnyLoaded(segs, n + 1) <==> AnyLoaded(segs, n) || segs[n].kind == PT_LOAD
    ensures AnyTerminated(file, segs, n + 1) <==> AnyTerminated(file, segs, n) || Terminated(file, segs[n])
    ensures !SegmentOk(file, segs[n], base) ==> !AllOk(file, segs, base, |segs|)
  {
    assert AnyLoaded(segs, n) ==> AnyLoaded(segs, n + 1);
    assert AnyTerminated(file, segs, n) ==> AnyTerminated(file, segs, n + 1);
  }

  lemma NextContained(segs: seq<Segment>, base: Word64, n: nat)
    requires n < |segs|
    ensures AllContained(segs, base, n + 1) <==> AllContained(segs, base, n) && Contained(segs, segs[n], base)
    ensures !Contained(segs, segs[n], base) ==> !AllContained(segs, base, |segs|)
  {
  }

  /** What `validate_shared_object` accepts. */
  predicate Acceptable(file: seq<Byte>, base: Word64, isKernel: bool)
    requires |file| < U64
  {
    TableOk(file) &&
    var segs := Segments(file);
    AllOk(file, segs, base, |segs|) && AnyLoaded(segs, |segs|) && AnyTerminated(file, segs, |segs|) &&
    AllContained(segs, base, |segs|) &&
    base <= Low(segs, base, |segs|) < High(segs, base, |segs|) &&
    InWindow(Low(segs, base, |segs|), High(segs, base, |segs|), isKernel)
  }

  // ----- validate_shared_object -----

  method FindTerminator(file: seq<Byte>, s: Segment) returns (found: bool)
    requires s.kind == PT_DYNAMIC && s.offset + s.filesz <= |file|
    ensures found <==> Terminated(file, s)
  {
    var count := s.filesz / DYN_SIZE;
    var j := 0;
    while j < count
      invariant j <= count
      invariant forall k | 0 <= k < j :: TagAt(file, s, k) != DT_NULL
    {
      if TagAt(file, s, j) == DT_NULL {
        return true;
      }
      j := j + 1;
    }
    return false;
  }

  method CheckSegment(file: seq<Byte>, ph: Segment, base: Word64) returns (ok: bool)
    requires |file| < U64
    ensures ok <==> SegmentOk(file, ph, base)
  {
    if ph.kind == PT_LOAD {
      ok := !(ph.filesz > ph.memsz || !FileRange(ph.offset, ph.filesz, |file|) ||
              ph.vaddr > U64 - 1 - base || ph.memsz > U64 - 1 - (base + ph.vaddr));
    } else if ph.kind == PT_DYNAMIC {
      ok := !(ph.filesz < DYN_SIZE || ph.filesz % DYN_SIZE != 0 || !FileRange(ph.offset, ph.filesz, |file|));
    } else {
      ok := true;
    }
  }

  method CheckSegments(file: seq<Byte>, segs: seq<Segment>, base: Word64)
      returns (ok: bool, low: nat, high: nat, loaded: bool, terminated: bool)
    requires |file| < U64
    ensures ok <==> AllOk(file, segs, base, |segs|)
    ensures ok ==> low == Low(segs, base, |segs|) && high == High(segs, base, |segs|)
    ensures ok ==> loaded == AnyLoaded(segs, |segs|) && terminated == AnyTerminated(file, segs, |segs|)
  {
    low, high, loaded, terminated := U64 - 1, 0, false, false;
    var i := 0;
    while i < |segs|
      invariant i <= |segs|
      invariant AllOk(file, segs, base, i)
      invariant low == Low(segs, base, i) && high == High(segs, base, i)
      invariant loaded == AnyLoaded(segs, i) && terminated == AnyTerminated(file, segs, i)
    {
      var ph := segs[i];
      NextHeader(file, segs, base, i);
      var good := CheckSegment(file, ph, base);
      if !good {
        return false, low, high, loaded, terminated;
      }
      if ph.kind == PT_LOAD {
        var start := base + ph.vaddr;
        var end := start + ph.memsz;
        low, high, loaded := Min(low, PadDown(start)), Max(high, PadUp(end)), true;
      } else if ph.kind == PT_DYNAMIC {
        var found := FindTerminator(file, ph);
        terminated := terminated || found;
      }
      i := i + 1;
    }
    ok := true;
  }

  method FindContainer(segs: seq<Segment>, s: Segment, base: Word64)
      returns (contained: bool)
    requires base + s.vaddr < U64
    ensures contained <==> exists j | 0 <= j < |segs| :: Inside(s, segs[j], base)
  {
    var start := base + s.vaddr;
    var j := 0;
    while j < |segs|
      invariant j <= |segs|
      invariant forall k | 0 <= k < j :: !Inside(s, segs[k], base)
    {
      var l := segs[j];
      if l.kind == PT_LOAD && l.vaddr <= U64 - 1 - base && l.memsz <= U64 - 1 - (base + l.vaddr) {
        var first := base + l.vaddr;
        var end := first + l.memsz;
        if first <= start <= end && s.memsz <= end - start {
          return true;
        }
      }
      j := j + 1;
    }
    return false;
  }

  /** Accepts exactly the acceptable files, reads nothing outside them, and
      returns the distance from the base to the greatest rounded end. */
  method ValidateSharedObject(file: seq<Byte>, base: Word64, isKernel: bool) returns (r: Option<nat>)
    requires |file| < U64
    ensures r.Some? <==> Acceptable(file, base, isKernel)
    ensures r.Some? ==> r.value == High(Segments(file), base, |Segments(file)|) - base
  {
    if |file| < EHDR_SIZE || !HeadOk(file) || Word16(file, 16) != ET_DYN || Word16(file, 56) == 0 ||
       Word16(file, 56) > |file| / PHDR_SIZE || !FileRange(Word64At(file, 32), Word16(file, 56) * PHDR_SIZE, |file|) {
      return None;
    }
    var segs := Segments(file);
    var ok, low, high, loaded, terminated := CheckSegments(file, segs, base);
    if !ok || !loaded || !terminated || high <= low {
      return None;
    }
    var i := 0;
    while i < |segs|
      invariant i <= |segs|
      invariant AllContained(segs, base, i)
    {
      var s := segs[i];
      NextContained(segs, base, i);
      if s.kind == PT_DYNAMIC && s.vaddr <= U64 - 1 - base {
        var contained := FindContainer(segs, s, base);
        if !contained {
          return None;
        }
      }
      i := i + 1;
    }
    if isKernel {
      if low < KERNEL_MOD_SPACE_START || high > KERNEL_MOD_SPACE_END {
        return None;
      }
    } else if low < USER_SO_BASE_START || high > USER_SO_BASE_END {
      return None;
    }
    if low < base {
      return None;
    }
    return Some(high - base);
  }
}
