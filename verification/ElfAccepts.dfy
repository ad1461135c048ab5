/** Which files the dynamic linker loads, said in addresses: where the segments
    lie, which bytes the dynamic ones share with the loaded ones, and what bytes
    the file has. */
module ElfAccepts {
  import opened Machine
  import opened Elf
  import opened Placement
  import ElfWriter

  // ----- the header, byte by byte -----

  /** The magic number, version 1, headers of 64 and 56 bytes, machine 62 or 3, type 3. */
  predicate HeadBytes(file: seq<Byte>)
    requires EHDR_SIZE <= |file|
  {
    file[0] == 0x7f && file[1] == 0x45 && file[2] == 0x4c && file[3] == 0x46 &&
    file[20] == 1 && file[21] == 0 && file[22] == 0 && file[23] == 0 &&
    file[52] == 64 && file[53] == 0 && file[54] == 56 && file[55] == 0 &&
    (file[18] == 62 || file[18] == 3) && file[19] == 0 && file[16] == 3 && file[17] == 0
  }

  lemma VersionBytes(file: seq<Byte>)
    requires EHDR_SIZE <= |file|
    ensures Word(file, 20, 4) == 1 <==> file[20] == 1 && file[21] == 0 && file[22] == 0 && file[23] == 0
  {
    assert Word(file, 20, 4) == file[20] + 256 * Word(file, 21, 3);
    ZeroWord(file, 21, 3);
  }

  lemma HeadIs(file: seq<Byte>)
    requires EHDR_SIZE <= |file|
    ensures HeadBytes(file) <==> HeadOk(file) && Word16(file, 16) == ET_DYN
  {
    VersionBytes(file);
  }

  /** The program header table: at least one, all of them in the file. */
  predicate HeaderFits(file: seq<Byte>) {
    EHDR_SIZE <= |file| && HeadBytes(file) && (file[56] != 0 || file[57] != 0) &&
    Word(file, 32, 8) + (file[56] + 256 * file[57] as nat) * 56 <= |file|
  }

  lemma TableIs(file: seq<Byte>)
    requires |file| < U64
    ensures HeaderFits(file) <==> TableOk(file)
  {
    if EHDR_SIZE <= |file| {
      HeadIs(file);
    }
  }

  // ----- bytes of segments -----

  /** Byte `a` of the address space is one of the segment's. */
  predicate HasByte(s: Segment, base: Word64, a: nat) {
    base + s.vaddr <= a < base + s.vaddr + s.memsz
  }

  /** Every byte of `s` is one of the loaded segment `l`; an empty `s` lies in it or at its end. */
  ghost predicate Within(s: Segment, l: Segment, base: Word64) {
    l.kind == 1 && (forall a :: HasByte(s, base, a) ==> HasByte(l, base, a)) &&
    (s.memsz == 0 ==> l.vaddr <= s.vaddr <= l.vaddr + l.memsz)
  }

  lemma InsideIsWithin(s: Segment, l: Segment, base: Word64)
    requires base + l.vaddr + l.memsz < U64
    ensures Inside(s, l, base) <==> Within(s, l, base)
  {
    if Within(s, l, base) && s.memsz > 0 {
      assert HasByte(s, base, base + s.vaddr) && HasByte(s, base, base + s.vaddr + s.memsz - 1);
    }
  }

  /** The search for a container finds one if and only if a loaded segment that does not overflow has all the bytes. */
  lemma ContainerFound(segs: seq<Segment>, s: Segment, base: Word64)
    ensures (exists j | 0 <= j < |segs| :: Inside(s, segs[j], base)) <==>
            exists j | 0 <= j < |segs| :: base + segs[j].vaddr + segs[j].memsz < U64 && Within(s, segs[j], base)
  {
    if j :| 0 <= j < |segs| && Inside(s, segs[j], base) {
      InsideIsWithin(s, segs[j], base);
      assert base + segs[j].vaddr + segs[j].memsz < U64 && Within(s, segs[j], base);
    }
    if j :| 0 <= j < |segs| && base + segs[j].vaddr + segs[j].memsz < U64 && Within(s, segs[j], base) {
      InsideIsWithin(s, segs[j], base);
      assert Inside(s, segs[j], base);
    }
  }

  // ----- what is loadable -----

  function WindowEnd(isKernel: bool): Word64 {
    if isKernel then 0xffff_ffff_c000_0000 else 0x8000_0000
  }

  /** A segment to load: its bytes are in the file, and it ends in the window. */
  predicate LoadFits(file: seq<Byte>, s: Segment, base: Word64, isKernel: bool) {
    s.kind == 1 ==>
      s.filesz <= s.memsz && s.offset + s.filesz <= |file| && base + s.vaddr + s.memsz <= WindowEnd(isKernel)
  }

  /** A dynamic segment: entries of 16 bytes in the file. */
  predicate DynamicFits(file: seq<Byte>, s: Segment) {
    s.kind == 2 ==> 16 <= s.filesz && s.filesz % 16 == 0 && s.offset + s.filesz <= |file|
  }

  /** The first eight bytes of some entry are zero. */
  ghost predicate EndsSomewhere(file: seq<Byte>, s: Segment) {
    s.kind == 2 && s.offset + s.filesz <= |file| &&
    exists j: nat :: j < s.filesz / 16 && ZeroTag(file, s.offset + j * 16)
  }

  predicate ZeroTag(file: seq<Byte>, at: nat) {
    at + 8 <= |file| && forall i | at <= i < at + 8 :: file[i] == 0
  }

  /** Two segments to load whose pages are not all at one place without bytes. */
  predicate TakesRoom(s: Segment, l: Segment, base: Word64) {
    s.kind == 1 && l.kind == 1 && (s.memsz > 0 || (base + s.vaddr) % PAGE_SIZE != 0 || s.vaddr != l.vaddr)
  }

  ghost predicate Loadable(file: seq<Byte>, segs: seq<Segment>, base: Word64, isKernel: bool) {
    (forall i | 0 <= i < |segs| :: LoadFits(file, segs[i], base, isKernel) && DynamicFits(file, segs[i])) &&
    (exists i | 0 <= i < |segs| :: EndsSomewhere(file, segs[i])) &&
    (forall i | 0 <= i < |segs| && segs[i].kind == 2 && base + segs[i].vaddr < U64 ::
       exists j | 0 <= j < |segs| :: Within(segs[i], segs[j], base)) &&
    exists i, j | 0 <= i < |segs| && 0 <= j < |segs| :: TakesRoom(segs[i], segs[j], base)
  }

  // ----- the bounds -----

  lemma AlignedIs(x: nat)
    ensures Aligned(x) <==> x % PAGE_SIZE == 0
  {
    PadDownDivides(x);
  }

  lemma WindowEndAligned(isKernel: bool)
    ensures Aligned(WindowEnd(isKernel)) && WindowEnd(isKernel) <= U64 - PAGE_SIZE
  {
    AlignedIs(WindowEnd(isKernel));
  }

  lemma RoundsWithin(x: Word64, end: Word64)
    requires Aligned(end) && end <= U64 - PAGE_SIZE && x <= U64 - PAGE_SIZE
    ensures PadUp(x) <= end <==> x <= end
  {
    PadUpExact(x);
    if x <= end < PadUp(x) {
      NextPage(end, PadUp(x));
    }
  }

  /** Bounds and rounded ends of segments that end in the window. */
  lemma {:induction false} HighFits(file: seq<Byte>, segs: seq<Segment>, base: Word64, isKernel: bool, n: nat)
    requires n <= |segs| && AllOk(file, segs, base, n) && !Wraps(segs, base, n)
    ensures High(segs, base, n) <= WindowEnd(isKernel) <==>
            forall i | 0 <= i < n :: LoadFits(file, segs[i], base, isKernel)
  {
    if n > 0 {
      NextWraps(segs, base, n - 1);
      NextHeader(file, segs, base, n - 1);
      HighFits(file, segs, base, isKernel, n - 1);
      if segs[n - 1].kind == PT_LOAD {
        WindowEndAligned(isKernel);
        RoundsWithin(End(segs[n - 1], base), WindowEnd(isKernel));
      }
    }
  }

  lemma {:induction false} LowAbove(file: seq<Byte>, segs: seq<Segment>, base: Word64, n: nat)
    requires n <= |segs| && AllOk(file, segs, base, n) && Aligned(base)
    ensures base <= Low(segs, base, n)
  {
    if n > 0 {
      LowAbove(file, segs, base, n - 1);
      if segs[n - 1].kind == PT_LOAD {
        assert SegmentOk(file, segs[n - 1], base);
        PadDownMonotone(base, Start(segs[n - 1], base));
      }
    }
  }

  /** The bounds span the pages of every segment to load. */
  lemma {:induction false} BoundsSpan(file: seq<Byte>, segs: seq<Segment>, base: Word64, n: nat, i: nat)
    requires i < n <= |segs| && AllOk(file, segs, base, n) && !Wraps(segs, base, n) && segs[i].kind == PT_LOAD
    ensures Low(segs, base, n) <= PadDown(base + segs[i].vaddr)
    ensures base + segs[i].vaddr + segs[i].memsz <= PadUp(base + segs[i].vaddr + segs[i].memsz) <= High(segs, base, n)
  {
    NextWraps(segs, base, n - 1);
    if i == n - 1 {
      assert SegmentOk(file, segs[i], base);
      PadUpExact(End(segs[i], base));
    } else {
      BoundsSpan(file, segs, base, n - 1, i);
    }
  }

  lemma RoomIsRoom(file: seq<Byte>, segs: seq<Segment>, base: Word64, i: nat, j: nat)
    requires i < |segs| && j < |segs| && AllOk(file, segs, base, |segs|) && !Wraps(segs, base, |segs|)
    requires TakesRoom(segs[i], segs[j], base)
    ensures Low(segs, base, |segs|) < High(segs, base, |segs|)
  {
    BoundsSpan(file, segs, base, |segs|, i);
    BoundsSpan(file, segs, base, |segs|, j);
    AlignedIs(base + segs[i].vaddr);
    PadDownDivides(base + segs[i].vaddr);
  }

  /** Segments that are all empty at one page boundary have equal bounds. */
  lemma {:induction false} NoRoom(file: seq<Byte>, segs: seq<Segment>, base: Word64, n: nat, i: nat)
    requires i < |segs| && n <= |segs| && AllOk(file, segs, base, |segs|) && !Wraps(segs, base, |segs|)
    requires segs[i].kind == PT_LOAD && forall j | 0 <= j < |segs| :: !TakesRoom(segs[i], segs[j], base) && !TakesRoom(segs[j], segs[i], base)
    ensures Low(segs, base, n) >= base + segs[i].vaddr >= High(segs, base, n)
  {
    if n > 0 {
      NoRoom(file, segs, base, n - 1, i);
      if segs[n - 1].kind == PT_LOAD {
        EmptyHere(file, segs, base, n - 1, i);
      }
    }
  }

  lemma EmptyHere(file: seq<Byte>, segs: seq<Segment>, base: Word64, k: nat, i: nat)
    requires i < |segs| && k < |segs| && AllOk(file, segs, base, |segs|) && !Wraps(segs, base, |segs|)
    requires segs[i].kind == PT_LOAD && segs[k].kind == PT_LOAD
    requires !TakesRoom(segs[i], segs[k], base) && !TakesRoom(segs[k], segs[i], base)
    ensures PadDown(Start(segs[k], base)) == base + segs[i].vaddr == PadUp(End(segs[k], base))
  {
    assert SegmentOk(file, segs[k], base);
    AlignedIs(base + segs[k].vaddr);
    PadUpOfAligned(base + segs[k].vaddr);
  }

  lemma RoomExactly(file: seq<Byte>, segs: seq<Segment>, base: Word64)
    requires AllOk(file, segs, base, |segs|) && !Wraps(segs, base, |segs|)
    ensures AnyLoaded(segs, |segs|) && Low(segs, base, |segs|) < High(segs, base, |segs|) <==>
            exists i, j | 0 <= i < |segs| && 0 <= j < |segs| :: TakesRoom(segs[i], segs[j], base)
  {
    if i, j :| 0 <= i < |segs| && 0 <= j < |segs| && TakesRoom(segs[i], segs[j], base) {
      RoomIsRoom(file, segs, base, i, j);
    } else if AnyLoaded(segs, |segs|) {
      var i :| 0 <= i < |segs| && segs[i].kind == PT_LOAD;
      NoRoom(file, segs, base, |segs|, i);
    }
  }

  // ----- the two sides -----

  lemma EndsIs(file: seq<Byte>, s: Segment)
    ensures EndsSomewhere(file, s) <==> Terminated(file, s)
  {
    if s.kind == PT_DYNAMIC && s.offset + s.filesz <= |file| {
      if j: nat :| j < s.filesz / 16 && ZeroTag(file, s.offset + j * 16) {
        ZeroWord(file, s.offset + j * 16, 8);
        assert TagAt(file, s, j) == DT_NULL;
      }
      if j :| 0 <= j < s.filesz / DYN_SIZE && TagAt(file, s, j) == DT_NULL {
        ZeroWord(file, s.offset + j * 16, 8);
        assert ZeroTag(file, s.offset + j * 16);
      }
    }
  }

  lemma SomewhereIs(file: seq<Byte>, segs: seq<Segment>)
    ensures AnyTerminated(file, segs, |segs|) <==> exists i | 0 <= i < |segs| :: EndsSomewhere(file, segs[i])
  {
    forall i | 0 <= i < |segs|
      ensures EndsSomewhere(file, segs[i]) <==> Terminated(file, segs[i])
    {
      EndsIs(file, segs[i]);
    }
  }

  ghost predicate AllWithin(segs: seq<Segment>, base: Word64) {
    forall i | 0 <= i < |segs| && segs[i].kind == PT_DYNAMIC && base + segs[i].vaddr < U64 ::
      exists j | 0 <= j < |segs| :: Within(segs[i], segs[j], base)
  }

  lemma ContainedIs(file: seq<Byte>, segs: seq<Segment>, base: Word64)
    requires AllOk(file, segs, base, |segs|)
    ensures AllContained(segs, base, |segs|) <==> AllWithin(segs, base)
  {
    forall i, j | 0 <= i < |segs| && 0 <= j < |segs|
      ensures Inside(segs[i], segs[j], base) <==> Within(segs[i], segs[j], base)
    {
      assert SegmentOk(file, segs[j], base);
      if segs[j].kind == PT_LOAD {
        InsideIsWithin(segs[i], segs[j], base);
      }
    }
    forall i | 0 <= i < |segs|
      ensures Contained(segs, segs[i], base) <==>
        (segs[i].kind == PT_DYNAMIC && base + segs[i].vaddr < U64 ==> exists j | 0 <= j < |segs| :: Within(segs[i], segs[j], base))
    {
    }
  }

  /** Both sides agree on the single headers. */
  lemma HeadersFit(file: seq<Byte>, segs: seq<Segment>, base: Word64, isKernel: bool)
    ensures (forall i | 0 <= i < |segs| :: LoadFits(file, segs[i], base, isKernel) && DynamicFits(file, segs[i])) <==>
            AllOk(file, segs, base, |segs|) && !Wraps(segs, base, |segs|) && High(segs, base, |segs|) <= WindowEnd(isKernel)
  {
    WindowEndAligned(isKernel);
    if AllOk(file, segs, base, |segs|) && !Wraps(segs, base, |segs|) {
      HighFits(file, segs, base, isKernel, |segs|);
      forall i | 0 <= i < |segs|
        ensures DynamicFits(file, segs[i])
      {
        assert SegmentOk(file, segs[i], base);
      }
    }
    if forall i | 0 <= i < |segs| :: LoadFits(file, segs[i], base, isKernel) && DynamicFits(file, segs[i]) {
      forall i | 0 <= i < |segs|
        ensures SegmentOk(file, segs[i], base) && (segs[i].kind == PT_LOAD ==> End(segs[i], base) <= U64 - PAGE_SIZE)
      {
        assert LoadFits(file, segs[i], base, isKernel) && DynamicFits(file, segs[i]);
      }
      HighFits(file, segs, base, isKernel, |segs|);
    }
  }

  lemma SegmentsLoadable(file: seq<Byte>, segs: seq<Segment>, base: Word64, isKernel: bool)
    requires Aligned(base)
    ensures Loadable(file, segs, base, isKernel) <==>
      AllOk(file, segs, base, |segs|) && !Wraps(segs, base, |segs|) && High(segs, base, |segs|) <= WindowEnd(isKernel) &&
      AnyTerminated(file, segs, |segs|) && AllContained(segs, base, |segs|) &&
      AnyLoaded(segs, |segs|) && Low(segs, base, |segs|) < High(segs, base, |segs|)
  {
    HeadersFit(file, segs, base, isKernel);
    SomewhereIs(file, segs);
    if AllOk(file, segs, base, |segs|) && !Wraps(segs, base, |segs|) {
      RoomExactly(file, segs, base);
      ContainedIs(file, segs, base);
    }
  }

  /** At an aligned base in its window, a file is accepted without wrapped rounding, and so
      loaded, if and only if its header fits and its segments are loadable. */
  lemma PlaceableExactly(file: seq<Byte>, base: Word64, isKernel: bool)
    requires |file| < U64 && Aligned(base) && base >= WindowStart(isKernel)
    ensures Placeable(file, base, isKernel) <==> HeaderFits(file) && Loadable(file, Segments(file), base, isKernel)
  {
    TableIs(file);
    if TableOk(file) {
      var segs := Segments(file);
      SegmentsLoadable(file, segs, base, isKernel);
      if AllOk(file, segs, base, |segs|) {
        LowAbove(file, segs, base, |segs|);
      }
    }
  }

  // ----- the size, and the place -----

  /** `size` bytes from the base on are whole pages, hold every segment to load, and no page more. */
  predicate EndsAtPage(segs: seq<Segment>, base: Word64, size: nat) {
    size % PAGE_SIZE == 0 &&
    (forall i | 0 <= i < |segs| && segs[i].kind == PT_LOAD :: segs[i].vaddr + segs[i].memsz <= size) &&
    exists i | 0 <= i < |segs| && segs[i].kind == PT_LOAD :: segs[i].vaddr + segs[i].memsz + PAGE_SIZE > size
  }

  lemma {:induction false} HighestEnd(segs: seq<Segment>, base: Word64, n: nat) returns (i: nat)
    requires n <= |segs| && High(segs, base, n) > 0
    ensures i < n && segs[i].kind == PT_LOAD && High(segs, base, n) == PadUp(End(segs[i], base))
  {
    if segs[n - 1].kind == PT_LOAD && High(segs, base, n) == PadUp(End(segs[n - 1], base)) {
      i := n - 1;
    } else {
      i := HighestEnd(segs, base, n - 1);
    }
  }

  lemma SizeIsRoundedEnd(file: seq<Byte>, base: Word64, isKernel: bool)
    requires |file| < U64 && Aligned(base) && base >= WindowStart(isKernel) && Placeable(file, base, isKernel)
    ensures EndsAtPage(Segments(file), base, ObjectAt(file, base, isKernel).size)
  {
    var segs := Segments(file);
    var high := High(segs, base, |segs|);
    Bounds(file, segs, base, |segs|);
    AlignedSum(base, high - base);
    AlignedIs(high - base);
    forall i | 0 <= i < |segs| && segs[i].kind == PT_LOAD
      ensures segs[i].vaddr + segs[i].memsz <= high - base
    {
      BoundsSpan(file, segs, base, |segs|, i);
    }
    var i := HighestEnd(segs, base, |segs|);
    assert SegmentOk(file, segs[i], base);
    PadUpExact(End(segs[i], base));
    assert segs[i].vaddr + segs[i].memsz + PAGE_SIZE > high - base;
  }

  lemma FromStartDense(requests: seq<Request>)
    requires forall i | 0 <= i < |requests| :: |requests[i].file| < U64
    ensures Dense(Run(Empty(), requests))
  {
    assert Dense(Empty());
    RunDense(Empty(), requests);
  }

  lemma DenseNext(l: Layout, isKernel: bool)
    requires LayoutOk(l) && Dense(l)
    ensures var next := WindowStart(isKernel) + Taken(l.objects, isKernel);
            NextBase(l, isKernel) == if next < WindowEnd(isKernel) then Some(next) else None
  {
  }

  /** After every run, the next object of a window goes right behind the earlier ones, if that is in the window. */
  lemma NextIsDense(requests: seq<Request>, isKernel: bool)
    requires forall i | 0 <= i < |requests| :: |requests[i].file| < U64
    ensures var l := Run(Empty(), requests);
            var next := WindowStart(isKernel) + Taken(l.objects, isKernel);
            Dense(l) && NextBase(l, isKernel) == if next < WindowEnd(isKernel) then Some(next) else None
  {
    FromStartDense(requests);
    DenseNext(Run(Empty(), requests), isKernel);
  }

  /** A load finds a place exactly for the loadable files, while the window has room: at the next
      free address, with whole pages up to the last byte. */
  lemma PlacedExactly(l: Layout, file: seq<Byte>, isKernel: bool)
    requires LayoutOk(l) && |file| < U64 && NextBase(l, isKernel).Some?
    ensures var base, o := NextBase(l, isKernel).value, Place(l, Request(file, isKernel)).1;
            (o.Some? <==> HeaderFits(file) && Loadable(file, Segments(file), base, isKernel)) &&
            (o.Some? ==> EndsAtPage(Segments(file), base, o.value.size)) &&
            (o.Some? ==> o.value.base == base && o.value.segs == Segments(file) && o.value.isKernel == isKernel)
  {
    var base := NextBase(l, isKernel).value;
    BaseAligned(l, isKernel);
    PlaceableExactly(file, base, isKernel);
    if Placeable(file, base, isKernel) {
      SizeIsRoundedEnd(file, base, isKernel);
    }
  }

  /** Whatever the program headers and whatever is behind them: the file made of them is loaded
      exactly if they are loadable, and the object has just these segments. */
  lemma WrittenPlaced(l: Layout, segs: seq<Segment>, body: seq<Byte>, isKernel: bool)
    requires LayoutOk(l) && NextBase(l, isKernel).Some?
    requires ElfWriter.Writable(segs) && |ElfWriter.FileOf(segs, body)| < U64
    ensures var file := ElfWriter.FileOf(segs, body);
            var base, o := NextBase(l, isKernel).value, Place(l, Request(file, isKernel)).1;
            (o.Some? <==> Loadable(file, segs, base, isKernel)) && (o.Some? ==> o.value.segs == segs && o.value.base == base)
  {
    ElfWriter.RoundTrip(segs, body);
    TableIs(ElfWriter.FileOf(segs, body));
    PlacedExactly(l, ElfWriter.FileOf(segs, body), isKernel);
  }
}
