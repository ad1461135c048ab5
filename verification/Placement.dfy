/** Where the dynamic linker maps shared objects: each one at the next free
    address of its window, with the segments' pages mapped from there. */
module Placement {
  import opened Machine
  import opened Elf

  // ----- the pages of an image -----

  function First(s: Segment, base: Word64): Word64 {
    Add64(PadDown(s.vaddr), base)
  }

  function Past(s: Segment, base: Word64): Word64 {
    Add64(PadUp(Add64(s.vaddr, s.memsz)), base)
  }

  /** The page addresses in `lo .. hi`. */
  function Pages(lo: nat, hi: nat): (p: set<nat>)
    ensures forall a :: a in p <==> lo <= a < hi && Aligned(a)
  {
    set a | lo <= a < hi && Aligned(a)
  }

  /** The pages mapped for the first `n` segments. */
  function ImagePages(segs: seq<Segment>, base: Word64, n: nat): set<nat>
    requires n <= |segs|
  {
    if n == 0 then {}
    else if segs[n - 1].kind == PT_LOAD then
      ImagePages(segs, base, n - 1) + Pages(First(segs[n - 1], base), Past(segs[n - 1], base))
    else ImagePages(segs, base, n - 1)
  }

  function LoadMin(segs: seq<Segment>, base: Word64, n: nat): nat
    requires n <= |segs|
  {
    if n == 0 then U64 - 1
    else if segs[n - 1].kind == PT_LOAD then Min(LoadMin(segs, base, n - 1), Start(segs[n - 1], base))
    else LoadMin(segs, base, n - 1)
  }

  function LoadMax(segs: seq<Segment>, base: Word64, n: nat): nat
    requires n <= |segs|
  {
    if n == 0 then 0
    else if segs[n - 1].kind == PT_LOAD then Max(LoadMax(segs, base, n - 1), End(segs[n - 1], base))
    else LoadMax(segs, base, n - 1)
  }

  /** Some segment ends within a page of 2^64, so that its rounded end is zero. */
  predicate Wraps(segs: seq<Segment>, base: Word64, n: nat)
    requires n <= |segs|
  {
    exists i | 0 <= i < n :: segs[i].kind == PT_LOAD && End(segs[i], base) > U64 - PAGE_SIZE
  }

  lemma NextWraps(segs: seq<Segment>, base: Word64, n: nat)
    requires n < |segs|
    ensures Wraps(segs, base, n + 1) <==>
      Wraps(segs, base, n) || (segs[n].kind == PT_LOAD && End(segs[n], base) > U64 - PAGE_SIZE)
  {
    assert Wraps(segs, base, n) ==> Wraps(segs, base, n + 1);
  }

  /** Rounding before adding the base, as the mapping does, gives the rounded addresses that were validated. */
  lemma RoundedAlike(s: Segment, base: Word64)
    requires Aligned(base) && PAGE_SIZE <= base && base + s.vaddr + s.memsz < U64
    ensures First(s, base) == PadDown(Start(s, base)) && Past(s, base) == PadUp(End(s, base))
  {
    PadDownShifts(s.vaddr, base);
    PadDownShifts(s.vaddr + s.memsz + PAGE_SIZE - 1, base);
    NearTop(End(s, base));
  }

  /** The last address before 2^64 that rounds down to a page is 2^64 - 4096. */
  lemma NearTop(x: Word64)
    ensures x > U64 - PAGE_SIZE ==> PadDown(x + PAGE_SIZE - 1) == U64
  {
    PadDownDivides(x + PAGE_SIZE - 1);
  }

  /** One segment: its page range, and its bytes against it. */
  lemma OneSegment(file: seq<Byte>, s: Segment, base: Word64)
    requires SegmentOk(file, s, base) && s.kind == PT_LOAD && Aligned(base) && PAGE_SIZE <= base
    ensures First(s, base) == PadDown(Start(s, base)) <= Start(s, base) <= End(s, base)
    ensures Past(s, base) == PadUp(End(s, base)) && Aligned(Past(s, base))
    ensures End(s, base) <= U64 - PAGE_SIZE ==> End(s, base) <= Past(s, base)
    ensures End(s, base) > U64 - PAGE_SIZE ==> Past(s, base) == 0
  {
    RoundedAlike(s, base);
    PadUpExact(End(s, base));
  }

  /** The bounds `validate_shared_object` finds cover the first `n` segments. */
  lemma {:induction false} Bounds(file: seq<Byte>, segs: seq<Segment>, base: Word64, n: nat)
    requires n <= |segs| && AllOk(file, segs, base, n) && Aligned(base) && PAGE_SIZE <= base
    ensures Low(segs, base, n) <= LoadMin(segs, base, n)
    ensures !Wraps(segs, base, n) ==> LoadMax(segs, base, n) <= High(segs, base, n)
    ensures Wraps(segs, base, n) ==> LoadMax(segs, base, n) > U64 - PAGE_SIZE
    ensures 0 < High(segs, base, n) ==> LoadMin(segs, base, n) <= High(segs, base, n)
    ensures Aligned(High(segs, base, n))
  {
    if n > 0 {
      Bounds(file, segs, base, n - 1);
      NextWraps(segs, base, n - 1);
      var s := segs[n - 1];
      if s.kind == PT_LOAD {
        OneSegment(file, s, base);
      }
    }
  }

  lemma {:induction false} PagesInBounds(file: seq<Byte>, segs: seq<Segment>, base: Word64, n: nat)
    requires n <= |segs| && AllOk(file, segs, base, n) && Aligned(base) && PAGE_SIZE <= base
    ensures forall a | a in ImagePages(segs, base, n) :: Aligned(a) && Low(segs, base, n) <= a < High(segs, base, n)
  {
    if n > 0 {
      PagesInBounds(file, segs, base, n - 1);
      var s := segs[n - 1];
      if s.kind == PT_LOAD {
        OneSegment(file, s, base);
      }
    }
  }

  /** The check that the mapped size is within the validated one fails exactly
      for the files whose rounding wrapped. */
  lemma SizeCheckFires(file: seq<Byte>, base: Word64, isKernel: bool)
    requires |file| < U64 && Acceptable(file, base, isKernel) && Aligned(base) && PAGE_SIZE <= base
    requires base >= if isKernel then KERNEL_MOD_SPACE_START else USER_SO_BASE_START
    ensures var segs := Segments(file);
            LoadMax(segs, base, |segs|) - LoadMin(segs, base, |segs|) > High(segs, base, |segs|) - base <==>
            Wraps(segs, base, |segs|)
  {
    var segs := Segments(file);
    Bounds(file, segs, base, |segs|);
  }

  /** A byte of a loaded segment. */
  predicate ByteOf(segs: seq<Segment>, base: Word64, a: nat) {
    exists i | 0 <= i < |segs| ::
      segs[i].kind == PT_LOAD && base + segs[i].vaddr <= a < base + segs[i].vaddr + segs[i].memsz
  }

  lemma PadDownMonotone(x: nat, y: nat)
    requires x <= y
    ensures PadDown(x) <= PadDown(y)
  {
    PadDownDivides(x);
    PadDownDivides(y);
  }

  lemma {:induction false} SegmentPages(file: seq<Byte>, segs: seq<Segment>, base: Word64, n: nat, i: nat, a: nat)
    requires i < n <= |segs| && AllOk(file, segs, base, n) && Aligned(base) && PAGE_SIZE <= base
    requires segs[i].kind == PT_LOAD && base + segs[i].vaddr + segs[i].memsz <= U64 - PAGE_SIZE
    requires base + segs[i].vaddr <= a < base + segs[i].vaddr + segs[i].memsz
    ensures PadDown(a) in ImagePages(segs, base, n)
  {
    if i == n - 1 {
      var s := segs[i];
      assert SegmentOk(file, s, base);
      RoundedAlike(s, base);
      PadDownAligned(a);
      PadUpExact(End(s, base));
      PadDownMonotone(s.vaddr + base, a);
    } else {
      SegmentPages(file, segs, base, n - 1, i, a);
    }
  }

  /** Some byte of a segment whose rounded end wraps. */
  predicate Escapes(segs: seq<Segment>, base: Word64) {
    exists i | 0 <= i < |segs| :: segs[i].kind == PT_LOAD && segs[i].memsz > 0 && End(segs[i], base) > U64 - PAGE_SIZE
  }

  /** For an accepted file, the bytes the loader copies and clears all lie on the
      pages it maps, if and only if no segment with bytes ends within a page of 2^64. */
  lemma BytesOnPages(file: seq<Byte>, base: Word64, isKernel: bool)
    requires |file| < U64 && Acceptable(file, base, isKernel) && Aligned(base) && PAGE_SIZE <= base
    ensures var segs := Segments(file);
            (forall a | ByteOf(segs, base, a) :: PadDown(a) in ImagePages(segs, base, |segs|)) <==> !Escapes(segs, base)
  {
    var segs := Segments(file);
    if Escapes(segs, base) {
      var i :| 0 <= i < |segs| && segs[i].kind == PT_LOAD && segs[i].memsz > 0 && End(segs[i], base) > U64 - PAGE_SIZE;
      ByteOutside(file, base, isKernel, i);
    } else {
      forall a | ByteOf(segs, base, a)
        ensures PadDown(a) in ImagePages(segs, base, |segs|)
      {
        ByteOnPage(file, segs, base, a);
      }
    }
  }

  lemma ByteOnPage(file: seq<Byte>, segs: seq<Segment>, base: Word64, a: nat)
    requires AllOk(file, segs, base, |segs|) && Aligned(base) && PAGE_SIZE <= base
    requires !Escapes(segs, base) && ByteOf(segs, base, a)
    ensures PadDown(a) in ImagePages(segs, base, |segs|)
  {
    var i :| 0 <= i < |segs| && segs[i].kind == PT_LOAD &&
             base + segs[i].vaddr <= a < base + segs[i].vaddr + segs[i].memsz;
    assert SegmentOk(file, segs[i], base);
    SegmentPages(file, segs, base, |segs|, i, a);
  }

  /** The last byte of a segment that wraps lies above the window, on no mapped page. */
  lemma ByteOutside(file: seq<Byte>, base: Word64, isKernel: bool, i: nat)
    requires |file| < U64 && Acceptable(file, base, isKernel) && Aligned(base) && PAGE_SIZE <= base
    requires i < |Segments(file)| && Segments(file)[i].kind == PT_LOAD && Segments(file)[i].memsz > 0
    requires End(Segments(file)[i], base) > U64 - PAGE_SIZE
    ensures var segs := Segments(file); var a := End(segs[i], base) - 1;
            ByteOf(segs, base, a) && PadDown(a) !in ImagePages(segs, base, |segs|) && a > KERNEL_MOD_SPACE_END
  {
    var segs := Segments(file);
    var a := End(segs[i], base) - 1;
    assert SegmentOk(file, segs[i], base);
    assert base + segs[i].vaddr <= a < base + segs[i].vaddr + segs[i].memsz;
    PagesInBounds(file, segs, base, |segs|);
  }

  // ----- placing objects one after the other -----

  datatype Object = Object(segs: seq<Segment>, base: Word64, size: nat, isKernel: bool)

  datatype Layout = Layout(kernelOffset: nat, userNext: nat, objects: seq<Object>)

  function Empty(): (l: Layout)
    ensures LayoutOk(l)
  {
    KernelStartAligned();
    Layout(0, USER_SO_BASE_START, [])
  }

  datatype Request = Request(file: seq<Byte>, isKernel: bool)

  /** The base for the next object of a window, while the window has room. */
  function NextBase(l: Layout, isKernel: bool): Option<Word64>
    requires l.kernelOffset < U64 && l.userNext < U64
  {
    if isKernel then
      if l.kernelOffset >= KERNEL_MOD_SPACE_END - KERNEL_MOD_SPACE_START then None
      else Some(KERNEL_MOD_SPACE_START + l.kernelOffset)
    else if l.userNext >= USER_SO_BASE_END then None
    else Some(l.userNext)
  }

  predicate Placeable(file: seq<Byte>, base: Word64, isKernel: bool)
    requires |file| < U64
  {
    Acceptable(file, base, isKernel) && !Wraps(Segments(file), base, |Segments(file)|)
  }

  function ObjectAt(file: seq<Byte>, base: Word64, isKernel: bool): Object
    requires |file| < U64 && Placeable(file, base, isKernel)
  {
    var segs := Segments(file);
    Object(segs, base, High(segs, base, |segs|) - base, isKernel)
  }

  /** The layout with one more object, the window's next free address moved past it. */
  function Add(l: Layout, o: Object): Layout
    requires o.size < U64
  {
    if o.isKernel then Layout(l.kernelOffset + PadUp(o.size), l.userNext, l.objects + [o])
    else Layout(l.kernelOffset, l.userNext + PadUp(o.size), l.objects + [o])
  }

  /** The layout after one load, and the object, or none. */
  function Place(l: Layout, r: Request): (Layout, Option<Object>)
    requires |r.file| < U64 && l.kernelOffset < U64 && l.userNext < U64
  {
    var base := NextBase(l, r.isKernel);
    if base.None? || !Placeable(r.file, base.value, r.isKernel) then (l, None)
    else
      var o := ObjectAt(r.file, base.value, r.isKernel);
      (Add(l, o), Some(o))
  }

  /** The pages mapped by one load: also those of an accepted file that is then turned away. */
  function NewPages(base: Option<Word64>, r: Request): set<nat>
    requires |r.file| < U64
  {
    if base.None? || !Acceptable(r.file, base.value, r.isKernel) then {}
    else ImagePages(Segments(r.file), base.value, |Segments(r.file)|)
  }

  /** An object lies in its window, below the next free address, with its pages inside it. */
  predicate ObjectOk(o: Object, l: Layout) {
    (if o.isKernel then KERNEL_MOD_SPACE_START <= o.base && o.base + o.size <= KERNEL_MOD_SPACE_START + l.kernelOffset
     else USER_SO_BASE_START <= o.base && o.base + o.size <= l.userNext) &&
    forall a | a in ObjectPages(o) :: o.base <= a && a + PAGE_SIZE <= o.base + o.size
  }

  function ObjectPages(o: Object): set<nat> {
    ImagePages(o.segs, o.base, |o.segs|)
  }

  predicate Apart(a: Object, b: Object) {
    a.base + a.size <= b.base || b.base + b.size <= a.base
  }

  predicate LayoutOk(l: Layout) {
    Aligned(l.kernelOffset) && l.kernelOffset <= KERNEL_MOD_SPACE_END - KERNEL_MOD_SPACE_START &&
    Aligned(l.userNext) && USER_SO_BASE_START <= l.userNext <= USER_SO_BASE_END &&
    (forall i | 0 <= i < |l.objects| :: ObjectOk(l.objects[i], l)) &&
    (forall i, j | 0 <= i < j < |l.objects| :: Apart(l.objects[i], l.objects[j]))
  }

  /** The size and the pages of an object that can be placed at a free base. */
  lemma Fits(file: seq<Byte>, base: Word64, isKernel: bool)
    requires |file| < U64 && Placeable(file, base, isKernel) && Aligned(base) && PAGE_SIZE <= base
    ensures var segs := Segments(file);
            var high := High(segs, base, |segs|);
            base < high <= (if isKernel then KERNEL_MOD_SPACE_END else USER_SO_BASE_END) && Aligned(high) &&
            forall a | a in ImagePages(segs, base, |segs|) :: base <= a && a + PAGE_SIZE <= high
  {
    Bounds(file, Segments(file), base, |Segments(file)|);
    PagesInBounds(file, Segments(file), base, |Segments(file)|);
    forall a | a in ImagePages(Segments(file), base, |Segments(file)|)
      ensures a + PAGE_SIZE <= High(Segments(file), base, |Segments(file)|)
    {
      NextPage(a, High(Segments(file), base, |Segments(file)|));
    }
  }

  lemma NextPage(a: nat, b: nat)
    requires Aligned(a) && Aligned(b) && a < b
    ensures a + PAGE_SIZE <= b
  {
    PadDownDivides(a);
    PadDownDivides(b);
  }

  lemma AlignedSum(a: nat, b: nat)
    requires Aligned(a)
    ensures Aligned(a + b) <==> Aligned(b)
  {
    PadDownShifts(b, a);
  }

  lemma PadUpOfAligned(x: Word64)
    requires Aligned(x) && x <= U64 - PAGE_SIZE
    ensures PadUp(x) == x
  {
    PadUpExact(x);
    PadDownDivides(x);
    PadDownDivides(PadUp(x));
  }

  lemma KernelStartAligned()
    ensures Aligned(KERNEL_MOD_SPACE_START) && Aligned(USER_SO_BASE_START)
  {
    PadDownDivides(KERNEL_MOD_SPACE_START);
    PadDownDivides(USER_SO_BASE_START);
  }

  lemma BaseAligned(l: Layout, isKernel: bool)
    requires LayoutOk(l) && NextBase(l, isKernel).Some?
    ensures var base := NextBase(l, isKernel).value;
            Aligned(base) && base >= if isKernel then KERNEL_MOD_SPACE_START else USER_SO_BASE_START
  {
    KernelStartAligned();
    AlignedSum(KERNEL_MOD_SPACE_START, l.kernelOffset);
  }

  /** What one placement adds. */
  lemma Placed(l: Layout, r: Request)
    requires LayoutOk(l) && |r.file| < U64 && Place(l, r).1.Some?
    ensures var (l', o) := Place(l, r);
            ObjectOk(o.value, l') && o.value.base == NextBase(l, r.isKernel).value &&
            l'.objects == l.objects + [o.value] && Aligned(o.value.size) && o.value.size > 0 &&
            l'.kernelOffset == l.kernelOffset + (if r.isKernel then o.value.size else 0) &&
            l'.userNext == l.userNext + (if r.isKernel then 0 else o.value.size) &&
            l'.kernelOffset <= KERNEL_MOD_SPACE_END - KERNEL_MOD_SPACE_START && l'.userNext <= USER_SO_BASE_END
  {
    var base := NextBase(l, r.isKernel).value;
    KernelStartAligned();
    AlignedSum(KERNEL_MOD_SPACE_START, l.kernelOffset);
    Fits(r.file, base, r.isKernel);
    var segs := Segments(r.file);
    var size := High(segs, base, |segs|) - base;
    AlignedSum(base, size);
    PadUpOfAligned(size);
  }

  lemma PlaceKeeps(l: Layout, r: Request)
    requires LayoutOk(l) && |r.file| < U64
    ensures LayoutOk(Place(l, r).0)
  {
    var (l', o) := Place(l, r);
    if o.Some? {
      Placed(l, r);
      AlignedSum(l.kernelOffset, l'.kernelOffset - l.kernelOffset);
      AlignedSum(l.userNext, l'.userNext - l.userNext);
      AllOfThem(l, l', o.value);
    }
  }

  lemma AllOfThem(l: Layout, l': Layout, o: Object)
    requires LayoutOk(l) && l'.objects == l.objects + [o] && ObjectOk(o, l')
    requires l.kernelOffset <= l'.kernelOffset && l.userNext <= l'.userNext
    requires o.base >= if o.isKernel then KERNEL_MOD_SPACE_START + l.kernelOffset else l.userNext
    requires l'.userNext <= KERNEL_MOD_SPACE_START
    ensures forall i | 0 <= i < |l'.objects| :: ObjectOk(l'.objects[i], l')
    ensures forall i, j | 0 <= i < j < |l'.objects| :: Apart(l'.objects[i], l'.objects[j])
  {
    forall i | 0 <= i < |l.objects|
      ensures ObjectOk(l'.objects[i], l') && Apart(l'.objects[i], o)
    {
      assert l'.objects[i] == l.objects[i];
      assert ObjectOk(l.objects[i], l);
    }
  }

  function Run(l: Layout, requests: seq<Request>): (r: Layout)
    requires LayoutOk(l) && forall i | 0 <= i < |requests| :: |requests[i].file| < U64
    ensures LayoutOk(r)
    decreases |requests|
  {
    if requests == [] then l
    else
      PlaceKeeps(l, requests[0]);
      Run(Place(l, requests[0]).0, requests[1..])
  }

  /** The bytes that the objects of one window take. */
  function Taken(objects: seq<Object>, isKernel: bool): nat {
    if objects == [] then 0
    else
      var o := objects[|objects| - 1];
      Taken(objects[..|objects| - 1], isKernel) + if o.isKernel == isKernel then o.size else 0
  }

  function WindowStart(isKernel: bool): Word64 {
    if isKernel then 0xffff_ffff_b000_0000 else 0x4000_0000
  }

  /** Every object lies right behind the earlier ones of its window, and the next free address behind all. */
  ghost predicate Dense(l: Layout) {
    l.kernelOffset == Taken(l.objects, true) && l.userNext == USER_SO_BASE_START + Taken(l.objects, false) &&
    forall i | 0 <= i < |l.objects| ::
      l.objects[i].base == WindowStart(l.objects[i].isKernel) + Taken(l.objects[..i], l.objects[i].isKernel)
  }

  lemma PlaceDense(l: Layout, r: Request)
    requires LayoutOk(l) && Dense(l) && |r.file| < U64
    ensures Dense(Place(l, r).0)
  {
    var (l', o) := Place(l, r);
    if o.Some? {
      Placed(l, r);
      assert l'.objects[..|l.objects|] == l.objects;
      forall i | 0 <= i < |l'.objects|
        ensures l'.objects[i].base == WindowStart(l'.objects[i].isKernel) + Taken(l'.objects[..i], l'.objects[i].isKernel)
      {
        assert l'.objects[..i] == l.objects[..i];
      }
    }
  }

  /** No run leaves gaps between the objects of a window. */
  lemma {:induction false} RunDense(l: Layout, requests: seq<Request>)
    requires LayoutOk(l) && Dense(l) && forall i | 0 <= i < |requests| :: |requests[i].file| < U64
    ensures Dense(Run(l, requests))
    decreases |requests|
  {
    if requests != [] {
      PlaceKeeps(l, requests[0]);
      PlaceDense(l, requests[0]);
      RunDense(Place(l, requests[0]).0, requests[1..]);
    }
  }

  /** Over every run of loads, the pages mapped for two objects never overlap, and
      all lie in the kernel window or the user window. */
  lemma PagesApart(requests: seq<Request>, i: nat, j: nat)
    requires forall k | 0 <= k < |requests| :: |requests[k].file| < U64
    requires i < |Run(Empty(), requests).objects| && j < |Run(Empty(), requests).objects| && i != j
    ensures var l := Run(Empty(), requests);
            ObjectPages(l.objects[i]) !! ObjectPages(l.objects[j]) &&
            forall a | a in ObjectPages(l.objects[i]) ::
              InWindow(a, a + PAGE_SIZE, l.objects[i].isKernel)
  {
    var l := Run(Empty(), requests);
    var a, b := l.objects[i], l.objects[j];
    assert (Apart(a, b) || Apart(b, a)) && ObjectOk(a, l) && ObjectOk(b, l);
    ApartPages(l, a, b);
  }

  lemma ApartPages(l: Layout, a: Object, b: Object)
    requires LayoutOk(l) && ObjectOk(a, l) && ObjectOk(b, l) && Apart(a, b)
    ensures ObjectPages(a) !! ObjectPages(b)
    ensures forall p | p in ObjectPages(a) :: InWindow(p, p + PAGE_SIZE, a.isKernel)
  {
  }

  // ----- the loader -----

  lemma {:induction false} MinBelowMax(file: seq<Byte>, segs: seq<Segment>, base: Word64, n: nat)
    requires n <= |segs| && AllOk(file, segs, base, n)
    ensures AnyLoaded(segs, n) ==> LoadMin(segs, base, n) <= LoadMax(segs, base, n)
  {
    if n > 0 {
      MinBelowMax(file, segs, base, n - 1);
      NextHeader(file, segs, base, n - 1);
    }
  }

  class Loader {
    var kernelOffset: nat
    var userNext: nat
    var objects: seq<Object>
    /** The pages mapped so far. */
    var pages: set<nat>

    ghost function TheLayout(): Layout
      reads this
    {
      Layout(kernelOffset, userNext, objects)
    }

    constructor ()
      ensures TheLayout() == Empty() && pages == {}
    {
      kernelOffset, userNext, objects, pages := 0, USER_SO_BASE_START, [], {};
    }

    /** Maps a fresh frame for every page from the first to the rounded end. */
    method LoadSegment(s: Segment, base: Word64)
      requires Aligned(First(s, base)) && Aligned(Past(s, base))
      modifies this`pages
      ensures pages == old(pages) + Pages(First(s, base), Past(s, base))
    {
      var hi := Past(s, base);
      var i := First(s, base);
      while i < hi
        invariant Aligned(i)
        invariant i <= hi || i == First(s, base)
        invariant pages == old(pages) + Pages(First(s, base), i)
      {
        pages := pages + {i};
        NextPage(i, hi);
        OnePage(First(s, base), i);
        i := i + PAGE_SIZE;
      }
    }

    method MapSegments(file: seq<Byte>, segs: seq<Segment>, base: Word64) returns (loadMin: Word64, loadMax: Word64)
      requires AllOk(file, segs, base, |segs|) && Aligned(base) && PAGE_SIZE <= base
      modifies this`pages
      ensures pages == old(pages) + ImagePages(segs, base, |segs|)
      ensures loadMin == LoadMin(segs, base, |segs|) && loadMax == LoadMax(segs, base, |segs|)
    {
      loadMin, loadMax := U64 - 1, 0;
      var i := 0;
      while i < |segs|
        invariant i <= |segs|
        invariant pages == old(pages) + ImagePages(segs, base, i)
        invariant loadMin == LoadMin(segs, base, i) && loadMax == LoadMax(segs, base, i)
      {
        if segs[i].kind == PT_LOAD {
          OneSegment(file, segs[i], base);
          PadDownAligned(Start(segs[i], base));
          LoadSegment(segs[i], base);
          loadMax := Max(loadMax, End(segs[i], base));
          loadMin := Min(loadMin, Start(segs[i], base));
        }
        i := i + 1;
      }
    }

    /** Validates and maps at `base`; the size check then turns away exactly the files whose rounding wraps. */
    method MapObject(file: seq<Byte>, base: Word64, isKernel: bool) returns (r: Option<nat>)
      requires |file| < U64 && Aligned(base) && base >= if isKernel then KERNEL_MOD_SPACE_START else USER_SO_BASE_START
      modifies this`pages
      ensures r.Some? <==> Placeable(file, base, isKernel)
      ensures r.Some? ==> r.value == ObjectAt(file, base, isKernel).size < U64
      ensures pages == old(pages) + NewPages(Some(base), Request(file, isKernel))
    {
      var validated := ValidateSharedObject(file, base, isKernel);
      if validated.None? {
        return None;
      }
      var segs := Segments(file);
      var loadMin, loadMax := MapSegments(file, segs, base);
      MinBelowMax(file, segs, base, |segs|);
      SizeCheckFires(file, base, isKernel);
      if loadMax - loadMin > validated.value {
        return None;
      }
      return validated;
    }

    method FreeBase(isKernel: bool) returns (base: Option<Word64>)
      requires LayoutOk(TheLayout())
      ensures base == NextBase(TheLayout(), isKernel)
    {
      if isKernel {
        if kernelOffset >= KERNEL_MOD_SPACE_END - KERNEL_MOD_SPACE_START {
          return None;
        }
        return Some(KERNEL_MOD_SPACE_START + kernelOffset);
      }
      if userNext >= USER_SO_BASE_END {
        return None;
      }
      return Some(userNext);
    }

    /** Places the object as specified; an accepted file's pages are mapped even when the size check then fails. */
    method LoadSharedObject(file: seq<Byte>, isKernel: bool) returns (r: Option<Object>)
      requires |file| < U64 && LayoutOk(TheLayout())
      modifies this
      ensures LayoutOk(TheLayout())
      ensures (TheLayout(), r) == Place(old(TheLayout()), Request(file, isKernel))
      ensures pages == old(pages) + NewPages(NextBase(old(TheLayout()), isKernel), Request(file, isKernel))
    {
      ghost var was := TheLayout();
      PlaceKeeps(was, Request(file, isKernel));
      var next := FreeBase(isKernel);
      if next.None? {
        return None;
      }
      var base := next.value;
      BaseAligned(was, isKernel);
      var size := MapObject(file, base, isKernel);
      if size.None? {
        return None;
      }
      if isKernel {
        kernelOffset := kernelOffset + PadUp(size.value);
      } else {
        userNext := userNext + PadUp(size.value);
      }
      var o := Object(Segments(file), base, size.value, isKernel);
      objects := objects + [o];
      assert o == ObjectAt(file, base, isKernel) && TheLayout() == Add(was, o);
      return Some(o);
    }
  }

  lemma OnePage(lo: nat, i: nat)
    requires Aligned(i) && lo <= i
    ensures Pages(lo, i) + {i} == Pages(lo, i + PAGE_SIZE)
  {
    forall a: nat | Aligned(a) && i < a
      ensures a >= i + PAGE_SIZE
    {
      NextPage(i, a);
    }
  }
}
