/** What a run of relocations leaves in memory, in the numbers of section 4.4.1 of the
    System V AMD64 psABI: types, fields and symbols as they lie in memory. */
module PsabiFields {
  import opened Machine
  import opened Elf
  import opened Patches
  import opened Relocation
  import opened Relocator

  /** Entry `k` of the ordinary table. */
  predicate EntryIs(mem: Memory, t: Tables, k: nat, r: Rela) {
    k < t.count && RelaAt(mem, EntryAddress(t, k)) == r
  }

  /** The type and the symbol of an entry, as its second word packs them. */
  predicate Names(r: Rela, kind: nat, index: nat) {
    kind < 0x1_0000_0000 && r.info == 0x1_0000_0000 * index + kind
  }

  /** The run succeeds with separate targets, and memory is `end` then. */
  ghost predicate Ran(h: Handle, mem: Memory, t: Tables, end: Memory) {
    Relocated(h, mem, t) == Outcome(end, true) && SeparateTargets(h, mem, t)
  }

  /** The address found for a symbol of the table. */
  function SymbolAddress(h: Handle, mem: Memory, index: nat): Word64 {
    Resolve(h, SymbolOf(h, mem, index))
  }

  function SymbolSize(h: Handle, mem: Memory, index: nat): nat {
    Load(mem, h.symtab + 24 * index + 16, 8)
  }

  lemma Unpacked(r: Rela, kind: nat, index: nat)
    requires Names(r, kind, index)
    ensures Kind(r) == kind && SymbolIndex(r) == index
  {
  }

  lemma WritesField(r: Rela, kind: nat, index: nat)
    requires Kind(r) == kind && SymbolIndex(r) == index
    requires kind in {8, 37} || (kind in {1, 2, 4, 6, 7, 10, 11, 24, 32, 33} && index != 0)
    ensures HasField(r)
  {
  }

  /** The field of an entry that writes one holds its formula's value, cut to the width. */
  lemma FieldOf(h: Handle, mem: Memory, t: Tables, end: Memory, k: nat, r: Rela, kind: nat, index: nat, width: nat)
    requires Ran(h, mem, t, end) && EntryIs(mem, t, k, r) && Names(r, kind, index)
    requires kind in {8, 37} || (kind in {1, 2, 4, 6, 7, 10, 11, 24, 32, 33} && index != 0)
    requires width == if kind in {2, 4, 10, 11, 32} then 4 else 8
    ensures Kind(r) == kind && SymbolIndex(r) == index
    ensures Load(end, h.base + r.offset, width) == Cut(FieldValue(h, mem, r), width)
  {
    Unpacked(r, kind, index);
    WritesField(r, kind, index);
    FieldHolds(h, mem, t, k, r, end);
    assert Width(kind) == width;
  }

  // ----- types without a symbol -----

  lemma ValueWithBase(h: Handle, mem: Memory, r: Rela, kind: nat)
    requires Kind(r) == kind
    ensures kind == 8 ==> FieldValue(h, mem, r) == (h.base + r.addend) % U64
    ensures kind == 37 ==> FieldValue(h, mem, r) == h.resolver((h.base + r.addend) % U64)
  {
  }

  /** R_X86_64_RELATIVE: base and addend. */
  lemma RelativeField(h: Handle, mem: Memory, t: Tables, end: Memory, k: nat, r: Rela, index: nat)
    requires Ran(h, mem, t, end) && EntryIs(mem, t, k, r) && Names(r, 8, index)
    ensures Load(end, h.base + r.offset, 8) == (h.base + r.addend) % U64
  {
    FieldOf(h, mem, t, end, k, r, 8, index, 8);
    ValueWithBase(h, mem, r, 8);
  }

  lemma MovesBy(h: Handle, h': Handle, r: Rela, field: nat, field': nat, d: nat)
    requires h'.base == h.base + d && field == (h.base + r.addend) % U64 && field' == (h'.base + r.addend) % U64
    ensures field' == (field + d) % U64
  {
    SumMoves(h.base + r.addend, d);
  }

  /** The same entry in an object loaded `d` bytes further on: its field moves by `d`. */
  lemma RelativeMoves(h: Handle, mem: Memory, t: Tables, end: Memory, k: nat,
                      h': Handle, mem': Memory, t': Tables, end': Memory, k': nat, r: Rela, index: nat, d: nat,
                      field: nat, field': nat)
    requires field == Load(end, h.base + r.offset, 8) && field' == Load(end', h'.base + r.offset, 8)
    requires Ran(h, mem, t, end) && EntryIs(mem, t, k, r) && Names(r, 8, index)
    requires Ran(h', mem', t', end') && EntryIs(mem', t', k', r) && h'.base == h.base + d
    ensures field' == (field + d) % U64
  {
    RelativeField(h, mem, t, end, k, r, index);
    RelativeField(h', mem', t', end', k', r, index);
    MovesBy(h, h', r, field, field', d);
  }

  lemma SumMoves(a: nat, d: nat)
    ensures (a + d) % U64 == (a % U64 + d) % U64
  {
  }

  /** R_X86_64_IRELATIVE: what the resolver at base and addend returns. */
  lemma IndirectField(h: Handle, mem: Memory, t: Tables, end: Memory, k: nat, r: Rela, index: nat)
    requires Ran(h, mem, t, end) && EntryIs(mem, t, k, r) && Names(r, 37, index)
    ensures Load(end, h.base + r.offset, 8) == h.resolver((h.base + r.addend) % U64)
  {
    FieldOf(h, mem, t, end, k, r, 37, index, 8);
    ValueWithBase(h, mem, r, 37);
  }

  // ----- types with a symbol -----

  /** What the formulas of the types with an address come to. */
  lemma ValueWithAddress(h: Handle, mem: Memory, r: Rela, kind: nat, index: nat)
    requires Kind(r) == kind && SymbolIndex(r) == index
    ensures kind in {6, 7} ==> FieldValue(h, mem, r) == SymbolAddress(h, mem, index)
    ensures kind in {1, 10, 11} ==> FieldValue(h, mem, r) == (SymbolAddress(h, mem, index) + r.addend) % U64
    ensures kind in {2, 4, 24} ==> FieldValue(h, mem, r) == (SymbolAddress(h, mem, index) + r.addend - (h.base + r.offset)) % U64
  {
  }

  /** R_X86_64_GLOB_DAT and R_X86_64_JUMP_SLOT: the symbol's address. */
  lemma AddressField(h: Handle, mem: Memory, t: Tables, end: Memory, k: nat, r: Rela, kind: nat, index: nat)
    requires Ran(h, mem, t, end) && EntryIs(mem, t, k, r) && Names(r, kind, index) && kind in {6, 7} && index != 0
    ensures Load(end, h.base + r.offset, 8) == SymbolAddress(h, mem, index)
  {
    FieldOf(h, mem, t, end, k, r, kind, index, 8);
    ValueWithAddress(h, mem, r, kind, index);
  }

  /** R_X86_64_64: symbol and addend. */
  lemma SumField(h: Handle, mem: Memory, t: Tables, end: Memory, k: nat, r: Rela, index: nat)
    requires Ran(h, mem, t, end) && EntryIs(mem, t, k, r) && Names(r, 1, index) && index != 0
    ensures Load(end, h.base + r.offset, 8) == (SymbolAddress(h, mem, index) + r.addend) % U64
  {
    FieldOf(h, mem, t, end, k, r, 1, index, 8);
    ValueWithAddress(h, mem, r, 1, index);
  }

  /** A 32-bit field as a signed number. */
  function SignExtended(field: nat): int {
    if field < 0x8000_0000 then field else field - 0x1_0000_0000
  }

  /** `d` bytes from `from`, around the end of the address space if need be, is `to`. */
  predicate Leads(from: nat, d: int, to: nat) {
    (from + d) % U64 == to % U64
  }

  /** `to` is reached from `from` by a signed 32-bit displacement. */
  ghost predicate InReach(from: nat, to: nat) {
    exists d: int :: -0x8000_0000 <= d < 0x8000_0000 && Leads(from, d, to)
  }

  lemma ShortSumValue(h: Handle, mem: Memory, r: Rela, kind: nat, index: nat, field: nat)
    requires Kind(r) == kind && SymbolIndex(r) == index && kind in {10, 11} && field == Cut(FieldValue(h, mem, r), 4)
    ensures var sum := SymbolAddress(h, mem, index) + r.addend;
            field == sum % U64 % 0x1_0000_0000 &&
            (kind == 10 ==> (field == sum % U64 <==> sum % U64 < 0x1_0000_0000)) &&
            (kind == 11 ==> (Leads(0, SignExtended(field), sum) <==> InReach(0, sum)))
  {
    ValueWithAddress(h, mem, r, kind, index);
    ShortSum(FieldValue(h, mem, r), SymbolAddress(h, mem, index) + r.addend);
  }

  /** R_X86_64_32 and R_X86_64_32S: symbol and addend, which the field keeps exactly
      when zeros, or its sign, extend it to the sum. */
  lemma ShortSumField(h: Handle, mem: Memory, t: Tables, end: Memory, k: nat, r: Rela, kind: nat, index: nat)
    requires Ran(h, mem, t, end) && EntryIs(mem, t, k, r) && Names(r, kind, index) && kind in {10, 11} && index != 0
    ensures var sum, field := SymbolAddress(h, mem, index) + r.addend, Load(end, h.base + r.offset, 4);
            field == sum % U64 % 0x1_0000_0000 &&
            (kind == 10 ==> (field == sum % U64 <==> sum % U64 < 0x1_0000_0000)) &&
            (kind == 11 ==> (Leads(0, SignExtended(field), sum) <==> InReach(0, sum)))
  {
    FieldOf(h, mem, t, end, k, r, kind, index, 4);
    ShortSumValue(h, mem, r, kind, index, Load(end, h.base + r.offset, 4));
  }

  lemma ShortSum(value: Word64, sum: nat)
    requires value == sum % U64
    ensures Cut(value, 4) == sum % U64 % 0x1_0000_0000
    ensures Cut(value, 4) == sum % U64 <==> sum % U64 < 0x1_0000_0000
    ensures Leads(0, SignExtended(Cut(value, 4)), sum) <==> InReach(0, sum)
  {
    SignKeeps(0, sum);
  }

  /** Cutting a distance to 32 bits loses nothing exactly within reach. */
  lemma SignKeeps(from: nat, to: nat)
    ensures Leads(from, SignExtended((to - from) % U64 % 0x1_0000_0000), to) <==> InReach(from, to)
  {
    var gap := (to - from) % U64;
    var field := SignExtended(gap % 0x1_0000_0000);
    SameGap(from, to, field);
    if InReach(from, to) {
      var d: int :| -0x8000_0000 <= d < 0x8000_0000 && Leads(from, d, to);
      SameGap(from, to, d);
      ShortGap(gap, d);
    }
  }

  /** A displacement leads from `from` to `to` if and only if it is their distance modulo 2^64. */
  lemma SameGap(from: nat, to: nat, d: int)
    ensures Leads(from, d, to) <==> d % U64 == (to - from) % U64
  {
    ModOfSum(from, d);
    ModOfSum(from, to - from);
  }

  /** The summand can be told from the sum. */
  lemma ModOfSum(a: int, b: int)
    ensures (a + b) % U64 == (a % U64 + b % U64) % U64
  {
  }

  lemma ShortGap(gap: Word64, d: int)
    requires -0x8000_0000 <= d < 0x8000_0000 && d % U64 == gap
    ensures SignExtended(gap % 0x1_0000_0000) == d
  {
    assert gap == if d < 0 then d + U64 else d;
  }

  lemma GapLeads(from: nat, to: nat, gap: Word64)
    requires gap == (to - from) % U64
    ensures Leads(from, gap, to)
  {
    SameGap(from, to, gap);
  }

  lemma ShortGapLeads(from: nat, to: nat, gap: Word64)
    requires gap == (to - from) % U64
    ensures Leads(from, SignExtended(Cut(gap, 4)), to) <==> InReach(from, to)
  {
    SignKeeps(from, to);
  }

  /** A field that holds a distance, whole or cut to 32 bits. */
  lemma DistanceValue(h: Handle, mem: Memory, r: Rela, kind: nat, index: nat, field: nat)
    requires Kind(r) == kind && SymbolIndex(r) == index && kind in {2, 4, 24}
    requires field == Cut(FieldValue(h, mem, r), if kind == 24 then 8 else 4)
    ensures var p, to := h.base + r.offset, SymbolAddress(h, mem, index) + r.addend;
            if kind == 24 then Leads(p, field, to) else Leads(p, SignExtended(field), to) <==> InReach(p, to)
  {
    var p, to := h.base + r.offset, SymbolAddress(h, mem, index) + r.addend;
    ValueWithAddress(h, mem, r, kind, index);
    GapLeads(p, to, FieldValue(h, mem, r));
    ShortGapLeads(p, to, FieldValue(h, mem, r));
  }

  /** R_X86_64_PC64: place and field together are symbol and addend. */
  lemma Distance64(h: Handle, mem: Memory, t: Tables, end: Memory, k: nat, r: Rela, index: nat)
    requires Ran(h, mem, t, end) && EntryIs(mem, t, k, r) && Names(r, 24, index) && index != 0
    ensures Leads(h.base + r.offset, Load(end, h.base + r.offset, 8), SymbolAddress(h, mem, index) + r.addend)
  {
    FieldOf(h, mem, t, end, k, r, 24, index, 8);
    DistanceValue(h, mem, r, 24, index, Load(end, h.base + r.offset, 8));
  }

  /** R_X86_64_PC32 and R_X86_64_PLT32: the field leads from the place to symbol and addend
      exactly when a 32-bit displacement does. */
  lemma Distance32(h: Handle, mem: Memory, t: Tables, end: Memory, k: nat, r: Rela, kind: nat, index: nat)
    requires Ran(h, mem, t, end) && EntryIs(mem, t, k, r) && Names(r, kind, index) && kind in {2, 4} && index != 0
    ensures var p, to := h.base + r.offset, SymbolAddress(h, mem, index) + r.addend;
            Leads(p, SignExtended(Load(end, p, 4)), to) <==> InReach(p, to)
  {
    FieldOf(h, mem, t, end, k, r, kind, index, 4);
    DistanceValue(h, mem, r, kind, index, Load(end, h.base + r.offset, 4));
  }

  /** R_X86_64_SIZE32 and R_X86_64_SIZE64: the symbol's size and the addend. */
  lemma SizeField(h: Handle, mem: Memory, t: Tables, end: Memory, k: nat, r: Rela, kind: nat, index: nat)
    requires Ran(h, mem, t, end) && EntryIs(mem, t, k, r) && Names(r, kind, index) && kind in {32, 33} && index != 0
    ensures var sum := (SymbolSize(h, mem, index) + r.addend) % U64;
            if kind == 33 then Load(end, h.base + r.offset, 8) == sum
            else Load(end, h.base + r.offset, 4) == sum % 0x1_0000_0000
  {
    FieldOf(h, mem, t, end, k, r, kind, index, if kind == 33 then 8 else 4);
    ValueWithSize(h, mem, r, kind, index);
  }

  lemma SizeIs(h: Handle, mem: Memory, index: nat)
    requires index != 0
    ensures SymbolOf(h, mem, index).size == SymbolSize(h, mem, index)
  {
  }

  lemma SizeValue(h: Handle, mem: Memory, r: Rela, sym: Symbol, kind: nat)
    requires Kind(r) == kind && kind in {32, 33} && sym == SymbolOf(h, mem, SymbolIndex(r))
    ensures FieldValue(h, mem, r) == (sym.size + r.addend) % U64
  {
  }

  lemma ValueWithSize(h: Handle, mem: Memory, r: Rela, kind: nat, index: nat)
    requires Kind(r) == kind && SymbolIndex(r) == index && kind in {32, 33} && index != 0
    ensures FieldValue(h, mem, r) == (SymbolSize(h, mem, index) + r.addend) % U64
  {
    SizeIs(h, mem, index);
    SizeValue(h, mem, r, SymbolOf(h, mem, index), kind);
  }

  lemma CopyMeans(h: Handle, mem: Memory, r: Rela, end: Memory, index: nat, i: nat)
    requires RelaEffect(h, mem, r).Write? && Holds(end, RelaEffect(h, mem, r).at, RelaEffect(h, mem, r).bytes)
    requires Kind(r) == 5 && SymbolIndex(r) == index != 0
    requires i < SymbolSize(h, mem, index) && SymbolAddress(h, mem, index) != 0
    ensures At(end, h.base + r.offset + i) == At(mem, SymbolAddress(h, mem, index) + i)
  {
    CopyWrites(h, mem, r);
    var from, size := SymbolAddress(h, mem, index), SymbolSize(h, mem, index);
    EffectHeld(end, RelaEffect(h, mem, r), h.base + r.offset, Slice(mem, from, size));
    CopyHeld(end, h.base + r.offset, mem, from, size, i);
  }

  lemma EffectHeld(end: Memory, w: Effect, at: nat, bytes: seq<Byte>)
    requires w == Effect.Write(at, bytes) && Holds(end, w.at, w.bytes)
    ensures Holds(end, at, bytes)
  {
  }

  lemma CopyHeld(end: Memory, at: nat, mem: Memory, from: nat, size: nat, i: nat)
    requires Holds(end, at, Slice(mem, from, size)) && i < size
    ensures At(end, at + i) == At(mem, from + i)
  {
    assert Slice(mem, from, size)[i] == At(mem, from + i);
  }

  lemma CopyWrites(h: Handle, mem: Memory, r: Rela)
    requires RelaEffect(h, mem, r).Write? && Kind(r) == 5 && SymbolIndex(r) != 0 && SymbolAddress(h, mem, SymbolIndex(r)) != 0
    ensures RelaEffect(h, mem, r) ==
      Write(h.base + r.offset, Slice(mem, SymbolAddress(h, mem, SymbolIndex(r)), SymbolSize(h, mem, SymbolIndex(r))))
  {
  }

  // ----- what makes a run succeed -----

  /** The bytes of the image an entry claims: a 32-bit field, the copied symbol, or 64 bits. */
  function Claimed(h: Handle, mem: Memory, kind: nat, index: nat): nat {
    if kind in {2, 4, 10, 11, 32} then 4 else if kind == 5 && index != 0 then SymbolSize(h, mem, index) else 8
  }

  /** A symbol without an address is tolerated if it is weak. */
  predicate Found(h: Handle, mem: Memory, index: nat) {
    SymbolAddress(h, mem, index) != 0 || At(mem, h.symtab + 24 * index + 4) / 16 == 2
  }

  /** The type is known, the symbol's number is in the table, the target lies in the image,
      and the symbol whose address is needed is found. */
  predicate EntryOk(h: Handle, mem: Memory, r: Rela, kind: nat, index: nat) {
    EntryFits(h, r, kind, index, Claimed(h, mem, kind, index), index != 0 && Found(h, mem, index))
  }

  predicate EntryFits(h: Handle, r: Rela, kind: nat, index: nat, claimed: nat, found: bool) {
    kind in {0, 1, 2, 4, 5, 6, 7, 8, 10, 11, 24, 32, 33, 37} && h.base + r.offset < U64 &&
    (index != 0 ==> h.symtab != 0 && index < h.symCount) &&
    (kind != 0 ==> RangeLoaded(h, h.base + r.offset, claimed)) &&
    (kind in {1, 2, 4, 5, 6, 7, 10, 11, 24} && index != 0 ==> found)
  }

  /** An entry of the procedure linkage table needs a symbol, whatever its type. */
  predicate PltEntryOk(h: Handle, mem: Memory, r: Rela, index: nat) {
    h.base + r.offset < U64 && index != 0 && h.symtab != 0 && index < h.symCount &&
    RangeLoaded(h, h.base + r.offset, 8) && Found(h, mem, index)
  }

  /** Entry `k` of the run is one of those. */
  predicate Entries(h: Handle, mem: Memory, t: Tables, k: nat) {
    var r := RelaAt(mem, EntryAddress(t, k));
    if k < t.count then EntryOk(h, mem, r, Kind(r), SymbolIndex(r)) else PltEntryOk(h, mem, r, SymbolIndex(r))
  }

  lemma SymbolParts(h: Handle, mem: Memory, index: nat)
    requires index != 0
    ensures SymbolOf(h, mem, index).size == SymbolSize(h, mem, index)
    ensures SymbolOf(h, mem, index).info == At(mem, h.symtab + 24 * index + 4)
  {
  }

  lemma SymbolWritesIf(h: Handle, mem: Memory, r: Rela, sym: Symbol, kind: nat, index: nat, claimed: nat)
    requires Kind(r) == kind && SymbolIndex(r) == index && sym == SymbolOf(h, mem, index)
    requires claimed == if kind in {2, 4, 10, 11, 32} then 4 else if kind == 5 && index != 0 then sym.size else 8
    ensures RelaEffect(h, mem, r).Write? <==>
      EntryFits(h, r, kind, index, claimed, index != 0 && (Resolve(h, sym) != 0 || sym.info / 16 == 2))
  {
  }

  lemma EntryWritesIf(h: Handle, mem: Memory, r: Rela, kind: nat, index: nat)
    requires Kind(r) == kind && SymbolIndex(r) == index
    ensures RelaEffect(h, mem, r).Write? <==> EntryOk(h, mem, r, kind, index)
  {
    SymbolMeans(h, mem, kind, index, SymbolOf(h, mem, index));
    SymbolWritesIf(h, mem, r, SymbolOf(h, mem, index), kind, index, Claimed(h, mem, kind, index));
  }

  lemma SymbolMeans(h: Handle, mem: Memory, kind: nat, index: nat, sym: Symbol)
    requires sym == SymbolOf(h, mem, index)
    ensures Claimed(h, mem, kind, index) ==
      if kind in {2, 4, 10, 11, 32} then 4 else if kind == 5 && index != 0 then sym.size else 8
    ensures index != 0 ==> (Found(h, mem, index) <==> Resolve(h, sym) != 0 || sym.info / 16 == 2)
  {
    if index != 0 {
      SymbolParts(h, mem, index);
    }
  }

  lemma PltEntryWritesIf(h: Handle, mem: Memory, r: Rela, index: nat)
    requires SymbolIndex(r) == index
    ensures PltEffect(h, mem, r).Write? <==> PltEntryOk(h, mem, r, index)
  {
    if index != 0 {
      SymbolParts(h, mem, index);
    }
  }

  /** With separate targets, the run succeeds if and only if all its entries are such. */
  lemma SucceedsIff(h: Handle, mem: Memory, t: Tables)
    requires SeparateTargets(h, mem, t)
    ensures Relocated(h, mem, t).done <==> forall k: nat | k < Total(t) :: Entries(h, mem, t, k)
  {
    SucceedsExactly(h, mem, t);
    forall k: nat | k < Total(t)
      ensures EffectOf(h, mem, t, k).Write? <==> Entries(h, mem, t, k)
    {
      OneSucceedsIf(h, mem, t, k);
    }
  }

  lemma OneSucceedsIf(h: Handle, mem: Memory, t: Tables, k: nat)
    ensures EffectOf(h, mem, t, k).Write? <==> Entries(h, mem, t, k)
  {
    var r := RelaAt(mem, EntryAddress(t, k));
    EntryWritesIf(h, mem, r, Kind(r), SymbolIndex(r));
    PltEntryWritesIf(h, mem, r, SymbolIndex(r));
  }

  // ----- how entries and symbols lie in memory -----

  /** An entry written little-endian is read back. */
  lemma WrittenEntry(mem: Memory, t: Tables, k: nat, offset: Word64, info: Word64, addend: Word64)
    requires k < t.count && Stores(mem, t.rela + 24 * k, offset, 8)
    requires Stores(mem, t.rela + 24 * k + 8, info, 8) && Stores(mem, t.rela + 24 * k + 16, addend, 8)
    ensures EntryIs(mem, t, k, Rela(offset, info, addend))
  {
    WordLoads(mem, t.rela + 24 * k, offset);
    WordLoads(mem, t.rela + 24 * k + 8, info);
    WordLoads(mem, t.rela + 24 * k + 16, addend);
  }

  lemma WordLoads(mem: Memory, a: nat, v: Word64)
    requires Stores(mem, a, v, 8)
    ensures Load(mem, a, 8) == v
  {
    Limits();
    StoredLoads(mem, a, v, 8);
  }

  /** A symbol written little-endian is read back. */
  lemma WrittenSymbol(h: Handle, mem: Memory, index: nat, s: Symbol, p: nat)
    requires index != 0 && p == h.symtab + 24 * index
    requires s.name < 0x1_0000_0000 && s.shndx < 0x1_0000 && s.value < U64 && s.size < U64
    requires Stores(mem, p, s.name, 4) && At(mem, p + 4) == s.info && At(mem, p + 5) == s.other
    requires Stores(mem, p + 6, s.shndx, 2) && Stores(mem, p + 8, s.value, 8) && Stores(mem, p + 16, s.size, 8)
    ensures SymbolOf(h, mem, index) == s
  {
    ShortLoads(mem, p, s.name, p + 6, s.shndx);
    WordLoads(mem, p + 8, s.value);
    WordLoads(mem, p + 16, s.size);
  }

  lemma ShortLoads(mem: Memory, a: nat, v: nat, b: nat, w: nat)
    requires v < 0x1_0000_0000 && Stores(mem, a, v, 4) && w < 0x1_0000 && Stores(mem, b, w, 2)
    ensures Load(mem, a, 4) == v && Load(mem, b, 2) == w
  {
    Limits();
    StoredLoads(mem, a, v, 4);
    StoredLoads(mem, b, w, 2);
  }

  // ----- what a symbol stands for -----

  /** The symbol has a section, and its bytes, or the byte at its address, are in the image. */
  predicate DefinedAt(h: Handle, mem: Memory, p: nat) {
    Load(mem, p + 6, 2) != 0 &&
    RangeLoaded(h, h.base + Load(mem, p + 8, 8), if Load(mem, p + 16, 8) != 0 then Load(mem, p + 16, 8) else 1)
  }

  /** Binding 0 is local; a visibility other than 0 keeps a symbol to its image. */
  predicate OwnOnly(mem: Memory, p: nat) {
    At(mem, p + 4) / 16 == 0 || At(mem, p + 5) % 4 != 0
  }

  lemma SymbolFieldsAt(h: Handle, mem: Memory, index: nat, p: nat)
    requires index != 0 && p == h.symtab + 24 * index
    ensures SymbolOf(h, mem, index) == Symbol(Load(mem, p, 4), At(mem, p + 4), At(mem, p + 5), Load(mem, p + 6, 2), Load(mem, p + 8, 8), Load(mem, p + 16, 8))
  {
  }

  lemma SymbolIs(h: Handle, mem: Memory, index: nat, p: nat, sym: Symbol)
    requires index != 0 && p == h.symtab + 24 * index && sym == SymbolOf(h, mem, index)
    ensures DefinedAt(h, mem, p) <==> DefinedIn(h, sym)
    ensures OwnOnly(mem, p) <==> Private(sym)
    ensures Load(mem, p + 6, 2) == 0 <==> sym.shndx == SHN_UNDEF
    ensures sym.name == Load(mem, p, 4) && sym.value == Load(mem, p + 8, 8)
  {
    SymbolFieldsAt(h, mem, index, p);
  }

  /** A symbol defined in the image for the image only, or with no address known by its name, stands for base and
      value, and any other one for the address known by its name; a definition outside the image for nothing. */
  lemma AddressFound(h: Handle, mem: Memory, index: nat, p: nat, named: Word64)
    requires index != 0 && p == h.symtab + 24 * index && named == h.lookup(Load(mem, p, 4))
    ensures DefinedAt(h, mem, p) && (OwnOnly(mem, p) || named == 0) ==> SymbolAddress(h, mem, index) == h.base + Load(mem, p + 8, 8)
    ensures DefinedAt(h, mem, p) && !OwnOnly(mem, p) && named != 0 ==> SymbolAddress(h, mem, index) == named
    ensures Load(mem, p + 6, 2) == 0 ==> SymbolAddress(h, mem, index) == named
    ensures Load(mem, p + 6, 2) != 0 && !DefinedAt(h, mem, p) ==> SymbolAddress(h, mem, index) == 0
  {
    SymbolIs(h, mem, index, p, SymbolOf(h, mem, index));
    ResolvedSymbol(h, SymbolOf(h, mem, index));
  }

  // ----- what is in the image -----

  predicate SegmentHas(h: Handle, s: Segment, a: nat) {
    s.kind == 1 && h.base + s.vaddr + s.memsz < U64 && h.base + s.vaddr <= a < h.base + s.vaddr + s.memsz
  }

  predicate SegmentHasAll(h: Handle, s: Segment, at: nat, n: nat) {
    forall a | at <= a < at + n :: SegmentHas(h, s, a)
  }

  lemma CoversIs(h: Handle, s: Segment, at: nat, n: nat)
    requires n > 0
    ensures Covers(h.base, s, at, n) <==> SegmentHasAll(h, s, at, n)
  {
    if SegmentHasAll(h, s, at, n) {
      assert SegmentHas(h, s, at) && SegmentHas(h, s, at + n - 1);
    }
  }

  /** A range is in the image if one segment to load, which does not overflow, has every byte of it. */
  lemma RangeIsBytes(h: Handle, at: nat, n: nat)
    ensures RangeLoaded(h, at, n) <==>
      n > 0 && at + n < U64 && exists i | 0 <= i < |h.segs| :: SegmentHasAll(h, h.segs[i], at, n)
  {
    if n > 0 {
      forall i | 0 <= i < |h.segs|
        ensures Covers(h.base, h.segs[i], at, n) <==> SegmentHasAll(h, h.segs[i], at, n)
      {
        CoversIs(h, h.segs[i], at, n);
      }
    }
  }

  // ----- the dynamic section -----

  /** Entry `i` is the last of its tag before the terminator. */
  predicate LastWith(dyn: seq<Dyn>, n: nat, i: nat, tag: nat) {
    i < n <= |dyn| && dyn[i].tag == tag && forall k | i < k < n :: dyn[k].tag != tag
  }

  predicate NoneWith(dyn: seq<Dyn>, n: nat, tag: nat) {
    n <= |dyn| && forall k | 0 <= k < n :: dyn[k].tag != tag
  }

  lemma {:induction false} LastIs(dyn: seq<Dyn>, n: nat, i: nat, tag: nat, default: nat)
    requires LastWith(dyn, n, i, tag)
    ensures LastOf(dyn, n, tag, default) == dyn[i].val
    decreases n
  {
    if i < n - 1 {
      LastIs(dyn, n - 1, i, tag, default);
    }
  }

  lemma {:induction false} NoneIs(dyn: seq<Dyn>, n: nat, tag: nat, default: nat)
    requires NoneWith(dyn, n, tag)
    ensures LastOf(dyn, n, tag, default) == default
    decreases n
  {
    if n > 0 {
      NoneIs(dyn, n - 1, tag, default);
    }
  }

  /** An entry that gives `value` for the tag counts, as does the value that stands where no entry does. */
  predicate Gives(dyn: seq<Dyn>, n: nat, tag: nat, value: nat, default: nat) {
    (NoneWith(dyn, n, tag) && value == default) || exists i | 0 <= i < n :: LastWith(dyn, n, i, tag) && dyn[i].val == value
  }

  lemma GivenIs(dyn: seq<Dyn>, n: nat, tag: nat, value: nat, default: nat)
    requires n <= |dyn| && Gives(dyn, n, tag, value, default)
    ensures LastOf(dyn, n, tag, default) == value
  {
    if NoneWith(dyn, n, tag) && value == default {
      NoneIs(dyn, n, tag, default);
    } else {
      var i :| 0 <= i < n && LastWith(dyn, n, i, tag) && dyn[i].val == value;
      LastIs(dyn, n, i, tag, default);
    }
  }

  /** Entries are 24 bytes, those of the linkage table are of the kind of tag 7 in its low 32 bits, and a
      table of any length is whole entries in the image. */
  predicate SectionsFit(h: Handle, relaent: nat, pltrel: nat, rela: nat, relasz: nat, jmprel: nat, pltrelsz: nat) {
    relaent == 24 && pltrel % 0x1_0000_0000 == 7 && relasz % 24 == 0 && pltrelsz % 24 == 0 &&
    (relasz > 0 ==> Pointer(h, rela) != 0 && RangeLoaded(h, Pointer(h, rela), relasz)) &&
    (pltrelsz > 0 ==> Pointer(h, jmprel) != 0 && RangeLoaded(h, Pointer(h, jmprel), pltrelsz))
  }

  /** Relocation succeeds if and only if the dynamic section describes tables that fit, and every entry can be applied;
      otherwise nothing is written for a section that does not fit. */
  lemma ProcessedExactly(h: Handle, mem: Memory, dyn: seq<Dyn>, n: nat, relaent: nat, pltrel: nat,
                         rela: nat, relasz: nat, jmprel: nat, pltrelsz: nat)
    requires n <= |dyn| && Gives(dyn, n, 9, relaent, 24) && Gives(dyn, n, 20, pltrel, 7)
    requires Gives(dyn, n, 7, rela, 0) && Gives(dyn, n, 8, relasz, 0) && Gives(dyn, n, 23, jmprel, 0) && Gives(dyn, n, 2, pltrelsz, 0)
    ensures var fits := SectionsFit(h, relaent, pltrel, rela, relasz, jmprel, pltrelsz);
            var t := Tables(Pointer(h, rela), relasz / 24, Pointer(h, jmprel), pltrelsz / 24);
            (!fits ==> Processed(h, mem, dyn, n) == Outcome(mem, false)) &&
            (fits ==> Processed(h, mem, dyn, n) == Relocated(h, mem, t)) &&
            (fits && SeparateTargets(h, mem, t) ==>
               (Processed(h, mem, dyn, n).done <==> forall k: nat | k < Total(t) :: Entries(h, mem, t, k)))
  {
    GivenIs(dyn, n, 9, relaent, 24);
    GivenIs(dyn, n, 20, pltrel, 7);
    GivenIs(dyn, n, 7, rela, 0);
    GivenIs(dyn, n, 8, relasz, 0);
    GivenIs(dyn, n, 23, jmprel, 0);
    GivenIs(dyn, n, 2, pltrelsz, 0);
    var t := Tables(Pointer(h, rela), relasz / 24, Pointer(h, jmprel), pltrelsz / 24);
    if SeparateTargets(h, mem, t) {
      SucceedsIff(h, mem, t);
    }
  }
}
