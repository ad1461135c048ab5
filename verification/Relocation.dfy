/** Relocation of a mapped shared object: the tables are read from memory entry
    by entry, and every entry patches a few bytes of it. */
module Relocation {
  import opened Machine
  import opened Elf
  import opened Patches

  const RELA_SIZE: nat := 24
  const SYM_SIZE: nat := 24

  const DT_PLTRELSZ: nat := 2
  const DT_RELA: nat := 7
  const DT_RELASZ: nat := 8
  const DT_RELAENT: nat := 9
  const DT_PLTREL: nat := 20
  const DT_JMPREL: nat := 23

  const R_NONE: nat := 0
  const R_64: nat := 1
  const R_PC32: nat := 2
  const R_PLT32: nat := 4
  const R_COPY: nat := 5
  const R_GLOB_DAT: nat := 6
  const R_JUMP_SLOT: nat := 7
  const R_RELATIVE: nat := 8
  const R_32: nat := 10
  const R_32S: nat := 11
  const R_PC64: nat := 24
  const R_SIZE32: nat := 32
  const R_SIZE64: nat := 33
  const R_IRELATIVE: nat := 37

  const STB_LOCAL: nat := 0
  const STB_WEAK: nat := 2
  const STV_DEFAULT: nat := 0
  const SHN_UNDEF: nat := 0

  // ----- entries and symbols -----

  /** What is known of the object: its base, its program headers, its symbol
      table, the addresses found by name, and what its IFUNC resolvers return. */
  datatype Handle = Handle(base: Word64, segs: seq<Segment>, symtab: nat, symCount: nat,
                           lookup: nat -> Word64, resolver: Word64 -> Word64)

  datatype Rela = Rela(offset: nat, info: nat, addend: nat)

  datatype Symbol = Symbol(name: nat, info: Byte, other: Byte, shndx: nat, value: nat, size: nat)

  function RelaAt(mem: Memory, a: nat): Rela {
    Rela(Load(mem, a, 8), Load(mem, a + 8, 8), Load(mem, a + 16, 8))
  }

  function SymbolAt(mem: Memory, a: nat): Symbol {
    Symbol(Load(mem, a, 4), At(mem, a + 4), At(mem, a + 5), Load(mem, a + 6, 2), Load(mem, a + 8, 8), Load(mem, a + 16, 8))
  }

  function Kind(r: Rela): nat { r.info % 0x1_0000_0000 }

  function SymbolIndex(r: Rela): nat { r.info / 0x1_0000_0000 }

  function Binding(s: Symbol): nat { s.info / 16 }

  function Visibility(s: Symbol): nat { s.other % 4 }

  function Mod64(x: int): Word64 { x % U64 }

  /** `address .. address + length` lies in one loaded segment. */
  predicate RangeLoaded(h: Handle, address: nat, length: nat) {
    length > 0 && address + length < U64 && exists i | 0 <= i < |h.segs| :: Covers(h.base, h.segs[i], address, length)
  }

  predicate Covers(base: Word64, s: Segment, address: nat, length: nat) {
    s.kind == PT_LOAD && base + s.vaddr + s.memsz < U64 &&
    base + s.vaddr <= address && address + length <= base + s.vaddr + s.memsz
  }

  /** A byte of a loaded segment. */
  predicate Loaded(h: Handle, a: nat) {
    exists i | 0 <= i < |h.segs| :: Covers(h.base, h.segs[i], a, 1)
  }

  /** The address a symbol stands for, zero if none is found. */
  function Resolve(h: Handle, s: Symbol): Word64 {
    var defined := s.shndx != SHN_UNDEF;
    if defined && (h.base + s.value >= U64 || !RangeLoaded(h, h.base + s.value, if s.size != 0 then s.size else 1)) then 0
    else if defined && (Binding(s) == STB_LOCAL || Visibility(s) != STV_DEFAULT) then h.base + s.value
    else if h.lookup(s.name) != 0 then h.lookup(s.name)
    else if defined then h.base + s.value
    else 0
  }

  // ----- the formulas of the System V AMD64 psABI, section 4.4.1 -----

  datatype Formula = Nothing | S | SA | SAP | BA | ZA | Indirect | CopyOf | Unknown

  function FormulaOf(kind: nat): Formula {
    if kind == R_NONE then Nothing
    else if kind == R_GLOB_DAT || kind == R_JUMP_SLOT then S
    else if kind == R_64 || kind == R_32 || kind == R_32S then SA
    else if kind == R_PC32 || kind == R_PLT32 || kind == R_PC64 then SAP
    else if kind == R_RELATIVE then BA
    else if kind == R_SIZE32 || kind == R_SIZE64 then ZA
    else if kind == R_IRELATIVE then Indirect
    else if kind == R_COPY then CopyOf
    else Unknown
  }

  /** The width of the field a type relocates. */
  function Width(kind: nat): nat {
    if kind in {R_PC32, R_PLT32, R_32, R_32S, R_SIZE32} then 4 else 8
  }

  /** The value of a formula for symbol address `s`, addend `a`, place `p`, base `b` and symbol size `z`. */
  function Value(f: Formula, h: Handle, s: Word64, a: nat, p: nat, z: nat): Word64 {
    match f
    case S => s
    case SA => Mod64(s + a)
    case SAP => Mod64(s + a - p)
    case BA => Mod64(h.base + a)
    case ZA => Mod64(z + a)
    case Indirect => h.resolver(Mod64(h.base + a))
    case _ => 0
  }

  predicate UsesSymbol(f: Formula) { f in {S, SA, SAP, ZA, CopyOf} }

  predicate UsesAddress(f: Formula) { f in {S, SA, SAP, CopyOf} }

  /** A symbol reference is in range, and a strong symbol has an address. */
  predicate SymbolUsable(h: Handle, index: nat) {
    index == 0 || (h.symtab != 0 && index < h.symCount)
  }

  const NO_SYMBOL: Symbol := Symbol(0, 0, 0, 0, 0, 0)

  function SymbolOf(h: Handle, mem: Memory, index: nat): Symbol {
    if index == 0 then NO_SYMBOL else SymbolAt(mem, h.symtab + index * 24)
  }

  /** An entry of the ordinary table, with the symbol it names. */
  function EffectWith(h: Handle, mem: Memory, r: Rela, sym: Symbol): Effect {
    var kind, index, f, p := Kind(r), SymbolIndex(r), FormulaOf(Kind(r)), h.base + r.offset;
    var width := if f == CopyOf && index != 0 then sym.size else Width(kind);
    if f == Nothing then Write(p, [])
    else if !RangeLoaded(h, p, width) || f == Unknown then Fail
    else if UsesSymbol(f) && index == 0 then Write(p, [])
    else
      var s := if UsesAddress(f) then Resolve(h, sym) else 0;
      if UsesAddress(f) && s == 0 && Binding(sym) != STB_WEAK then Fail
      else if f == CopyOf then Write(p, if s == 0 then [] else Slice(mem, s, sym.size))
      else Write(p, Bytes(Value(f, h, s, r.addend, p, sym.size), width))
  }

  /** An entry of the ordinary table. */
  function RelaEffect(h: Handle, mem: Memory, r: Rela): Effect {
    if h.base + r.offset >= U64 || !SymbolUsable(h, SymbolIndex(r)) then Fail
    else EffectWith(h, mem, r, SymbolOf(h, mem, SymbolIndex(r)))
  }

  /** An entry of the procedure linkage table: always the symbol's address, in 64 bits. */
  function PltEffect(h: Handle, mem: Memory, r: Rela): Effect {
    var index := SymbolIndex(r);
    if h.base + r.offset >= U64 || index == 0 || !SymbolUsable(h, index) then Fail
    else
      var p := h.base + r.offset;
      var sym := SymbolOf(h, mem, index);
      var s := Resolve(h, sym);
      if !RangeLoaded(h, p, 8) || (s == 0 && Binding(sym) != STB_WEAK) then Fail
      else Write(p, Bytes(s, 8))
  }

  // ----- a whole run -----

  /** The two tables: where they are, and how many entries they have. */
  datatype Tables = Tables(rela: nat, count: nat, jmprel: nat, pltCount: nat)

  function Total(t: Tables): nat { t.count + t.pltCount }

  function EntryAddress(t: Tables, k: nat): nat {
    if k < t.count then t.rela + k * 24 else t.jmprel + (k - t.count) * 24
  }

  /** What entry `k` does when it is reached with memory `mem`. */
  function EffectOf(h: Handle, mem: Memory, t: Tables, k: nat): Effect {
    var r := RelaAt(mem, EntryAddress(t, k));
    if k < t.count then RelaEffect(h, mem, r) else PltEffect(h, mem, r)
  }

  function Effects(h: Handle, t: Tables): (Memory, nat) -> Effect {
    (m, k) => EffectOf(h, m, t, k)
  }

  /** Memory after all entries, in order, each read when its turn comes, up to the first that fails. */
  function Relocated(h: Handle, mem: Memory, t: Tables): Outcome {
    Run(Effects(h, t), mem, 0, Total(t))
  }

  /** Every write is inside a loaded segment. */
  lemma RelaInside(h: Handle, mem: Memory, r: Rela)
    requires RelaEffect(h, mem, r).Write? && RelaEffect(h, mem, r).bytes != []
    ensures var w := RelaEffect(h, mem, r); RangeLoaded(h, w.at, |w.bytes|)
  {
  }

  lemma PltInside(h: Handle, mem: Memory, r: Rela)
    requires PltEffect(h, mem, r).Write?
    ensures var w := PltEffect(h, mem, r); RangeLoaded(h, w.at, |w.bytes|)
  {
  }

  lemma RangeBytes(h: Handle, at: nat, n: nat, a: nat)
    requires RangeLoaded(h, at, n) && at <= a < at + n
    ensures Loaded(h, a)
  {
    var i :| 0 <= i < |h.segs| && Covers(h.base, h.segs[i], at, n);
    assert Covers(h.base, h.segs[i], a, 1);
  }

  lemma EffectInside(h: Handle, mem: Memory, t: Tables, k: nat, a: nat)
    requires Targets(EffectOf(h, mem, t, k), a)
    ensures Loaded(h, a)
  {
    var r := RelaAt(mem, EntryAddress(t, k));
    var w := EffectOf(h, mem, t, k);
    if k < t.count {
      RelaInside(h, mem, r);
    } else {
      PltInside(h, mem, r);
    }
    RangeBytes(h, w.at, |w.bytes|, a);
  }

  /** A run, successful or not, changes bytes of loaded segments only. */
  lemma OnlyLoadedBytes(h: Handle, mem: Memory, t: Tables)
    ensures forall a: nat | !Loaded(h, a) :: At(Relocated(h, mem, t).mem, a) == At(mem, a)
  {
    var inside := (a: nat) => Loaded(h, a);
    forall m: Memory, k: nat | k < Total(t)
      ensures StepIn(inside, Effects(h, t)(m, k))
    {
      forall a: nat | Targets(Effects(h, t)(m, k), a)
        ensures inside(a)
      {
        EffectInside(h, m, t, k, a);
      }
    }
    RunIn(Effects(h, t), inside, mem, 0, Total(t));
  }

  /** The definition is meant for its own image only. */
  predicate Private(s: Symbol) {
    Binding(s) == STB_LOCAL || Visibility(s) != STV_DEFAULT
  }

  /** The definition lies in the image. */
  predicate DefinedIn(h: Handle, s: Symbol) {
    s.shndx != SHN_UNDEF && RangeLoaded(h, h.base + s.value, if s.size != 0 then s.size else 1)
  }

  /** A definition outside the image has no address, a private one its own. For the others the name
      wins; a definition without a known name has its own address, which is a byte of the image. */
  lemma ResolvedSymbol(h: Handle, s: Symbol)
    ensures DefinedIn(h, s) ==> Loaded(h, h.base + s.value) && Resolve(h, s) in {h.base + s.value, h.lookup(s.name)}
    ensures DefinedIn(h, s) && (Private(s) || h.lookup(s.name) == 0) ==> Resolve(h, s) == h.base + s.value
    ensures (s.shndx == SHN_UNDEF || (DefinedIn(h, s) && !Private(s))) && h.lookup(s.name) != 0 ==> Resolve(h, s) == h.lookup(s.name)
    ensures Resolve(h, s) != 0 ==> DefinedIn(h, s) || (s.shndx == SHN_UNDEF && h.lookup(s.name) != 0)
  {
    if DefinedIn(h, s) {
      RangeBytes(h, h.base + s.value, if s.size != 0 then s.size else 1, h.base + s.value);
    }
  }

  // ----- separate targets -----

  /** A byte of the tables the run reads. */
  predicate InTables(h: Handle, t: Tables, a: nat) {
    t.rela <= a < t.rela + t.count * 24 || t.jmprel <= a < t.jmprel + t.pltCount * 24 ||
    h.symtab <= a < h.symtab + h.symCount * 24
  }

  /** A byte that entry `r` copies from. */
  predicate CopySource(h: Handle, mem: Memory, r: Rela, a: nat) {
    var sym := SymbolOf(h, mem, SymbolIndex(r));
    FormulaOf(Kind(r)) == CopyOf && SymbolUsable(h, SymbolIndex(r)) &&
    Resolve(h, sym) <= a < Resolve(h, sym) + sym.size
  }

  ghost predicate Read(h: Handle, mem: Memory, t: Tables, a: nat) {
    InTables(h, t, a) ||
    exists k: nat | k < t.count :: CopySource(h, mem, RelaAt(mem, EntryAddress(t, k)), a)
  }

  ghost predicate TablesKept(h: Handle, t: Tables, mem: Memory, mem': Memory) {
    forall a: nat | InTables(h, t, a) :: At(mem', a) == At(mem, a)
  }

  lemma EntryInTables(h: Handle, t: Tables, k: nat, a: nat)
    requires k < Total(t) && EntryAddress(t, k) <= a < EntryAddress(t, k) + RELA_SIZE
    ensures InTables(h, t, a)
  {
  }

  lemma EntryAgrees(h: Handle, mem: Memory, mem': Memory, t: Tables, k: nat)
    requires k < Total(t) && TablesKept(h, t, mem, mem')
    ensures RelaAt(mem', EntryAddress(t, k)) == RelaAt(mem, EntryAddress(t, k))
  {
    var p := EntryAddress(t, k);
    forall a: nat | p <= a < p + RELA_SIZE
      ensures At(mem', a) == At(mem, a)
    {
      EntryInTables(h, t, k, a);
    }
    RelaBytes(mem, mem', p);
  }

  lemma RelaBytes(mem: Memory, mem': Memory, p: nat)
    requires SameBytes(mem, mem', p, RELA_SIZE)
    ensures RelaAt(mem', p) == RelaAt(mem, p)
  {
    LoadAgrees(mem, mem', p, 8);
    LoadAgrees(mem, mem', p + 8, 8);
    LoadAgrees(mem, mem', p + 16, 8);
  }

  lemma SymbolAgrees(h: Handle, mem: Memory, mem': Memory, t: Tables, index: nat)
    requires SymbolUsable(h, index) && TablesKept(h, t, mem, mem')
    ensures SymbolOf(h, mem', index) == SymbolOf(h, mem, index)
  {
    if index != 0 {
      SymbolKept(h, mem, mem', t, index, h.symtab + index * 24);
      SymbolBytes(mem, mem', h.symtab + index * 24);
    }
  }

  lemma SymbolKept(h: Handle, mem: Memory, mem': Memory, t: Tables, index: nat, p: nat)
    requires index < h.symCount && p == h.symtab + index * 24 && TablesKept(h, t, mem, mem')
    ensures SameBytes(mem, mem', p, SYM_SIZE)
  {
    forall a: nat | p <= a < p + SYM_SIZE
      ensures InTables(h, t, a)
    {
    }
  }

  lemma SymbolBytes(mem: Memory, mem': Memory, p: nat)
    requires SameBytes(mem, mem', p, SYM_SIZE)
    ensures SymbolAt(mem', p) == SymbolAt(mem, p)
  {
    LoadAgrees(mem, mem', p, 4);
    LoadAgrees(mem, mem', p + 6, 2);
    LoadAgrees(mem, mem', p + 8, 8);
    LoadAgrees(mem, mem', p + 16, 8);
  }

  /** An entry's effect depends on its symbol and, for a copy, on the bytes it copies. */
  lemma RelaAgrees(h: Handle, mem: Memory, mem': Memory, r: Rela)
    requires SymbolUsable(h, SymbolIndex(r)) ==> SymbolOf(h, mem', SymbolIndex(r)) == SymbolOf(h, mem, SymbolIndex(r))
    requires forall a: nat | CopySource(h, mem, r, a) :: At(mem', a) == At(mem, a)
    ensures RelaEffect(h, mem', r) == RelaEffect(h, mem, r)
  {
    if SymbolUsable(h, SymbolIndex(r)) && h.base + r.offset < U64 {
      var sym := SymbolOf(h, mem, SymbolIndex(r));
      assert RelaEffect(h, mem, r) == EffectWith(h, mem, r, sym);
      assert RelaEffect(h, mem', r) == EffectWith(h, mem', r, sym);
      WithAgrees(h, mem, mem', r, sym);
    }
  }

  lemma WithAgrees(h: Handle, mem: Memory, mem': Memory, r: Rela, sym: Symbol)
    requires FormulaOf(Kind(r)) == CopyOf ==> SameBytes(mem, mem', Resolve(h, sym), sym.size)
    ensures EffectWith(h, mem', r, sym) == EffectWith(h, mem, r, sym)
  {
    if FormulaOf(Kind(r)) == CopyOf {
      SliceAgrees(mem, mem', Resolve(h, sym), sym.size);
    }
  }

  lemma SliceAgrees(mem: Memory, mem': Memory, a: nat, n: nat)
    requires SameBytes(mem, mem', a, n)
    ensures Slice(mem', a, n) == Slice(mem, a, n)
  {
  }

  lemma PltAgrees(h: Handle, mem: Memory, mem': Memory, r: Rela)
    requires SymbolUsable(h, SymbolIndex(r)) ==> SymbolOf(h, mem', SymbolIndex(r)) == SymbolOf(h, mem, SymbolIndex(r))
    ensures PltEffect(h, mem', r) == PltEffect(h, mem, r)
  {
  }

  lemma BothAgree(h: Handle, mem: Memory, mem': Memory, t: Tables, r: Rela)
    requires TablesKept(h, t, mem, mem')
    ensures PltEffect(h, mem', r) == PltEffect(h, mem, r)
    ensures (forall a: nat | CopySource(h, mem, r, a) :: At(mem', a) == At(mem, a)) ==>
      RelaEffect(h, mem', r) == RelaEffect(h, mem, r)
  {
    if SymbolUsable(h, SymbolIndex(r)) {
      SymbolAgrees(h, mem, mem', t, SymbolIndex(r));
    }
    PltAgrees(h, mem, mem', r);
    if forall a: nat | CopySource(h, mem, r, a) :: At(mem', a) == At(mem, a) {
      RelaAgrees(h, mem, mem', r);
    }
  }

  lemma SameEffect(h: Handle, mem: Memory, mem': Memory, t: Tables, k: nat, r: Rela)
    requires r == RelaAt(mem, EntryAddress(t, k)) == RelaAt(mem', EntryAddress(t, k))
    requires if k < t.count then RelaEffect(h, mem', r) == RelaEffect(h, mem, r)
             else PltEffect(h, mem', r) == PltEffect(h, mem, r)
    ensures EffectOf(h, mem', t, k) == EffectOf(h, mem, t, k)
  {
  }

  lemma EffectAgrees(h: Handle, mem: Memory, mem': Memory, t: Tables, k: nat)
    requires k < Total(t) && forall a: nat | Read(h, mem, t, a) :: At(mem', a) == At(mem, a)
    ensures EffectOf(h, mem', t, k) == EffectOf(h, mem, t, k)
  {
    var r := RelaAt(mem, EntryAddress(t, k));
    EntryAgrees(h, mem, mem', t, k);
    BothAgree(h, mem, mem', t, r);
    SameEffect(h, mem, mem', t, k, r);
  }

  ghost function Reads(h: Handle, mem: Memory, t: Tables): nat -> bool {
    (a: nat) => Read(h, mem, t, a)
  }

  /** No entry writes a byte that the run reads, and no two entries write the same byte. */
  ghost predicate SeparateTargets(h: Handle, mem: Memory, t: Tables) {
    Separate(Effects(h, t), Reads(h, mem, t), mem, Total(t))
  }

  lemma ReadsAreThose(h: Handle, mem: Memory, t: Tables)
    ensures ReadsOnly(Effects(h, t), Reads(h, mem, t), mem, Total(t))
  {
    forall m: Memory, k: nat | k < Total(t) && Agree(Reads(h, mem, t), mem, m)
      ensures Effects(h, t)(m, k) == Effects(h, t)(mem, k)
    {
      forall a: nat | Read(h, mem, t, a)
        ensures At(m, a) == At(mem, a)
      {
        assert Reads(h, mem, t)(a);
      }
      EffectAgrees(h, mem, m, t, k);
    }
  }

  /** With separate targets, memory after the run holds at the target of every entry the bytes
      that the entry gives on the memory before the run. */
  lemma TargetRelocated(h: Handle, mem: Memory, t: Tables, k: nat, w: Effect)
    requires Relocated(h, mem, t).done && SeparateTargets(h, mem, t) && k < Total(t) && w == EffectOf(h, mem, t, k)
    ensures w.Write? && Holds(Relocated(h, mem, t).mem, w.at, w.bytes)
  {
    ReadsAreThose(h, mem, t);
    StepHolds(Effects(h, t), Reads(h, mem, t), mem, Total(t), k, w);
  }

  /** With separate targets, the run succeeds if and only if no entry fails on the memory before it. */
  lemma SucceedsExactly(h: Handle, mem: Memory, t: Tables)
    requires SeparateTargets(h, mem, t)
    ensures Relocated(h, mem, t).done <==> forall k: nat | k < Total(t) :: EffectOf(h, mem, t, k).Write?
  {
    ReadsAreThose(h, mem, t);
    if Relocated(h, mem, t).done {
      forall k: nat | k < Total(t)
        ensures EffectOf(h, mem, t, k).Write?
      {
        TargetRelocated(h, mem, t, k, EffectOf(h, mem, t, k));
      }
    }
    if forall k: nat | k < Total(t) :: EffectOf(h, mem, t, k).Write? {
      AllSucceed(h, mem, t);
    }
  }

  lemma AllSucceed(h: Handle, mem: Memory, t: Tables)
    requires SeparateTargets(h, mem, t) && forall k: nat | k < Total(t) :: EffectOf(h, mem, t, k).Write?
    ensures Relocated(h, mem, t).done
  {
    ReadsAreThose(h, mem, t);
    forall k: nat | k < Total(t)
      ensures Effects(h, t)(mem, k).Write?
    {
      assert Effects(h, t)(mem, k) == EffectOf(h, mem, t, k);
    }
    RunSucceeds(Effects(h, t), Reads(h, mem, t), mem, mem, 0, Total(t));
  }

  /** A byte that is no entry's target is as before. */
  lemma OtherBytesKept(h: Handle, mem: Memory, t: Tables, a: nat)
    requires Relocated(h, mem, t).done && SeparateTargets(h, mem, t)
    requires forall k: nat | k < Total(t) :: !Targets(EffectOf(h, mem, t, k), a)
    ensures At(Relocated(h, mem, t).mem, a) == At(mem, a)
  {
    ReadsAreThose(h, mem, t);
    RunSeparate(Effects(h, t), Reads(h, mem, t), mem, mem, 0, Total(t));
    forall k: nat | k < Total(t)
      ensures !Targets(Effects(h, t)(mem, k), a)
    {
      assert Effects(h, t)(mem, k) == EffectOf(h, mem, t, k);
    }
  }

  /** Entries that compute a value and write it in a field. */
  predicate HasField(r: Rela) {
    var f := FormulaOf(Kind(r));
    f !in {Nothing, CopyOf} && (UsesSymbol(f) ==> SymbolIndex(r) != 0)
  }

  /** The value of the entry's formula, with the symbol it names. */
  function FieldValue(h: Handle, mem: Memory, r: Rela): Word64 {
    var f, sym := FormulaOf(Kind(r)), SymbolOf(h, mem, SymbolIndex(r));
    Value(f, h, if UsesAddress(f) then Resolve(h, sym) else 0, r.addend, h.base + r.offset, sym.size)
  }

  function Cut(value: Word64, width: nat): nat {
    if width == 4 then value % 0x1_0000_0000 else value
  }

  /** The field of an entry of the ordinary table holds the formula's value, cut to its width. */
  lemma FieldHolds(h: Handle, mem: Memory, t: Tables, k: nat, r: Rela, end: Memory)
    requires Relocated(h, mem, t) == Outcome(end, true) && SeparateTargets(h, mem, t)
    requires k < t.count && r == RelaAt(mem, EntryAddress(t, k)) && HasField(r)
    ensures Load(end, h.base + r.offset, Width(Kind(r))) == Cut(FieldValue(h, mem, r), Width(Kind(r)))
  {
    EntryHolds(h, mem, t, k, r, end);
    FieldLoads(h, mem, r, end);
  }

  lemma EntryHolds(h: Handle, mem: Memory, t: Tables, k: nat, r: Rela, end: Memory)
    requires Relocated(h, mem, t) == Outcome(end, true) && SeparateTargets(h, mem, t)
    requires k < t.count && r == RelaAt(mem, EntryAddress(t, k))
    ensures RelaEffect(h, mem, r).Write? && Holds(end, RelaEffect(h, mem, r).at, RelaEffect(h, mem, r).bytes)
  {
    TargetRelocated(h, mem, t, k, EffectOf(h, mem, t, k));
  }

  lemma FieldLoads(h: Handle, mem: Memory, r: Rela, end: Memory)
    requires RelaEffect(h, mem, r).Write? && Holds(end, RelaEffect(h, mem, r).at, RelaEffect(h, mem, r).bytes)
    requires HasField(r)
    ensures Load(end, h.base + r.offset, Width(Kind(r))) == Cut(FieldValue(h, mem, r), Width(Kind(r)))
  {
    var w, value, width := RelaEffect(h, mem, r), FieldValue(h, mem, r), Width(Kind(r));
    FieldWritten(h, mem, r);
    WrittenLoads(end, w, h.base + r.offset, value, width);
  }

  lemma WrittenLoads(end: Memory, w: Effect, at: nat, value: Word64, width: nat)
    requires w == Write(at, Bytes(value, width)) && (width == 4 || width == 8) && Holds(end, w.at, w.bytes)
    ensures Load(end, at, width) == Cut(value, width)
  {
    FieldReads(end, at, value, width);
  }

  lemma FieldReads(mem: Memory, at: nat, value: Word64, width: nat)
    requires (width == 4 || width == 8) && Holds(mem, at, Bytes(value, width))
    ensures Load(mem, at, width) == Cut(value, width)
  {
    LoadBytes(mem, at, value, width);
    Truncates(value);
  }

  lemma FieldWritten(h: Handle, mem: Memory, r: Rela)
    requires RelaEffect(h, mem, r).Write? && HasField(r)
    ensures RelaEffect(h, mem, r) == Write(h.base + r.offset, Bytes(FieldValue(h, mem, r), Width(Kind(r))))
    ensures Width(Kind(r)) == 4 || Width(Kind(r)) == 8
  {
  }

  /** The field of an entry of the procedure linkage table holds its symbol's address. */
  lemma PltHolds(h: Handle, mem: Memory, t: Tables, k: nat, r: Rela, end: Memory)
    requires Relocated(h, mem, t) == Outcome(end, true) && SeparateTargets(h, mem, t)
    requires t.count <= k < Total(t) && r == RelaAt(mem, EntryAddress(t, k))
    ensures Load(end, h.base + r.offset, 8) == Resolve(h, SymbolOf(h, mem, SymbolIndex(r)))
  {
    TargetRelocated(h, mem, t, k, EffectOf(h, mem, t, k));
    PltLoads(h, mem, r, end);
  }

  lemma PltLoads(h: Handle, mem: Memory, r: Rela, end: Memory)
    requires PltEffect(h, mem, r).Write? && Holds(end, PltEffect(h, mem, r).at, PltEffect(h, mem, r).bytes)
    ensures Load(end, h.base + r.offset, 8) == Resolve(h, SymbolOf(h, mem, SymbolIndex(r)))
  {
    FieldReads(end, h.base + r.offset, Resolve(h, SymbolOf(h, mem, SymbolIndex(r))), 8);
  }

  // ----- 32-bit fields -----

  /** How a 32-bit field of the type is read back as 64 bits: with sign for the
      relative types and for 32S, with zeros for 32 and SIZE32. */
  function Extended(kind: nat, field: nat): nat {
    if kind in {R_PC32, R_PLT32, R_32S} && 0x8000_0000 <= field < 0x1_0000_0000 then field + U64 - 0x1_0000_0000 else field
  }

  /** The values the psABI lets a 32-bit field of the type hold. */
  predicate Fits32(kind: nat, value: Word64) {
    if kind in {R_PC32, R_PLT32, R_32S} then value < 0x8000_0000 || value >= U64 - 0x8000_0000
    else value < 0x1_0000_0000
  }

  /** After a successful run, a 32-bit field stands for the value of its entry's formula
      if and only if that value is in the range of the type; the run does not check it. */
  lemma FieldFits(h: Handle, mem: Memory, t: Tables, k: nat, r: Rela, end: Memory)
    requires Relocated(h, mem, t) == Outcome(end, true) && SeparateTargets(h, mem, t)
    requires k < t.count && r == RelaAt(mem, EntryAddress(t, k)) && HasField(r) && Width(Kind(r)) == 4
    ensures Extended(Kind(r), Load(end, h.base + r.offset, 4)) == FieldValue(h, mem, r) <==>
      Fits32(Kind(r), FieldValue(h, mem, r))
  {
    FieldHolds(h, mem, t, k, r, end);
    CutFits(Kind(r), FieldValue(h, mem, r));
  }

  lemma CutFits(kind: nat, value: Word64)
    ensures Extended(kind, Cut(value, 4)) == value <==> Fits32(kind, value)
  {
  }
}
