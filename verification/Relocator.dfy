/** The routine that relocates a mapped object: it parses the dynamic section,
    then patches memory entry by entry. */
module Relocator {
  import opened Machine
  import opened Elf
  import opened Patches
  import opened Relocation

  // ----- the dynamic section -----

  datatype Dyn = Dyn(tag: nat, val: Word64)

  /** The first `n` entries are those before the terminator. */
  predicate EndsAt(dyn: seq<Dyn>, n: nat) {
    n < |dyn| && dyn[n].tag == DT_NULL && forall i | 0 <= i < n :: dyn[i].tag != DT_NULL
  }

  /** The value of the last of the first `n` entries with this tag. */
  function LastOf(dyn: seq<Dyn>, n: nat, tag: nat, default: nat): nat
    requires n <= |dyn|
  {
    if n == 0 then default else if dyn[n - 1].tag == tag then dyn[n - 1].val else LastOf(dyn, n - 1, tag, default)
  }

  /** The address of a pointer entry, zero unless it lies in the image. */
  function Pointer(h: Handle, ptr: nat): nat {
    if ptr == 0 || h.base + ptr >= U64 || !RangeLoaded(h, h.base + ptr, 1) then 0 else h.base + ptr
  }

  /** A pointer is found exactly if it leads to a byte of the image, and then it is that byte's address. */
  lemma PointerLoaded(h: Handle, ptr: nat)
    ensures Pointer(h, ptr) != 0 ==> Pointer(h, ptr) == h.base + ptr && Loaded(h, h.base + ptr)
    ensures ptr != 0 && Loaded(h, h.base + ptr) ==> Pointer(h, ptr) == h.base + ptr
  {
    if ptr != 0 && Loaded(h, h.base + ptr) {
      var i :| 0 <= i < |h.segs| && Covers(h.base, h.segs[i], h.base + ptr, 1);
      assert RangeLoaded(h, h.base + ptr, 1);
    } else if Pointer(h, ptr) != 0 {
      RangeBytes(h, h.base + ptr, 1, h.base + ptr);
    }
  }

  datatype Sections = Sections(rela: nat, relasz: nat, relaent: nat, jmprel: nat, pltrelsz: nat, pltrel: nat)

  function Parsed(h: Handle, dyn: seq<Dyn>, n: nat): Sections
    requires n <= |dyn|
  {
    Sections(Pointer(h, LastOf(dyn, n, DT_RELA, 0)), LastOf(dyn, n, DT_RELASZ, 0), LastOf(dyn, n, DT_RELAENT, RELA_SIZE),
             Pointer(h, LastOf(dyn, n, DT_JMPREL, 0)), LastOf(dyn, n, DT_PLTRELSZ, 0), LastOf(dyn, n, DT_PLTREL, DT_RELA))
  }

  predicate TableIn(h: Handle, table: nat, size: nat) {
    size % 24 == 0 && (size != 0 ==> table != 0 && RangeLoaded(h, table, size))
  }

  /** The entry formats are known, and both tables lie in the image. */
  predicate SectionsOk(h: Handle, s: Sections) {
    s.relaent == RELA_SIZE && s.pltrel % 0x1_0000_0000 == DT_RELA &&
    TableIn(h, s.rela, s.relasz) && TableIn(h, s.jmprel, s.pltrelsz)
  }

  function TablesOf(s: Sections): Tables {
    Tables(s.rela, s.relasz / 24, s.jmprel, s.pltrelsz / 24)
  }

  /** Memory after relocation, and whether it succeeded. */
  function Processed(h: Handle, mem: Memory, dyn: seq<Dyn>, n: nat): Outcome
    requires n <= |dyn|
  {
    var s := Parsed(h, dyn, n);
    if !SectionsOk(h, s) then Outcome(mem, false) else Relocated(h, mem, TablesOf(s))
  }

  // ----- the routine -----

  class Linker {
    const h: Handle
    var mem: Memory

    constructor (h: Handle, mem: Memory)
      ensures this.h == h && this.mem == mem
    {
      this.h, this.mem := h, mem;
    }

    /** Whether one loaded segment covers the range. */
    method HandleRangeLoaded(address: nat, length: nat) returns (r: bool)
      ensures r <==> RangeLoaded(h, address, length)
    {
      if length == 0 || address + length >= U64 {
        return false;
      }
      var i := 0;
      while i < |h.segs|
        invariant i <= |h.segs|
        invariant forall k | 0 <= k < i :: !Covers(h.base, h.segs[k], address, length)
      {
        var s := h.segs[i];
        if s.kind == PT_LOAD && h.base + s.vaddr < U64 && h.base + s.vaddr + s.memsz < U64 {
          var start := h.base + s.vaddr;
          if address >= start && address + length <= start + s.memsz {
            return true;
          }
        }
        i := i + 1;
      }
      return false;
    }

    method ResolveRelocationSymbol(sym: Symbol) returns (addr: Word64)
      ensures addr == Resolve(h, sym)
    {
      var defined := sym.shndx != SHN_UNDEF;
      if defined {
        if h.base + sym.value >= U64 {
          return 0;
        }
        var loaded := HandleRangeLoaded(h.base + sym.value, if sym.size != 0 then sym.size else 1);
        if !loaded {
          return 0;
        }
        if Binding(sym) == STB_LOCAL || Visibility(sym) != STV_DEFAULT {
          return h.base + sym.value;
        }
      }
      addr := h.lookup(sym.name);
      if addr != 0 {
        return addr;
      }
      return if defined then h.base + sym.value else 0;
    }

    method DynamicPtr(ptr: nat) returns (p: nat)
      ensures p == Pointer(h, ptr)
    {
      if ptr == 0 || h.base + ptr >= U64 {
        return 0;
      }
      var loaded := HandleRangeLoaded(h.base + ptr, 1);
      return if loaded then h.base + ptr else 0;
    }

    /** The wanted values of the dynamic section, the last one of a tag counting. */
    method ParseDynamic(dyn: seq<Dyn>, ghost n: nat) returns (s: Sections)
      requires EndsAt(dyn, n)
      ensures s == Parsed(h, dyn, n)
    {
      s := Sections(0, 0, RELA_SIZE, 0, 0, DT_RELA);
      var i := 0;
      while dyn[i].tag != DT_NULL
        invariant i <= n && s == Parsed(h, dyn, i)
        decreases n - i
      {
        var d := dyn[i];
        if d.tag == DT_RELA {
          var p := DynamicPtr(d.val);
          s := s.(rela := p);
        } else if d.tag == DT_RELASZ {
          s := s.(relasz := d.val);
        } else if d.tag == DT_RELAENT {
          s := s.(relaent := d.val);
        } else if d.tag == DT_JMPREL {
          var p := DynamicPtr(d.val);
          s := s.(jmprel := p);
        } else if d.tag == DT_PLTRELSZ {
          s := s.(pltrelsz := d.val);
        } else if d.tag == DT_PLTREL {
          s := s.(pltrel := d.val);
        }
        i := i + 1;
      }
    }

    /** Writes the low bytes of a value. */
    method Put(at: nat, value: nat, width: nat)
      modifies this`mem
      ensures mem == Patch(old(mem), at, Bytes(value, width))
    {
      mem := Patch(mem, at, Bytes(value, width));
    }

    /** The symbol's address, and whether a missing one may be tolerated. */
    method Address(sym: Symbol) returns (addr: Word64, ok: bool)
      ensures addr == Resolve(h, sym) && (ok <==> addr != 0 || Binding(sym) == STB_WEAK)
    {
      addr := ResolveRelocationSymbol(sym);
      ok := addr != 0 || Binding(sym) == STB_WEAK;
    }

    /** The switch over the types, for an entry whose target was found in the image. */
    method ApplyKind(r: Rela, sym: Symbol, named: bool, target: nat) returns (ok: bool)
      requires target == h.base + r.offset && named == (SymbolIndex(r) != 0) && FormulaOf(Kind(r)) != Nothing
      requires RangeLoaded(h, target, if FormulaOf(Kind(r)) == CopyOf && named then sym.size else Width(Kind(r)))
      modifies this`mem
      ensures var w := EffectWith(h, old(mem), r, sym);
              ok == w.Write? && mem == if ok then Patch(old(mem), w.at, w.bytes) else old(mem)
    {
      ok := true;
      if FormulaOf(Kind(r)) in {BA, ZA, Indirect} {
        ApplyPlain(r, sym, named, target);
      } else if FormulaOf(Kind(r)) == Unknown {
        ok := false;
      } else if named {
        var addr;
        addr, ok := Address(sym);
        if ok {
          ApplySymbol(r, sym, target, addr);
        }
      }
    }

    /** The types that need no address of a symbol. */
    method ApplyPlain(r: Rela, sym: Symbol, named: bool, target: nat)
      requires FormulaOf(Kind(r)) in {BA, ZA, Indirect}
      modifies this`mem
      ensures mem == if UsesSymbol(FormulaOf(Kind(r))) && !named then old(mem)
                     else Patch(old(mem), target, Bytes(Value(FormulaOf(Kind(r)), h, 0, r.addend, target, sym.size), Width(Kind(r))))
    {
      var kind := Kind(r);
      if kind == R_RELATIVE {
        Put(target, Mod64(h.base + r.addend), 8);
      } else if kind == R_IRELATIVE {
        Put(target, h.resolver(Mod64(h.base + r.addend)), 8);
      } else if named {
        Put(target, Mod64(sym.size + r.addend), if kind == R_SIZE32 then 4 else 8);
      }
    }

    /** The types that need the symbol's address. */
    method ApplySymbol(r: Rela, sym: Symbol, target: nat, addr: Word64)
      requires UsesAddress(FormulaOf(Kind(r)))
      modifies this`mem
      ensures FormulaOf(Kind(r)) == CopyOf ==>
                mem == Patch(old(mem), target, if addr == 0 then [] else Slice(old(mem), addr, sym.size))
      ensures FormulaOf(Kind(r)) != CopyOf ==>
                mem == Patch(old(mem), target, Bytes(Value(FormulaOf(Kind(r)), h, addr, r.addend, target, sym.size), Width(Kind(r))))
    {
      var kind := Kind(r);
      if kind == R_GLOB_DAT || kind == R_JUMP_SLOT {
        Put(target, addr, 8);
      } else if kind == R_64 {
        Put(target, Mod64(addr + r.addend), 8);
      } else if kind == R_COPY {
        if addr != 0 && sym.size != 0 {
          mem := Patch(mem, target, Slice(mem, addr, sym.size));
        }
      } else if kind == R_PC32 || kind == R_PLT32 {
        Put(target, Mod64(addr + r.addend - target), 4);
      } else if kind == R_PC64 {
        Put(target, Mod64(addr + r.addend - target), 8);
      } else {
        Put(target, Mod64(addr + r.addend), 4);
      }
    }

    /** One entry of the ordinary table. */
    method ApplyRela(r: Rela) returns (ok: bool)
      modifies this`mem
      ensures var w := RelaEffect(h, old(mem), r);
              ok == w.Write? && mem == if ok then Patch(old(mem), w.at, w.bytes) else old(mem)
    {
      var kind, index := Kind(r), SymbolIndex(r);
      if h.base + r.offset >= U64 || (index != 0 && (h.symtab == 0 || index >= h.symCount)) {
        return false;
      }
      var target := h.base + r.offset;
      var sym := SymbolOf(h, mem, index);
      if kind == R_NONE {
        return true;
      }
      var size := if kind == R_COPY && index != 0 then sym.size else Width(kind);
      var loaded := HandleRangeLoaded(target, size);
      if !loaded {
        return false;
      }
      ok := ApplyKind(r, sym, index != 0, target);
    }

    /** One entry of the procedure linkage table. */
    method ApplyPlt(r: Rela) returns (ok: bool)
      modifies this`mem
      ensures var w := PltEffect(h, old(mem), r);
              ok == w.Write? && mem == if ok then Patch(old(mem), w.at, w.bytes) else old(mem)
    {
      var index := SymbolIndex(r);
      if h.base + r.offset >= U64 || index == 0 || h.symtab == 0 || index >= h.symCount {
        return false;
      }
      var target := h.base + r.offset;
      var loaded := HandleRangeLoaded(target, 8);
      if !loaded {
        return false;
      }
      var addr;
      addr, ok := Address(SymbolOf(h, mem, index));
      if ok {
        Put(target, addr, 8);
      }
    }

    /** Entry `k` of the two tables, read from memory as it is now. */
    method ApplyEntry(t: Tables, k: nat, ghost rest: (Memory, nat) -> Outcome) returns (ok: bool)
      requires k < Total(t) && StandsForRest(rest, h, t)
      modifies this`mem
      ensures rest(old(mem), k) == if ok then rest(mem, k + 1) else Outcome(mem, false)
    {
      EntryStep(h, mem, t, k);
      assert rest(mem, k) == Rest(h, mem, t, k);
      var r := RelaAt(mem, EntryAddress(t, k));
      if k < t.count {
        ok := ApplyRela(r);
      } else {
        ok := ApplyPlt(r);
      }
    }

    /** The entries `from .. to` of one table; on failure the entries before the failing one stay applied. */
    method ApplyTable(t: Tables, from: nat, to: nat, ghost rest: (Memory, nat) -> Outcome) returns (ok: bool)
      requires from <= to <= Total(t) && StandsForRest(rest, h, t)
      modifies this`mem
      ensures rest(old(mem), from) == if ok then rest(mem, to) else Outcome(mem, false)
    {
      var k := from;
      while k < to
        invariant from <= k <= to
        invariant rest(old(mem), from) == rest(mem, k)
      {
        ok := ApplyEntry(t, k, rest);
        if !ok {
          return false;
        }
        k := k + 1;
      }
      ok := true;
    }

    method CheckTable(table: nat, size: nat) returns (ok: bool)
      ensures ok <==> TableIn(h, table, size)
    {
      if size % 24 != 0 {
        return false;
      }
      if size != 0 {
        var loaded := HandleRangeLoaded(table, size);
        return table != 0 && loaded;
      }
      return true;
    }

    method ApplyTables(t: Tables) returns (ok: bool)
      modifies this`mem
      ensures Relocated(h, old(mem), t) == Outcome(mem, ok)
    {
      ghost var rest := (m: Memory, k: nat) => if k <= Total(t) then Rest(h, m, t, k) else Outcome(m, false);
      ok := ApplyTable(t, 0, t.count, rest);
      if ok {
        ok := ApplyTable(t, t.count, Total(t), rest);
      }
    }

    /** Relocates as specified. */
    method ProcessDynamicRelocations(dyn: seq<Dyn>, ghost n: nat) returns (ok: bool)
      requires EndsAt(dyn, n)
      modifies this`mem
      ensures Processed(h, old(mem), dyn, n) == Outcome(mem, ok)
    {
      var s := ParseDynamic(dyn, n);
      ok := CheckSections(s);
      if ok {
        ok := ApplyTables(TablesOf(s));
      }
    }

    method CheckSections(s: Sections) returns (ok: bool)
      ensures ok <==> SectionsOk(h, s)
    {
      if s.relaent != RELA_SIZE || s.pltrel % 0x1_0000_0000 != DT_RELA {
        return false;
      }
      var relaOk := CheckTable(s.rela, s.relasz);
      var pltOk := CheckTable(s.jmprel, s.pltrelsz);
      return relaOk && pltOk;
    }
  }

  /** What the entries from `k` on make of memory. */
  ghost function Rest(h: Handle, mem: Memory, t: Tables, k: nat): (r: Outcome)
    requires k <= Total(t)
    ensures k == 0 ==> r == Relocated(h, mem, t)
    ensures k == Total(t) ==> r == Outcome(mem, true)
  {
    Run(Effects(h, t), mem, k, Total(t))
  }

  /** `rest` is `Rest` for these tables, as a function value. */
  ghost predicate StandsForRest(rest: (Memory, nat) -> Outcome, h: Handle, t: Tables) {
    forall m: Memory, k: nat {:trigger Rest(h, m, t, k)} | k <= Total(t) :: rest(m, k) == Rest(h, m, t, k)
  }

  lemma EntryStep(h: Handle, mem: Memory, t: Tables, k: nat)
    requires k < Total(t)
    ensures var w := EffectOf(h, mem, t, k);
            Rest(h, mem, t, k) ==
              if w.Fail? then Outcome(mem, false) else Rest(h, Patch(mem, w.at, w.bytes), t, k + 1)
  {
    assert EffectOf(h, mem, t, k) == Effects(h, t)(mem, k);
  }

  /** Whether or not relocation succeeds, only bytes of loaded segments change. */
  lemma ProcessedOnlyLoaded(h: Handle, mem: Memory, dyn: seq<Dyn>, n: nat)
    requires n <= |dyn|
    ensures forall a: nat | !Loaded(h, a) :: At(Processed(h, mem, dyn, n).mem, a) == At(mem, a)
  {
    var t := TablesOf(Parsed(h, dyn, n));
    OnlyLoadedBytes(h, mem, t);
  }
}
