/** A relocation that succeeds and loses the upper half of an address: a kernel
    module whose entry of type R_X86_64_32 names a symbol of the kernel. */
module LostField {
  import opened Machine
  import opened Elf
  import opened Patches
  import opened Relocation

  const BASE: nat := KERNEL_MOD_SPACE_START
  const PLACE: nat := BASE + 0x100
  const SYMTAB: nat := BASE + 0x800
  const TABLE: nat := BASE + 0x1000
  /** The address of the kernel's symbol. */
  const ADDRESS: nat := 0xffff_ffff_8000_1000
  /** Symbol 1, type 32. */
  const INFO: nat := 0x1_0000_0000 + R_32

  function Module(): Handle {
    Handle(BASE, [Segment(PT_LOAD, 0, 0, 0, 0x2000)], SYMTAB, 2, (name: nat) => ADDRESS, (address: Word64) => 0)
  }

  function Image(): Memory {
    Patch(map[], TABLE, Bytes(0x100, 8) + Bytes(INFO, 8) + Bytes(0, 8))
  }

  function OneEntry(): Tables {
    Tables(TABLE, 1, 0, 0)
  }

  function Entry(): Rela {
    Rela(0x100, INFO, 0)
  }

  lemma ImageBytes(a: nat)
    ensures At(Image(), a) == if TABLE <= a < TABLE + 24 then (Bytes(0x100, 8) + Bytes(INFO, 8) + Bytes(0, 8))[a - TABLE] else 0
  {
    PatchAt(map[], TABLE, Bytes(0x100, 8) + Bytes(INFO, 8) + Bytes(0, 8), a);
  }

  lemma WordLoads(at: nat, v: Word64)
    requires forall i | 0 <= i < 8 :: At(Image(), at + i) == Bytes(v, 8)[i]
    ensures Load(Image(), at, 8) == v
  {
    LoadBytes(Image(), at, v, 8);
    Truncates(v);
  }

  lemma EntryReads()
    ensures RelaAt(Image(), TABLE) == Entry()
  {
    forall i | 0 <= i < 8
      ensures At(Image(), TABLE + i) == Bytes(0x100, 8)[i] && At(Image(), TABLE + 8 + i) == Bytes(INFO, 8)[i]
      ensures At(Image(), TABLE + 16 + i) == Bytes(0, 8)[i]
    {
      ImageBytes(TABLE + i);
      ImageBytes(TABLE + 8 + i);
      ImageBytes(TABLE + 16 + i);
    }
    WordLoads(TABLE, 0x100);
    WordLoads(TABLE + 8, INFO);
    WordLoads(TABLE + 16, 0);
  }

  lemma {:induction false} LoadZero(mem: Memory, a: nat, n: nat)
    requires forall b: nat | a <= b < a + n :: At(mem, b) == 0
    ensures Load(mem, a, n) == 0
    decreases n
  {
    if n > 0 {
      LoadZero(mem, a + 1, n - 1);
    }
  }

  lemma SymbolReads()
    ensures SymbolOf(Module(), Image(), 1) == NO_SYMBOL
  {
    var p := SYMTAB + 24;
    forall b: nat | p <= b < p + 24
      ensures At(Image(), b) == 0
    {
      ImageBytes(b);
    }
    LoadZero(Image(), p, 4);
    LoadZero(Image(), p + 6, 2);
    LoadZero(Image(), p + 8, 8);
    LoadZero(Image(), p + 16, 8);
  }

  lemma EntryKind()
    ensures Kind(Entry()) == R_32 && SymbolIndex(Entry()) == 1 && HasField(Entry()) && Width(R_32) == 4
    ensures FormulaOf(R_32) == SA
  {
  }

  lemma PlaceLoaded()
    ensures RangeLoaded(Module(), PLACE, 4)
  {
    assert Covers(BASE, Module().segs[0], PLACE, 4);
  }

  lemma EntryValue(mem: Memory)
    requires SymbolOf(Module(), mem, 1) == NO_SYMBOL
    ensures Resolve(Module(), NO_SYMBOL) == ADDRESS && FieldValue(Module(), mem, Entry()) == ADDRESS
  {
    EntryKind();
  }

  lemma EntryWrites(mem: Memory)
    requires SymbolOf(Module(), mem, 1) == NO_SYMBOL
    ensures RelaEffect(Module(), mem, Entry()) == Write(PLACE, Bytes(ADDRESS, 4))
  {
    EntryKind();
    PlaceLoaded();
    EntryValue(mem);
    assert RelaEffect(Module(), mem, Entry()) == EffectWith(Module(), mem, Entry(), NO_SYMBOL);
    FieldWritten(Module(), mem, Entry());
  }

  lemma EffectIs(w: Effect)
    requires w == Write(PLACE, Bytes(ADDRESS, 4))
    ensures Effects(Module(), OneEntry())(Image(), 0) == w
  {
    EntryReads();
    SymbolReads();
    EntryWrites(Image());
  }

  lemma OneStepApart(effect: (Memory, nat) -> Effect, prot: nat -> bool, origin: Memory, w: Effect)
    requires effect(origin, 0) == w && forall a: nat | Targets(w, a) :: !prot(a)
    ensures Separate(effect, prot, origin, 1)
  {
  }

  lemma PlaceOutside(a: nat)
    requires PLACE <= a < PLACE + 4
    ensures !InTables(Module(), OneEntry(), a)
  {
  }

  lemma NotCopied(mem: Memory, a: nat)
    ensures !CopySource(Module(), mem, Entry(), a)
  {
    EntryKind();
  }

  lemma ReadByOne(h: Handle, mem: Memory, t: Tables, r: Rela, a: nat)
    requires t.count == 1 && RelaAt(mem, EntryAddress(t, 0)) == r && Read(h, mem, t, a)
    ensures InTables(h, t, a) || CopySource(h, mem, r, a)
  {
    if !InTables(h, t, a) {
      var k: nat :| k < t.count && CopySource(h, mem, RelaAt(mem, EntryAddress(t, k)), a);
      assert k == 0;
    }
  }

  lemma PlaceUnread(a: nat)
    requires PLACE <= a < PLACE + 4 && RelaAt(Image(), EntryAddress(OneEntry(), 0)) == Entry()
    ensures !Read(Module(), Image(), OneEntry(), a)
  {
    PlaceOutside(a);
    NotCopied(Image(), a);
    if Read(Module(), Image(), OneEntry(), a) {
      ReadByOne(Module(), Image(), OneEntry(), Entry(), a);
    }
  }

  lemma Apart()
    ensures SeparateTargets(Module(), Image(), OneEntry())
  {
    var w := Write(PLACE, Bytes(ADDRESS, 4));
    EffectIs(w);
    EntryReads();
    assert EntryAddress(OneEntry(), 0) == TABLE;
    var prot := Reads(Module(), Image(), OneEntry());
    forall a: nat | Targets(w, a)
      ensures !prot(a)
    {
      PlaceUnread(a);
    }
    OneStepApart(Effects(Module(), OneEntry()), prot, Image(), w);
  }

  lemma OneStep(effect: (Memory, nat) -> Effect, mem: Memory, w: Effect)
    requires effect(mem, 0) == w && w.Write?
    ensures Run(effect, mem, 0, 1) == Outcome(Patch(mem, w.at, w.bytes), true)
  {
    assert Run(effect, Patch(mem, w.at, w.bytes), 1, 1).done;
  }

  /** The run succeeds, and the field read back is not the address. */
  lemma AddressLost()
    ensures Relocated(Module(), Image(), OneEntry()).done && SeparateTargets(Module(), Image(), OneEntry())
    ensures RelaAt(Image(), TABLE) == Entry() && FieldValue(Module(), Image(), Entry()) == ADDRESS
    ensures Extended(R_32, Load(Relocated(Module(), Image(), OneEntry()).mem, PLACE, 4)) != ADDRESS
  {
    var w := Write(PLACE, Bytes(ADDRESS, 4));
    EntryReads();
    SymbolReads();
    EntryKind();
    EntryValue(Image());
    Apart();
    EffectIs(w);
    OneStep(Effects(Module(), OneEntry()), Image(), w);
    FieldFits(Module(), Image(), OneEntry(), 0, Entry(), Relocated(Module(), Image(), OneEntry()).mem);
  }
}
