/** The boot loader's routine that maps a range of virtual addresses, over the
    page tables in memory and a firmware page allocator. */
module PageMapper {
  import opened Machine
  import opened Paging

  // ----- invariants of the tables -----

  /** Every entry leads to a page of memory or to a page in use. */
  ghost predicate Closed(mem: Memory, reserved: set<nat>) {
    forall p, i | p in mem && 0 <= i < 512 && mem[p][i] != 0 ::
      AddressOf(mem[p][i]) % U52 in mem || AddressOf(mem[p][i]) % U52 in reserved
  }

  /** A page handed out by the firmware is linked from one entry only. */
  ghost predicate Once(mem: Memory, reserved: set<nat>) {
    forall p, i, q, j | p in mem && 0 <= i < 512 && q in mem && 0 <= j < 512 && mem[p][i] != 0 && mem[q][j] != 0 &&
      AddressOf(mem[p][i]) % U52 == AddressOf(mem[q][j]) % U52 && AddressOf(mem[p][i]) % U52 !in reserved ::
      p == q && i == j
  }

  ghost predicate Sound(mem: Memory, root: nat, reserved: set<nat>) {
    root in mem && Closed(mem, reserved) && Once(mem, reserved)
  }

  /** The page numbers the routine visits: the range, rounded up by a page. */
  function Step(virt: nat, k: nat): nat {
    virt + k * PAGE_SIZE
  }

  ghost predicate Touched(virt: nat, count: nat, va: nat) {
    exists k | 0 <= k < count :: PageNumber(Step(virt, k)) == PageNumber(va)
  }

  /** The tables on the walks of the touched addresses are on no other walk. */
  ghost predicate Unshared(mem: Memory, root: nat, virt: nat, count: nat) {
    forall va, vb, j, k | 0 <= j <= 3 && 0 <= k <= 3 && Touched(virt, count, va) &&
      Table(mem, root, va, 0, j).Mapped? && Table(mem, root, vb, 0, k) == Table(mem, root, va, 0, j) ::
      j == k && SameIndices(va, vb, j)
  }

  ghost predicate NewlyMapped(mem: Memory, mem': Memory, root: nat, va: nat) {
    Walk(mem, root, va, 0).Unmapped? && Walk(mem', root, va, 0).Mapped?
  }

  /** The walk of `va` ends at a page-table entry of depth 3, which holds a page the firmware handed out. */
  ghost predicate EndsFresh(mem: Memory, root: nat, reserved: set<nat>, va: nat) {
    var t := Table(mem, root, va, 0, 3);
    t.Mapped? && t.address in mem && EntryFresh(mem[t.address][Index(va, 3)], reserved) &&
    Walk(mem, root, va, 0) == EntryTranslates(mem[t.address][Index(va, 3)], va)
  }

  predicate EntryFresh(e: nat, reserved: set<nat>) {
    Present(e) && AddressOf(e) % U52 !in reserved
  }

  function EntryTranslates(e: nat, va: nat): Translation {
    Mapped(AddressOf(e) % U52 + va % PAGE_SIZE)
  }

  ghost predicate FreshFrames(mem: Memory, mem': Memory, root: nat, reserved: set<nat>) {
    forall va | NewlyMapped(mem, mem', root, va) :: EndsFresh(mem', root, reserved, va)
  }

  ghost predicate KeepsPaths(mem: Memory, mem': Memory, root: nat) {
    forall va | PathOk(mem, root, va, 0) :: PathOk(mem', root, va, 0)
  }

  /** Without sharing, only the touched pages that `only` allows become mapped. */
  ghost predicate MapsOnly(mem: Memory, mem': Memory, root: nat, virt: nat, first: nat, last: nat, count: nat)
  {
    Unshared(mem, root, virt, count) ==>
      Unshared(mem', root, virt, count) &&
      forall va | NewlyMapped(mem, mem', root, va) :: Visited(virt, first, last, va)
  }

  ghost predicate Visited(virt: nat, first: nat, last: nat, va: nat) {
    exists k | first <= k < last :: PageNumber(Step(virt, k)) == PageNumber(va)
  }

  /** What populating the pages `first .. last` of a range of `count` pages does. */
  ghost predicate Populates(mem: Memory, mem': Memory, root: nat, reserved: set<nat>,
                            virt: nat, first: nat, last: nat, count: nat) {
    Grows(mem, mem') && NewForKernel(mem, mem') && Sound(mem', root, reserved) && KeepsPaths(mem, mem', root) &&
    FreshFrames(mem, mem', root, reserved) && MapsOnly(mem, mem', root, virt, first, last, count)
  }

  lemma PopulatesNothing(mem: Memory, root: nat, reserved: set<nat>, virt: nat, first: nat, last: nat, count: nat)
    requires Sound(mem, root, reserved)
    ensures Populates(mem, mem, root, reserved, virt, first, last, count)
  {
  }

  lemma EndKept(mem: Memory, mem': Memory, root: nat, reserved: set<nat>, va: nat)
    requires Grows(mem, mem') && EndsFresh(mem, root, reserved, va)
    ensures EndsFresh(mem', root, reserved, va)
  {
    GrowthKeepsTable(mem, mem', root, va, 0, 3);
    GrowthKeepsTranslations(mem, mem', root, va, 0);
    var t := Table(mem, root, va, 0, 3).address;
    assert mem[t][Index(va, 3)] != 0;
  }

  lemma PopulatesMore(a: Memory, b: Memory, c: Memory, root: nat, reserved: set<nat>,
                      virt: nat, first: nat, middle: nat, last: nat, count: nat)
    requires first <= middle <= last
    requires Populates(a, b, root, reserved, virt, first, middle, count) ||
             Populates(a, b, root, reserved, virt, first, last, count)
    requires Populates(b, c, root, reserved, virt, middle, last, count) ||
             Populates(b, c, root, reserved, virt, first, last, count)
    ensures Populates(a, c, root, reserved, virt, first, last, count)
  {
    forall va | NewlyMapped(a, c, root, va)
      ensures EndsFresh(c, root, reserved, va)
      ensures Unshared(a, root, virt, count) ==> Visited(virt, first, last, va)
    {
      if NewlyMapped(a, b, root, va) {
        EndKept(b, c, root, reserved, va);
      } else {
        assert NewlyMapped(b, c, root, va);
      }
    }
  }

  // ----- one link populates -----

  lemma LinkedSound(mem: Memory, root: nat, reserved: set<nat>, table: nat, i: nat, page: nat)
    requires Sound(mem, root, reserved) && table in mem && i < 512 && mem[table][i] == 0
    requires Frame(page) && page !in mem && page !in reserved
    ensures Sound(Linked(mem, table, i, page), root, reserved)
  {
    LinkEntry(page);
    Masked(page + KERNEL_PERM);
    var mem' := Linked(mem, table, i, page);
    forall p, n | p in mem' && 0 <= n < 512 && mem'[p][n] != 0
      ensures AddressOf(mem'[p][n]) % U52 in mem' || AddressOf(mem'[p][n]) % U52 in reserved
      ensures (p == table && n == i && AddressOf(mem'[p][n]) % U52 == page) ||
              (p in mem && mem[p][n] == mem'[p][n] && AddressOf(mem'[p][n]) % U52 != page)
    {
      if p != table || n != i {
        assert p != page;
      }
    }
  }

  lemma LinkedFresh(mem: Memory, root: nat, reserved: set<nat>, table: nat, i: nat, page: nat, va: nat)
    requires table in mem && i < 512 && mem[table][i] == 0
    requires Frame(page) && page !in mem && page !in reserved
    requires NewlyMapped(mem, Linked(mem, table, i, page), root, va)
    ensures EndsFresh(Linked(mem, table, i, page), root, reserved, va)
    ensures Table(Linked(mem, table, i, page), root, va, 0, 3) == Mapped(table) && Index(va, 3) == i
  {
    LinkedTranslates(mem, table, i, page, root, va, 0);
    LinkEntry(page);
    Masked(page + KERNEL_PERM);
  }

  /** A table of the walk of `va` after the link is an old one, or the new page below the linked entry. */
  lemma TableAfterLink(mem: Memory, root: nat, reserved: set<nat>, table: nat, i: nat, page: nat, va: nat, k: nat)
    requires Closed(mem, reserved) && root in mem && table in mem && i < 512 && mem[table][i] == 0
    requires Frame(page) && page !in mem && page !in reserved
    requires k <= 3 && Table(Linked(mem, table, i, page), root, va, 0, k).Mapped?
    ensures Table(mem, root, va, 0, k) == Table(Linked(mem, table, i, page), root, va, 0, k) != Mapped(page) ||
            (Table(Linked(mem, table, i, page), root, va, 0, k) == Mapped(page) && k > 0 &&
             Table(mem, root, va, 0, k - 1) == Mapped(table) && Index(va, k - 1) == i)
  {
    if Table(mem, root, va, 0, k).Mapped? {
      LinkedGrows(mem, table, i, page);
      GrowthKeepsTable(mem, Linked(mem, table, i, page), root, va, 0, k);
      TableTarget(mem, reserved, root, va, 0, k);
    } else {
      var j := LinkedTable(mem, table, i, page, root, va, 0, k);
    }
  }

  lemma {:induction false} TableTarget(mem: Memory, reserved: set<nat>, table: nat, va: nat, d: nat, k: nat)
    requires d <= k <= 3 && Closed(mem, reserved) && Table(mem, table, va, d, k).Mapped?
    requires table in mem || table in reserved
    ensures Table(mem, table, va, d, k).address in mem || Table(mem, table, va, d, k).address in reserved
    decreases k - d
  {
    if d < k {
      assert mem[table][Index(va, d)] != 0;
      TableTarget(mem, reserved, AddressOf(mem[table][Index(va, d)]) % U52, va, d + 1, k);
    }
  }

  /** What the routine's place in the tables is when it links entry `i` of `table` for `addr`. */
  ghost predicate At(mem: Memory, root: nat, addr: nat, d: nat, table: nat, i: nat) {
    d <= 3 && Table(mem, root, addr, 0, d) == Mapped(table) && table in mem && i == Index(addr, d) && mem[table][i] == 0
  }

  lemma LinkedUnshared(mem: Memory, root: nat, reserved: set<nat>, table: nat, i: nat, page: nat,
                       virt: nat, count: nat, addr: nat, d: nat, va: nat, vb: nat, j: nat, k: nat)
    requires Sound(mem, root, reserved) && Frame(page) && page !in mem && page !in reserved
    requires Unshared(mem, root, virt, count) && At(mem, root, addr, d, table, i)
    requires Touched(virt, count, va) && j <= 3 && k <= 3
    requires var mem' := Linked(mem, table, i, page);
             Table(mem', root, va, 0, j).Mapped? && Table(mem', root, vb, 0, k) == Table(mem', root, va, 0, j)
    ensures j == k && SameIndices(va, vb, j)
  {
    TableAfterLink(mem, root, reserved, table, i, page, va, j);
    TableAfterLink(mem, root, reserved, table, i, page, vb, k);
    if Table(Linked(mem, table, i, page), root, va, 0, j) == Mapped(page) {
      TellApart(mem, root, virt, count, va, vb, j - 1, k - 1);
    } else {
      TellApart(mem, root, virt, count, va, vb, j, k);
    }
  }

  lemma TellApart(mem: Memory, root: nat, virt: nat, count: nat, va: nat, vb: nat, j: nat, k: nat)
    requires Unshared(mem, root, virt, count) && Touched(virt, count, va) && j <= 3 && k <= 3
    requires Table(mem, root, va, 0, j).Mapped? && Table(mem, root, vb, 0, k) == Table(mem, root, va, 0, j)
    ensures j == k && SameIndices(va, vb, j)
  {
  }

  lemma LinkedOnly(mem: Memory, root: nat, reserved: set<nat>, table: nat, i: nat, page: nat,
                   virt: nat, count: nat, addr: nat, d: nat, va: nat)
    requires Sound(mem, root, reserved) && Frame(page) && page !in mem && page !in reserved
    requires Unshared(mem, root, virt, count) && At(mem, root, addr, d, table, i) && Touched(virt, count, addr)
    requires NewlyMapped(mem, Linked(mem, table, i, page), root, va)
    ensures PageNumber(va) == PageNumber(addr)
  {
    LinkedFresh(mem, root, reserved, table, i, page, va);
    TableAfterLink(mem, root, reserved, table, i, page, va, 3);
    TellApart(mem, root, virt, count, addr, va, d, 3);
    assert SameIndices(addr, va, 4);
    SamePage(addr, va);
  }

  lemma LinkPopulates(mem: Memory, root: nat, reserved: set<nat>, table: nat, i: nat, page: nat,
                      virt: nat, n: nat, count: nat, d: nat)
    requires Sound(mem, root, reserved) && Frame(page) && page !in mem && page !in reserved
    requires n < count && At(mem, root, Step(virt, n), d, table, i)
    ensures Populates(mem, Linked(mem, table, i, page), root, reserved, virt, n, n + 1, count)
  {
    var mem' := Linked(mem, table, i, page);
    var addr := Step(virt, n);
    LinkedGrows(mem, table, i, page);
    LinkedForKernel(mem, table, i, page);
    LinkedSound(mem, root, reserved, table, i, page);
    assert Touched(virt, count, addr);
    forall va | PathOk(mem, root, va, 0)
      ensures PathOk(mem', root, va, 0)
    {
      LinkedKeepsPath(mem, table, i, page, root, va, 0);
    }
    forall va | NewlyMapped(mem, mem', root, va)
      ensures EndsFresh(mem', root, reserved, va)
      ensures Unshared(mem, root, virt, count) ==> Visited(virt, n, n + 1, va)
    {
      LinkedFresh(mem, root, reserved, table, i, page, va);
      if Unshared(mem, root, virt, count) {
        LinkedOnly(mem, root, reserved, table, i, page, virt, count, addr, d, va);
      }
    }
    if Unshared(mem, root, virt, count) {
      forall va, vb, j, k | 0 <= j <= 3 && 0 <= k <= 3 && Touched(virt, count, va) &&
        Table(mem', root, va, 0, j).Mapped? && Table(mem', root, vb, 0, k) == Table(mem', root, va, 0, j)
        ensures j == k && SameIndices(va, vb, j)
      {
        LinkedUnshared(mem, root, reserved, table, i, page, virt, count, addr, d, va, vb, j, k);
      }
    }
  }

  // ----- the routine -----

  /** The pages `supply(from) .. supply(stock)` are aligned, unused and all different. */
  ghost predicate Stocked(supply: nat -> nat, from: nat, stock: nat, mem: Memory, reserved: set<nat>) {
    (forall k: nat | from <= k < stock :: Frame(supply(k)) && supply(k) !in mem && supply(k) !in reserved) &&
    (forall j: nat, k: nat | from <= j < k < stock :: supply(j) != supply(k))
  }

  /** The page at address `cr3` is the root of the tables. */
  class PageTables {
    const cr3: nat
    var mem: Memory

    /** The firmware's page allocator: the pages it has, in the order it hands them out, and how many are taken. */
    const supply: nat -> nat
    const stock: nat
    var taken: nat
    /** Pages in use from before the last call: tables, and pages that entries lead to. */
    ghost var reserved: set<nat>

    ghost predicate Valid()
      reads this
    {
      taken <= stock && Stocked(supply, taken, stock, mem, reserved) && Sound(mem, cr3, reserved)
    }

    constructor (cr3: nat, mem: Memory, supply: nat -> nat, stock: nat, ghost reserved: set<nat>)
      requires Stocked(supply, 0, stock, mem, reserved) && Sound(mem, cr3, reserved)
      ensures Valid() && this.cr3 == cr3 && this.mem == mem && this.supply == supply && this.stock == stock
      ensures taken == 0 && this.reserved == reserved
    {
      this.cr3, this.mem, this.supply, this.stock, taken, this.reserved := cr3, mem, supply, stock, 0, reserved;
    }

    /** The entry `i` of `table`, filled with a cleared page if it is empty; not `ok` if the firmware has no page left. */
    method Fill(table: nat, i: nat) returns (e: nat, ok: bool)
      requires Valid() && table in mem && i < 512
      modifies this`mem, this`taken
      ensures ok == (old(mem)[table][i] != 0 || old(taken) < stock)
      ensures taken <= stock && Stocked(supply, taken, stock, mem, reserved) && table in mem
      ensures ok ==> e == mem[table][i] != 0
      ensures NewForKernel(old(mem), mem)
      ensures mem == if !ok || old(mem)[table][i] != 0 then old(mem) else Linked(old(mem), table, i, supply(old(taken)))
      ensures taken == if !ok || old(mem)[table][i] != 0 then old(taken) else old(taken) + 1
    {
      if mem[table][i] == 0 {
        if taken == stock {
          return 0, false;
        }
        var page := supply(taken);
        LinkedForKernel(mem, table, i, page);
        taken := taken + 1;
        mem := mem[page := ZeroPage()];
        mem := mem[table := mem[table][i := page + KERNEL_PERM]];
      }
      return mem[table][i], true;
    }

    /** One level of the walk of page `n`: the entry of depth `d` exists afterwards. */
    method Descend(d: nat, table: nat, addr: nat, ghost origin: Memory, ghost virt: nat, ghost n: nat, ghost count: nat)
        returns (e: nat, ok: bool)
      requires Populates(origin, mem, cr3, reserved, virt, n, n + 1, count)
      requires Valid() && d <= 3 && addr == Step(virt, n) && n < count
      requires Table(mem, cr3, addr, 0, d) == Mapped(table) && PathOk(mem, cr3, addr, 0)
      modifies this`mem, this`taken
      ensures Valid() && PathOk(mem, cr3, addr, 0)
      ensures taken <= old(taken) + 1 && (old(taken) < stock ==> ok)
      ensures Table(mem, cr3, addr, 0, d) == Mapped(table) && table in mem
      ensures Populates(origin, mem, cr3, reserved, virt, n, n + 1, count)
      ensures ok ==> e == mem[table][Index(addr, d)] != 0
      ensures ok && d < 3 ==> Table(mem, cr3, addr, 0, d + 1) == Mapped(AddressOf(e))
    {
      ghost var was := mem;
      var i := Index(addr, d);
      LastTable(mem, cr3, addr, d, table);
      ghost var page := supply(taken);
      e, ok := Fill(table, i);
      if ok && was[table][i] == 0 {
        LinkPopulates(was, cr3, reserved, table, i, page, virt, n, count, d);
        GrowthKeepsTable(was, mem, cr3, addr, 0, d);
      } else {
        PopulatesNothing(was, cr3, reserved, virt, n, n + 1, count);
      }
      PopulatesMore(origin, was, mem, cr3, reserved, virt, n, n + 1, n + 1, count);
      if ok && d < 3 {
        TableNext(mem, cr3, addr, 0, d, table);
      }
    }

    /** The loop body for page `n`: four levels, and the page itself. */
    method MapPage(addr: nat, ghost virt: nat, ghost n: nat, ghost count: nat) returns (ok: bool)
      requires Valid() && addr == Step(virt, n) && n < count && PathOk(mem, cr3, addr, 0)
      modifies this`mem, this`taken
      ensures Valid() && Populates(old(mem), mem, cr3, reserved, virt, n, n + 1, count)
      ensures taken <= old(taken) + 4 && (old(taken) + 4 <= stock ==> ok)
      ensures ok ==> Complete(mem, cr3, addr, 0)
    {
      ghost var was := mem;
      PopulatesNothing(mem, cr3, reserved, virt, n, n + 1, count);
      var e;
      e, ok := Descend(0, cr3, addr, was, virt, n, count);
      if !ok {
        return;
      }
      e, ok := Descend(1, AddressOf(e), addr, was, virt, n, count);
      if !ok {
        return;
      }
      e, ok := Descend(2, AddressOf(e), addr, was, virt, n, count);
      if !ok {
        return;
      }
      var table := AddressOf(e);
      e, ok := Descend(3, table, addr, was, virt, n, count);
      if ok {
        TableLast(mem, cr3, addr, 0, table);
      }
    }

    /** Maps every page that a byte of `virt .. virt + size + 4094` lies on, as long as the
        firmware has pages; four for every page are enough. However it ends, what was mapped
        before keeps its translation, and what is new ends at fresh pages. */
    method MapVirtToPhys(virt: nat, size: nat) returns (ok: bool)
      requires Valid() && virt + size + 2 * PAGE_SIZE <= U64
      requires PathsOk(mem, cr3, virt, Visits(size))
      modifies this
      ensures Valid() && reserved == old(reserved) + old(mem).Keys
      ensures old(taken) + 4 * Visits(size) <= stock ==> ok
      ensures Populates(old(mem), mem, cr3, reserved, virt, 0, Visits(size), Visits(size))
      ensures forall va | Walk(old(mem), cr3, va, 0).Mapped? :: Walk(mem, cr3, va, 0) == Walk(old(mem), cr3, va, 0)
      ensures forall va | NewlyMapped(old(mem), mem, cr3, va) :: EndsFresh(mem, cr3, reserved, va)
      ensures NewForKernel(old(mem), mem)
      ensures forall va | NewlyMapped(old(mem), mem, cr3, va) ::
                (MayWrite(mem, cr3, va, 0) <==> OldMayWrite(old(mem), mem, cr3, va, 0)) && !UserMayAccess(mem, cr3, va, 0)
      ensures ok ==> forall va | virt <= va < virt + size :: Walk(mem, cr3, va, 0).Mapped?
      ensures ok && Unshared(old(mem), cr3, virt, Visits(size)) ==>
                ExactlyTouched(old(mem), mem, cr3, virt, Visits(size))
    {
      KeepInUse(mem, cr3, reserved);
      reserved := reserved + mem.Keys;
      ok := PopulateRange(virt, size);
      OldMapped(old(mem), mem, cr3);
      RightsOfNew(old(mem), mem, cr3);
      if ok {
        RangeMapped(old(mem), mem, cr3, reserved, virt, size);
      }
    }

    /** The loop of `MapVirtToPhys`. */
    method PopulateRange(virt: nat, size: nat) returns (ok: bool)
      requires Valid() && virt + size + 2 * PAGE_SIZE <= U64
      requires PathsOk(mem, cr3, virt, Visits(size))
      modifies this`mem, this`taken
      ensures Valid() && (ok ==> AllComplete(mem, cr3, virt, Visits(size)))
      ensures old(taken) + 4 * Visits(size) <= stock ==> ok
      ensures Populates(old(mem), mem, cr3, reserved, virt, 0, Visits(size), Visits(size))
    {
      ghost var count := Visits(size);
      PopulatesNothing(mem, cr3, reserved, virt, 0, 0, count);
      var addr := virt;
      ghost var n := 0;
      while addr < virt + size + PAGE_SIZE - 1
        invariant addr == Step(virt, n) && n <= count && taken <= old(taken) + 4 * n
        invariant Valid() && Populates(old(mem), mem, cr3, reserved, virt, 0, n, count)
        invariant PathsOk(mem, cr3, virt, count)
        invariant AllComplete(mem, cr3, virt, n)
        decreases count - n
      {
        ghost var was := mem;
        VisitsExactly(virt, size, n);
        ok := MapPage(addr, virt, n, count);
        PopulatesMore(old(mem), was, mem, cr3, reserved, virt, 0, n, n + 1, count);
        if !ok {
          PopulatesNothing(mem, cr3, reserved, virt, n + 1, count, count);
          PopulatesMore(old(mem), mem, mem, cr3, reserved, virt, 0, n + 1, count, count);
          return;
        }
        AllKept(was, mem, cr3, reserved, virt, n, count);
        addr := addr + PAGE_SIZE;
        n := n + 1;
      }
      VisitsExactly(virt, size, n);
      ok := true;
    }
  }

  /** How often the loop runs: once for every page size begun up to `size + 4095`. */
  function Visits(size: nat): nat {
    (size + 2 * PAGE_SIZE - 2) / PAGE_SIZE
  }

  lemma KeepInUse(mem: Memory, root: nat, reserved: set<nat>)
    requires Sound(mem, root, reserved)
    ensures Sound(mem, root, reserved + mem.Keys)
  {
  }

  lemma VisitsExactly(virt: nat, size: nat, n: nat)
    ensures n < Visits(size) <==> Step(virt, n) < virt + size + PAGE_SIZE - 1
    ensures Step(virt, n + 1) == Step(virt, n) + PAGE_SIZE
  {
  }

  ghost predicate PathsOk(mem: Memory, root: nat, virt: nat, count: nat) {
    forall k | 0 <= k < count :: PathOk(mem, root, Step(virt, k), 0)
  }

  ghost predicate AllComplete(mem: Memory, root: nat, virt: nat, n: nat) {
    forall k | 0 <= k < n :: Complete(mem, root, Step(virt, k), 0)
  }

  lemma AllKept(mem: Memory, mem': Memory, root: nat, reserved: set<nat>, virt: nat, n: nat, count: nat)
    requires Populates(mem, mem', root, reserved, virt, n, n + 1, count)
    requires PathsOk(mem, root, virt, count) && AllComplete(mem, root, virt, n) && Complete(mem', root, Step(virt, n), 0)
    ensures PathsOk(mem', root, virt, count) && AllComplete(mem', root, virt, n + 1)
  {
    forall k | 0 <= k < n
      ensures Complete(mem', root, Step(virt, k), 0)
    {
      GrowthKeepsComplete(mem, mem', root, Step(virt, k), 0);
    }
  }

  lemma {:induction false} LastTable(mem: Memory, root: nat, va: nat, k: nat, t: nat)
    requires k <= 3 && PathOk(mem, root, va, 0) && Table(mem, root, va, 0, k) == Mapped(t)
    ensures t in mem
  {
    if k < 3 {
      TableNext(mem, root, va, 0, k, t);
    } else {
      TableBefore(mem, root, va, 0, t);
    }
  }

  lemma {:induction false} TableBefore(mem: Memory, table: nat, va: nat, d: nat, t: nat)
    requires d <= 3 && PathOk(mem, table, va, d) && Table(mem, table, va, d, 3) == Mapped(t)
    ensures t in mem
    decreases 3 - d
  {
    if d < 3 {
      var e := mem[table][Index(va, d)];
      if e != 0 {
        Masked(e);
        TableBefore(mem, AddressOf(e), va, d + 1, t);
      }
    }
  }

  // ----- what a whole run gives -----

  lemma {:induction false} SamePageWalks(mem: Memory, table: nat, va: nat, vb: nat, d: nat)
    requires d <= 3 && SameIndices(va, vb, 4)
    ensures Walk(mem, table, va, d).Mapped? <==> Walk(mem, table, vb, d).Mapped?
    decreases 3 - d
  {
    assert Index(va, d) == Index(vb, d);
    if d < 3 && table in mem {
      SamePageWalks(mem, AddressOf(mem[table][Index(va, d)]) % U52, va, vb, d + 1);
    }
  }

  /** Every byte of the range lies on a visited page. */
  lemma RangeTouched(virt: nat, size: nat, va: nat) returns (k: nat)
    requires virt <= va < virt + size
    ensures k < Visits(size) && PageNumber(Step(virt, k)) == PageNumber(va)
  {
    k := va / PAGE_SIZE - virt / PAGE_SIZE;
    assert Step(virt, k) / PAGE_SIZE == va / PAGE_SIZE;
  }

  /** The number, not cut to 36 bits, of the last page visited. */
  function LastPage(virt: nat, size: nat): nat {
    virt / PAGE_SIZE + (Visits(size) - 1)
  }

  /** The visited pages are those of an interval of page numbers. */
  lemma TouchedInterval(virt: nat, size: nat, va: nat)
    ensures Touched(virt, Visits(size), va) <==>
      exists page | virt / PAGE_SIZE <= page <= LastPage(virt, size) :: PageNumber(PageStart(page)) == PageNumber(va)
  {
    if Touched(virt, Visits(size), va) {
      var k :| 0 <= k < Visits(size) && PageNumber(Step(virt, k)) == PageNumber(va);
      StepPage(virt, k);
      assert PageNumber(PageStart(virt / PAGE_SIZE + k)) == PageNumber(va);
    }
    if page :| virt / PAGE_SIZE <= page <= LastPage(virt, size) && PageNumber(PageStart(page)) == PageNumber(va) {
      var k := page - virt / PAGE_SIZE;
      StepPage(virt, k);
      assert PageNumber(Step(virt, k)) == PageNumber(va);
    }
  }

  function PageStart(page: nat): nat {
    page * PAGE_SIZE
  }

  lemma StepPage(virt: nat, k: nat)
    ensures Step(virt, k) / PAGE_SIZE == virt / PAGE_SIZE + k
    ensures PageNumber(Step(virt, k)) == PageNumber(PageStart(virt / PAGE_SIZE + k))
  {
    assert PageStart(virt / PAGE_SIZE + k) / PAGE_SIZE == virt / PAGE_SIZE + k;
  }

  lemma TouchedIsComplete(mem: Memory, root: nat, virt: nat, count: nat, k: nat, va: nat)
    requires AllComplete(mem, root, virt, count) && k < count && PageNumber(Step(virt, k)) == PageNumber(va)
    ensures Walk(mem, root, va, 0).Mapped?
  {
    CompleteTranslates(mem, root, Step(virt, k), 0);
    SamePage(Step(virt, k), va);
    SamePageWalks(mem, root, Step(virt, k), va, 0);
  }

  /** The newly mapped addresses are those of the visited pages that had no translation. */
  ghost predicate ExactlyTouched(mem: Memory, mem': Memory, root: nat, virt: nat, count: nat) {
    forall va :: NewlyMapped(mem, mem', root, va) <==> Walk(mem, root, va, 0).Unmapped? && Touched(virt, count, va)
  }

  lemma OldMapped(mem: Memory, mem': Memory, root: nat)
    requires Grows(mem, mem')
    ensures forall va | Walk(mem, root, va, 0).Mapped? :: Walk(mem', root, va, 0) == Walk(mem, root, va, 0)
  {
    forall va | Walk(mem, root, va, 0).Mapped?
      ensures Walk(mem', root, va, 0) == Walk(mem, root, va, 0)
    {
      GrowthKeepsTranslations(mem, mem', root, va, 0);
    }
  }

  lemma RightsOfNew(mem: Memory, mem': Memory, root: nat)
    requires Grows(mem, mem') && NewForKernel(mem, mem')
    ensures forall va | NewlyMapped(mem, mem', root, va) ::
              (MayWrite(mem', root, va, 0) <==> OldMayWrite(mem, mem', root, va, 0)) && !UserMayAccess(mem', root, va, 0)
  {
    forall va | NewlyMapped(mem, mem', root, va)
      ensures MayWrite(mem', root, va, 0) <==> OldMayWrite(mem, mem', root, va, 0)
      ensures !UserMayAccess(mem', root, va, 0)
    {
      NewRights(mem, mem', root, va, 0);
    }
  }

  lemma RangeMapped(mem: Memory, mem': Memory, root: nat, reserved: set<nat>, virt: nat, size: nat)
    requires Populates(mem, mem', root, reserved, virt, 0, Visits(size), Visits(size))
    requires AllComplete(mem', root, virt, Visits(size))
    ensures forall va | virt <= va < virt + size :: Walk(mem', root, va, 0).Mapped?
    ensures forall va | Walk(mem, root, va, 0).Mapped? :: Walk(mem', root, va, 0) == Walk(mem, root, va, 0)
    ensures Unshared(mem, root, virt, Visits(size)) ==> ExactlyTouched(mem, mem', root, virt, Visits(size))
  {
    forall va | virt <= va < virt + size
      ensures Walk(mem', root, va, 0).Mapped?
    {
      var k := RangeTouched(virt, size, va);
      TouchedIsComplete(mem', root, virt, Visits(size), k, va);
    }
    OldMapped(mem, mem', root);
    forall va | Touched(virt, Visits(size), va)
      ensures Walk(mem', root, va, 0).Mapped?
    {
      var k :| 0 <= k < Visits(size) && PageNumber(Step(virt, k)) == PageNumber(va);
      TouchedIsComplete(mem', root, virt, Visits(size), k, va);
    }
  }

  /** Two newly mapped addresses share a frame only on one page: the frames are distinct, and none was in use. */
  lemma FreshFramesApart(mem: Memory, mem': Memory, root: nat, reserved: set<nat>, virt: nat, size: nat,
                         va: nat, vb: nat, frame: nat)
    requires Populates(mem, mem', root, reserved, virt, 0, Visits(size), Visits(size))
    requires Unshared(mem, root, virt, Visits(size))
    requires NewlyMapped(mem, mem', root, va) && NewlyMapped(mem, mem', root, vb)
    requires Walk(mem', root, va, 0) == Mapped(frame + va % PAGE_SIZE)
    requires Walk(mem', root, vb, 0) == Mapped(frame + vb % PAGE_SIZE)
    ensures frame !in reserved && PageNumber(va) == PageNumber(vb)
  {
    var count := Visits(size);
    var p, q := Table(mem', root, va, 0, 3), Table(mem', root, vb, 0, 3);
    assert EndsFresh(mem', root, reserved, va) && EndsFresh(mem', root, reserved, vb);
    var e, f := mem'[p.address][Index(va, 3)], mem'[q.address][Index(vb, 3)];
    assert AddressOf(e) % U52 == frame == AddressOf(f) % U52;
    assert p == q && Index(va, 3) == Index(vb, 3);
    assert Touched(virt, count, va);
    TellApart(mem', root, virt, count, va, vb, 3, 3);
    assert SameIndices(va, vb, 4);
    SamePage(va, vb);
  }

  // ----- the page too many -----

  /** The pages that bytes of the range lie on. */
  function RangePages(virt: nat, size: nat): nat {
    if size == 0 then 0 else (virt + size - 1) / PAGE_SIZE - virt / PAGE_SIZE + 1
  }

  /** What a caller can read off the arguments: one byte more than whole pages, whole pages
      from inside a page, or a start and an end within pages that together are over a page. */
  predicate Snug(virt: nat, size: nat) {
    var start, end := virt % PAGE_SIZE, size % PAGE_SIZE;
    size > 0 && (end == 1 || (end == 0 && start != 0) || start + end > PAGE_SIZE)
  }

  /** The routine visits as many pages as the range has exactly for those arguments, and one more for all others. */
  lemma OneMoreExactly(virt: nat, size: nat)
    ensures Visits(size) == RangePages(virt, size) + if Snug(virt, size) then 0 else 1
  {
    if size > 0 {
      var start, end := virt % PAGE_SIZE, size % PAGE_SIZE;
      var p, q := virt / PAGE_SIZE, size / PAGE_SIZE;
      assert virt == p * PAGE_SIZE + start && size == q * PAGE_SIZE + end;
      WholeVisits(q, end);
      WholePages(p, start, q, end);
    }
  }

  lemma WholeVisits(q: nat, end: nat)
    requires end < PAGE_SIZE
    ensures Visits(q * PAGE_SIZE + end) == q + if end >= 2 then 2 else 1
  {
  }

  lemma WholePages(p: nat, start: nat, q: nat, end: nat)
    requires start < PAGE_SIZE && end < PAGE_SIZE && q + end > 0
    ensures (p * PAGE_SIZE + start + (q * PAGE_SIZE + end) - 1) / PAGE_SIZE ==
      p + q + if start + end == 0 then -1 else if start + end <= PAGE_SIZE then 0 else 1
  {
  }

  /** No byte of the range lies on the page of `va`. */
  ghost predicate OutsidePages(virt: nat, size: nat, va: nat) {
    forall a | virt <= a < virt + size :: PageNumber(a) != PageNumber(va)
  }

  /** Beyond the pages of the range, exactly one page becomes mapped, the last one visited,
      unless the arguments are snug: it lies behind the range, with nothing of it on it. */
  lemma PageTooMany(mem: Memory, mem': Memory, root: nat, virt: nat, size: nat, va: nat)
    requires ExactlyTouched(mem, mem', root, virt, Visits(size)) && OutsidePages(virt, size, va)
    ensures NewlyMapped(mem, mem', root, va) <==>
      Walk(mem, root, va, 0).Unmapped? && !Snug(virt, size) &&
      PageNumber(va) == PageNumber(PageStart(LastPage(virt, size)))
  {
    OneMoreExactly(virt, size);
    TouchedInterval(virt, size, va);
    if Touched(virt, Visits(size), va) {
      var page :| virt / PAGE_SIZE <= page <= LastPage(virt, size) && PageNumber(PageStart(page)) == PageNumber(va);
      if page < virt / PAGE_SIZE + RangePages(virt, size) {
        var a := ByteOnPage(virt, size, page);
      }
    }
  }

  /** Every page of the range holds a byte of it. */
  lemma ByteOnPage(virt: nat, size: nat, page: nat) returns (a: nat)
    requires virt / PAGE_SIZE <= page < virt / PAGE_SIZE + RangePages(virt, size)
    ensures virt <= a < virt + size && PageNumber(a) == PageNumber(PageStart(page))
  {
    a := if page * PAGE_SIZE < virt then virt else page * PAGE_SIZE;
    assert a / PAGE_SIZE == page;
  }

  /** The last page visited lies behind the range, if that does not go around the 2^48 bytes the tables tell apart. */
  lemma LastPageOutside(virt: nat, size: nat)
    requires !Snug(virt, size) && size + 2 * PAGE_SIZE <= 0x1_0000_0000_0000
    ensures virt + size <= PageStart(LastPage(virt, size)) || size == 0
    ensures OutsidePages(virt, size, PageStart(LastPage(virt, size)))
  {
    OneMoreExactly(virt, size);
    forall a | virt <= a < virt + size
      ensures PageNumber(a) != PageNumber(PageStart(LastPage(virt, size)))
    {
      FewPages(a / PAGE_SIZE, LastPage(virt, size));
    }
  }

  lemma FewPages(p: nat, q: nat)
    requires p < q < p + 0x10_0000_0000
    ensures p % 0x10_0000_0000 != q % 0x10_0000_0000
  {
  }

  // ----- the requirements can be met -----

  /** Tables that are one cleared page, and the pages behind it as the firmware's stock. */
  method EmptyTables(cr3: nat, stock: nat) returns (t: PageTables)
    requires Frame(cr3) && cr3 + (stock + 1) * PAGE_SIZE <= U52
    ensures fresh(t) && t.Valid() && t.cr3 == cr3 && t.mem == map[cr3 := ZeroPage()] && t.stock == stock && t.taken == 0
    ensures forall virt, count :: PathsOk(t.mem, cr3, virt, count) && Unshared(t.mem, cr3, virt, count)
  {
    var mem: Memory := map[cr3 := ZeroPage()];
    t := new PageTables(cr3, mem, (k: nat) => cr3 + (k + 1) * PAGE_SIZE, stock, {});
  }

  /** Mapping any range into empty tables with stock enough succeeds, and maps exactly the visited pages. */
  method MapIntoEmpty(cr3: nat, stock: nat, virt: nat, size: nat) returns (t: PageTables, ok: bool)
    requires Frame(cr3) && cr3 + (stock + 1) * PAGE_SIZE <= U52
    requires 4 * Visits(size) <= stock && virt + size + 2 * PAGE_SIZE <= U64
    ensures ok && forall va :: Walk(t.mem, cr3, va, 0).Mapped? <==> Touched(virt, Visits(size), va)
    ensures forall va | virt <= va < virt + size :: Walk(t.mem, cr3, va, 0).Mapped?
    ensures forall va | Touched(virt, Visits(size), va) :: MayWrite(t.mem, cr3, va, 0) && !UserMayAccess(t.mem, cr3, va, 0)
  {
    t := EmptyTables(cr3, stock);
    ghost var was := t.mem;
    ok := t.MapVirtToPhys(virt, size);
    assert ExactlyTouched(was, t.mem, cr3, virt, Visits(size));
    forall va
      ensures Walk(was, cr3, va, 0).Unmapped? && OldMayWrite(was, t.mem, cr3, va, 0)
    {
      EmptyMayWrite(was, t.mem, cr3, va, 0);
    }
  }
}
