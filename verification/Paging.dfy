/** Four-level page tables in physical memory, and the boot loader's routine
    that populates them for a range of virtual addresses. */
module Paging {
  import opened Machine

  const U52: nat := 0x10_0000_0000_0000
  const KERNEL_PERM: nat := 3

  function Zeros(n: nat): (s: seq<nat>)
    ensures |s| == n && forall i | 0 <= i < n :: s[i] == 0
  {
    if n == 0 then [] else Zeros(n - 1) + [0]
  }

  /** The 512 entries of one page. */
  type Page = p: seq<nat> | |p| == 512 witness Zeros(512)

  /** Physical memory by page address. */
  type Memory = map<nat, Page>

  function ZeroPage(): (p: Page)
    ensures forall i | 0 <= i < 512 :: p[i] == 0
  {
    Zeros(512)
  }

  /** The bytes one entry covers at depth `d`; the root is depth 0, a page table depth 3. */
  function Reach(d: nat): nat
    requires d <= 3
  {
    if d == 0 then 0x80_0000_0000 else if d == 1 then 0x4000_0000 else if d == 2 then 0x20_0000 else 0x1000
  }

  /** `(addr >> shift) & 0x1FF` */
  function Index(va: nat, d: nat): (i: nat)
    requires d <= 3
    ensures i < 512
  {
    va / Reach(d) % 512
  }

  /** `entry & ~0xFFF` */
  function AddressOf(e: nat): nat {
    e / PAGE_SIZE * PAGE_SIZE
  }

  predicate Present(e: nat) {
    e % 2 == 1
  }

  predicate Large(e: nat) {
    e / 128 % 2 == 1
  }

  predicate Writable(e: nat) {
    e / 2 % 2 == 1
  }

  predicate ForUser(e: nat) {
    e / 4 % 2 == 1
  }

  /** Present, writable, for the supervisor only, and with the execute-disable bit clear. */
  predicate ForKernel(e: nat) {
    Present(e) && Writable(e) && !ForUser(e) && e < U52
  }

  /** Masking is exact on an address the hardware can hold. */
  lemma Masked(e: nat)
    requires e < U52
    ensures AddressOf(e) % U52 == AddressOf(e)
  {
    assert AddressOf(e) <= e;
  }

  datatype Translation = Unmapped | Mapped(address: nat)

  /** The walk of 4-level paging, section 4.5 of the Intel SDM Vol. 3A: bits
      51:12 of an entry hold the address, bit 0 says present, bit 7 of an entry
      of depth 1 or 2 maps a large page. */
  function Walk(mem: Memory, table: nat, va: nat, d: nat): Translation
    requires d <= 3
    decreases 3 - d
  {
    if table !in mem then Unmapped
    else
      var e := mem[table][Index(va, d)];
      if !Present(e) then Unmapped
      else if d == 3 then Mapped(AddressOf(e) % U52 + va % PAGE_SIZE)
      else if d > 0 && Large(e) then Mapped(e / Reach(d) * Reach(d) % U52 + va % Reach(d))
      else Walk(mem, AddressOf(e) % U52, va, d + 1)
  }

  // ----- growth -----

  /** Nothing but empty entries and new pages differ. */
  ghost predicate Grows(mem: Memory, mem': Memory) {
    forall p | p in mem :: p in mem' && forall i | 0 <= i < 512 && mem[p][i] != 0 :: mem'[p][i] == mem[p][i]
  }

  /** Growth keeps every translation there is, of every address and page size. */
  lemma {:induction false} GrowthKeepsTranslations(mem: Memory, mem': Memory, table: nat, va: nat, d: nat)
    requires d <= 3 && Grows(mem, mem') && Walk(mem, table, va, d).Mapped?
    ensures Walk(mem', table, va, d) == Walk(mem, table, va, d)
    decreases 3 - d
  {
    var e := mem[table][Index(va, d)];
    assert mem'[table][Index(va, d)] == e;
    if d < 3 && !(d > 0 && Large(e)) {
      GrowthKeepsTranslations(mem, mem', AddressOf(e) % U52, va, d + 1);
    }
  }

  /** Whatever entry differs is for the kernel. */
  ghost predicate NewForKernel(mem: Memory, mem': Memory) {
    forall p, i | p in mem' && 0 <= i < 512 && mem'[p][i] != 0 && (p !in mem || mem[p][i] == 0) :: ForKernel(mem'[p][i])
  }

  /** Section 4.6 of the Intel SDM Vol. 3A: with CR0.WP set, the supervisor may write where
      every entry of the walk is writable. */
  predicate MayWrite(mem: Memory, table: nat, va: nat, d: nat)
    requires d <= 3
    decreases 3 - d
  {
    table in mem &&
    var e := mem[table][Index(va, d)];
    Present(e) && Writable(e) && (d < 3 && !(d > 0 && Large(e)) ==> MayWrite(mem, AddressOf(e) % U52, va, d + 1))
  }

  /** User mode has access where every entry of the walk is for the user. */
  predicate UserMayAccess(mem: Memory, table: nat, va: nat, d: nat)
    requires d <= 3
    decreases 3 - d
  {
    table in mem &&
    var e := mem[table][Index(va, d)];
    Present(e) && ForUser(e) && (d < 3 && !(d > 0 && Large(e)) ==> UserMayAccess(mem, AddressOf(e) % U52, va, d + 1))
  }

  /** The entries that the walk of `va` in `mem'` finds filled already in `mem` are writable. */
  predicate OldMayWrite(mem: Memory, mem': Memory, table: nat, va: nat, d: nat)
    requires d <= 3
    decreases 3 - d
  {
    table in mem' ==>
      var e := mem'[table][Index(va, d)];
      (table in mem && mem[table][Index(va, d)] != 0 ==> Writable(e)) &&
      (Present(e) && d < 3 && !(d > 0 && Large(e)) ==> OldMayWrite(mem, mem', AddressOf(e) % U52, va, d + 1))
  }

  /** Growth by entries for the kernel: a write is denied by an old entry only, and what is newly
      mapped is closed to user mode. */
  lemma {:induction false} NewRights(mem: Memory, mem': Memory, table: nat, va: nat, d: nat)
    requires d <= 3 && Grows(mem, mem') && NewForKernel(mem, mem') && Walk(mem', table, va, d).Mapped?
    ensures MayWrite(mem', table, va, d) <==> OldMayWrite(mem, mem', table, va, d)
    ensures Walk(mem, table, va, d).Unmapped? ==> !UserMayAccess(mem', table, va, d)
    decreases 3 - d
  {
    var e := mem'[table][Index(va, d)];
    assert e != 0;
    if d < 3 && !(d > 0 && Large(e)) {
      NewRights(mem, mem', AddressOf(e) % U52, va, d + 1);
    }
  }

  lemma {:induction false} EmptyMayWrite(mem: Memory, mem': Memory, table: nat, va: nat, d: nat)
    requires d <= 3 && forall p, i | p in mem && 0 <= i < 512 :: mem[p][i] == 0
    ensures OldMayWrite(mem, mem', table, va, d)
    decreases 3 - d
  {
    if table in mem' && d < 3 {
      EmptyMayWrite(mem, mem', AddressOf(mem'[table][Index(va, d)]) % U52, va, d + 1);
    }
  }

  lemma LinkedForKernel(mem: Memory, table: nat, i: nat, page: nat)
    requires table in mem && i < 512 && page !in mem && Frame(page)
    ensures NewForKernel(mem, Linked(mem, table, i, page))
  {
    LinkEntry(page);
  }

  /** An entry the routine may follow: empty, or present, not large, and leading to a page of memory. */
  predicate Followable(mem: Memory, e: nat, d: nat) {
    e == 0 || (Present(e) && (d < 3 ==> e < U52 && !Large(e) && AddressOf(e) in mem))
  }

  /** Every entry on the path of `va` is followable as far as the path goes. */
  predicate PathOk(mem: Memory, table: nat, va: nat, d: nat)
    requires d <= 3
    decreases 3 - d
  {
    table in mem &&
    var e := mem[table][Index(va, d)];
    Followable(mem, e, d) && (d < 3 && e != 0 ==> PathOk(mem, AddressOf(e), va, d + 1))
  }

  /** The path of `va` goes all the way down. */
  predicate Complete(mem: Memory, table: nat, va: nat, d: nat)
    requires d <= 3
    decreases 3 - d
  {
    table in mem &&
    var e := mem[table][Index(va, d)];
    e != 0 && Followable(mem, e, d) && (d < 3 ==> Complete(mem, AddressOf(e), va, d + 1))
  }

  lemma {:induction false} CompleteTranslates(mem: Memory, table: nat, va: nat, d: nat)
    requires d <= 3 && Complete(mem, table, va, d)
    ensures Walk(mem, table, va, d).Mapped?
    decreases 3 - d
  {
    var e := mem[table][Index(va, d)];
    if d < 3 {
      Masked(e);
      CompleteTranslates(mem, AddressOf(e), va, d + 1);
    }
  }

  lemma {:induction false} GrowthKeepsComplete(mem: Memory, mem': Memory, table: nat, va: nat, d: nat)
    requires d <= 3 && Grows(mem, mem') && Complete(mem, table, va, d)
    ensures Complete(mem', table, va, d)
    decreases 3 - d
  {
    var e := mem[table][Index(va, d)];
    assert mem'[table][Index(va, d)] == e;
    if d < 3 {
      GrowthKeepsComplete(mem, mem', AddressOf(e), va, d + 1);
    }
  }

  /** One page is allocated, cleared and linked into the empty entry `i` of `table`. */
  function Linked(mem: Memory, table: nat, i: nat, page: nat): Memory
    requires table in mem && i < 512
  {
    mem[page := ZeroPage()][table := mem[table][i := page + KERNEL_PERM]]
  }

  predicate Frame(p: nat) {
    0 < p && p % PAGE_SIZE == 0 && p + PAGE_SIZE <= U52
  }

  lemma LinkEntry(page: nat)
    requires Frame(page)
    ensures page + KERNEL_PERM < U52
    ensures ForKernel(page + KERNEL_PERM)
    ensures var e := page + KERNEL_PERM; e != 0 && Present(e) && !Large(e) && e < U52 && AddressOf(e) == page
  {
  }

  lemma LinkedGrows(mem: Memory, table: nat, i: nat, page: nat)
    requires table in mem && i < 512 && mem[table][i] == 0 && page !in mem
    ensures Grows(mem, Linked(mem, table, i, page))
  {
  }

  /** Linking a cleared page leaves every path followable, whether or not it shares tables. */
  lemma {:induction false} LinkedKeepsPath(mem: Memory, table: nat, i: nat, page: nat, t: nat, va: nat, d: nat)
    requires table in mem && i < 512 && mem[table][i] == 0 && page !in mem && Frame(page)
    requires d <= 3 && PathOk(mem, t, va, d)
    ensures PathOk(Linked(mem, table, i, page), t, va, d)
    decreases 3 - d
  {
    var mem' := Linked(mem, table, i, page);
    var e := mem'[t][Index(va, d)];
    LinkEntry(page);
    if t == table && Index(va, d) == i {
      assert d < 3 ==> PathOk(mem', page, va, d + 1) by {
        assert mem'[page] == ZeroPage();
      }
    } else {
      assert e == mem[t][Index(va, d)];
      if d < 3 && e != 0 {
        LinkedKeepsPath(mem, table, i, page, AddressOf(e), va, d + 1);
      }
    }
  }

  // ----- the entry a walk ends at -----

  /** The table of depth `k` that the walk of `va` meets, from `table` of depth `d` on. */
  function Table(mem: Memory, table: nat, va: nat, d: nat, k: nat): Translation
    requires d <= k <= 3
    decreases k - d
  {
    if d == k then Mapped(table)
    else if table !in mem then Unmapped
    else
      var e := mem[table][Index(va, d)];
      if !Present(e) || (d > 0 && Large(e)) then Unmapped
      else Table(mem, AddressOf(e) % U52, va, d + 1, k)
  }

  predicate SameIndices(va: nat, vb: nat, d: nat)
    requires d <= 4
  {
    forall j | 0 <= j < d :: Index(va, j) == Index(vb, j)
  }

  /** The page of `va` among the 2^36 that four levels tell apart. */
  function PageNumber(va: nat): nat {
    va / PAGE_SIZE % 0x10_0000_0000
  }

  lemma SamePage(va: nat, vb: nat)
    ensures SameIndices(va, vb, 4) <==> PageNumber(va) == PageNumber(vb)
  {
    PageDigits(va);
    PageDigits(vb);
    Digits(Index(va, 0), Index(va, 1), Index(va, 2), Index(va, 3),
           Index(vb, 0), Index(vb, 1), Index(vb, 2), Index(vb, 3));
    FourIndices(va, vb);
  }

  lemma FourIndices(va: nat, vb: nat)
    ensures SameIndices(va, vb, 4) <==> (Index(va, 0) == Index(vb, 0) && Index(va, 1) == Index(vb, 1) &&
                                         Index(va, 2) == Index(vb, 2) && Index(va, 3) == Index(vb, 3))
  {
  }

  lemma Digits(a0: nat, a1: nat, a2: nat, a3: nat, b0: nat, b1: nat, b2: nat, b3: nat)
    requires a0 < 512 && a1 < 512 && a2 < 512 && a3 < 512 && b0 < 512 && b1 < 512 && b2 < 512 && b3 < 512
    ensures 0x800_0000 * a0 + 0x4_0000 * a1 + 512 * a2 + a3 == 0x800_0000 * b0 + 0x4_0000 * b1 + 512 * b2 + b3 ==>
      a0 == b0 && a1 == b1 && a2 == b2 && a3 == b3
  {
  }

  lemma PageDigits(va: nat)
    ensures PageNumber(va) == 0x800_0000 * Index(va, 0) + 0x4_0000 * Index(va, 1) + 512 * Index(va, 2) + Index(va, 3)
  {
    TopDigit(va);
    MiddleDigits(va);
  }

  lemma TopDigit(va: nat)
    ensures PageNumber(va) == 0x800_0000 * Index(va, 0) + va / PAGE_SIZE % 0x800_0000
  {
    var x := va / 4096;
    assert x / 0x800_0000 == va / 0x80_0000_0000;
  }

  lemma MiddleDigits(va: nat)
    ensures va / PAGE_SIZE % 0x800_0000 == 0x4_0000 * Index(va, 1) + 512 * Index(va, 2) + Index(va, 3)
  {
    SecondDigit(va / 4096);
    LastDigits(va / 4096);
    assert va / 4096 / 0x4_0000 == va / 0x4000_0000;
    assert va / 4096 / 512 == va / 0x20_0000;
  }

  lemma SecondDigit(x: nat)
    ensures x % 0x800_0000 == 0x4_0000 * (x / 0x4_0000 % 512) + x % 0x4_0000
  {
  }

  lemma LastDigits(x: nat)
    ensures x % 0x4_0000 == 512 * (x / 512 % 512) + x % 512
  {
  }

  // ----- one link -----

  /** Growth keeps the tables a walk meets. */
  lemma {:induction false} GrowthKeepsTable(mem: Memory, mem': Memory, table: nat, va: nat, d: nat, k: nat)
    requires d <= k <= 3 && Grows(mem, mem') && Table(mem, table, va, d, k).Mapped?
    ensures Table(mem', table, va, d, k) == Table(mem, table, va, d, k)
    decreases k - d
  {
    if d < k {
      var e := mem[table][Index(va, d)];
      assert mem'[table][Index(va, d)] == e;
      GrowthKeepsTable(mem, mem', AddressOf(e) % U52, va, d + 1, k);
    }
  }

  lemma {:induction false} TableNext(mem: Memory, table: nat, va: nat, d: nat, k: nat, t: nat)
    requires d <= k < 3 && PathOk(mem, table, va, d) && Table(mem, table, va, d, k) == Mapped(t)
    ensures t in mem && PathOk(mem, t, va, k)
    ensures mem[t][Index(va, k)] != 0 ==> Table(mem, table, va, d, k + 1) == Mapped(AddressOf(mem[t][Index(va, k)]))
    decreases k - d
  {
    var e := mem[table][Index(va, d)];
    if e != 0 {
      Masked(e);
    }
    if d < k {
      TableNext(mem, AddressOf(e), va, d + 1, k, t);
    }
  }

  lemma {:induction false} TableLast(mem: Memory, table: nat, va: nat, d: nat, t: nat)
    requires d <= 3 && PathOk(mem, table, va, d) && Table(mem, table, va, d, 3) == Mapped(t)
    requires t in mem && mem[t][Index(va, 3)] != 0
    ensures Complete(mem, table, va, d)
    decreases 3 - d
  {
    if d < 3 {
      var e := mem[table][Index(va, d)];
      Masked(e);
      TableLast(mem, AddressOf(e), va, d + 1, t);
    }
  }

  /** A link gives a new translation only where the walk ends at that very entry. */
  lemma {:induction false} LinkedTranslates(mem: Memory, table: nat, i: nat, page: nat, t: nat, va: nat, d: nat)
    requires table in mem && i < 512 && mem[table][i] == 0 && page !in mem && Frame(page)
    requires d <= 3 && Walk(mem, t, va, d).Unmapped? && Walk(Linked(mem, table, i, page), t, va, d).Mapped?
    ensures Table(Linked(mem, table, i, page), t, va, d, 3) == Mapped(table) && Index(va, 3) == i
    ensures Walk(Linked(mem, table, i, page), t, va, d) == Mapped(page + va % PAGE_SIZE)
    decreases 3 - d
  {
    var mem' := Linked(mem, table, i, page);
    LinkEntry(page);
    Masked(page + KERNEL_PERM);
    var e := mem'[t][Index(va, d)];
    if t != page && !(t == table && Index(va, d) == i) {
      assert e == mem[t][Index(va, d)];
      LinkedTranslates(mem, table, i, page, AddressOf(e) % U52, va, d + 1);
    }
  }

  /** A table met after the link was met before, or is the new page, reached through the linked entry. */
  lemma {:induction false} LinkedTable(mem: Memory, table: nat, i: nat, page: nat, t: nat, va: nat, d: nat, k: nat)
      returns (j: nat)
    requires table in mem && i < 512 && mem[table][i] == 0 && page !in mem && Frame(page)
    requires d <= k <= 3 && Table(Linked(mem, table, i, page), t, va, d, k).Mapped? && Table(mem, t, va, d, k).Unmapped?
    requires forall p, n | p in mem && 0 <= n < 512 && mem[p][n] != 0 :: AddressOf(mem[p][n]) % U52 != page
    ensures d <= j && k == j + 1 && Table(Linked(mem, table, i, page), t, va, d, k) == Mapped(page)
    ensures Table(mem, t, va, d, j) == Mapped(table) && Index(va, j) == i
    decreases k - d
  {
    var mem' := Linked(mem, table, i, page);
    LinkEntry(page);
    Masked(page + KERNEL_PERM);
    var e := mem'[t][Index(va, d)];
    if t == table && Index(va, d) == i {
      j := d;
    } else {
      assert e == mem[t][Index(va, d)];
      j := LinkedTable(mem, table, i, page, AddressOf(e) % U52, va, d + 1, k);
    }
  }
}
