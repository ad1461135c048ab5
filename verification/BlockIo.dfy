/** Byte-granular block I/O over sector transfers: head and tail sectors by
    read-modify-write, page-aligned runs straight between the device and the
    caller's memory, the rest through a bounce buffer. */
module BlockIo {
  import opened Machine
  import opened BlockSpec

  /** A block device and its driver. `faults` is what decides how many sectors
      the k-th transfer manages; it is arbitrary. */
  class Device {
    const vdiskid: nat
    const sectorSize: nat
    const maxSize: nat
    const canRead: bool
    const canWrite: bool
    const faults: nat -> nat
    var content: Bytes
    var ops: nat

    constructor (vdiskid: nat, sectorSize: nat, maxSize: nat, canRead: bool, canWrite: bool, faults: nat -> nat, content: Bytes)
      ensures this.vdiskid == vdiskid && this.sectorSize == sectorSize && this.maxSize == maxSize
      ensures this.canRead == canRead && this.canWrite == canWrite && this.content == content
    {
      this.vdiskid, this.sectorSize, this.maxSize := vdiskid, sectorSize, maxSize;
      this.canRead, this.canWrite, this.faults, this.content, this.ops := canRead, canWrite, faults, content, 0;
    }

    /** A transfer of `n` sectors that the device takes: no more bytes than its largest size. */
    predicate Takes(n: nat) {
      Span(n, sectorSize) <= Window(sectorSize, maxSize)
    }

    /** How many of `n` sectors from `sector` on the next transfer moves. */
    function Moved(n: nat, sector: nat): (got: nat)
      requires sectorSize > 0
      reads this
      ensures got <= n && (got > 0 ==> Span(sector + got, sectorSize) <= |content|)
    {
      var there := |content| / sectorSize;
      var got := Min(Min(n, faults(ops)), if sector < there then there - sector else 0);
      if got > 0 then
        SpanUp(sector + got, there, sectorSize);
        Whole(|content|, sectorSize);
        got
      else 0
    }

    /** No transfer inside the disk fails, and the disk is a whole number of sectors. */
    ghost predicate Reliable()
      reads this
    {
      sectorSize > 0 && |content| % sectorSize == 0 && forall k :: faults(k) >= |content|
    }

    ghost predicate Serves(end: nat)
      reads this
    {
      Reliable() && end <= |content|
    }

    ghost predicate Inside(n: nat, sector: nat)
      reads this
    {
      Reliable() && Span(sector, sectorSize) + Span(n, sectorSize) <= |content|
    }

    lemma {:induction false} MovesAll(n: nat, sector: nat)
      requires Reliable() && Span(sector, sectorSize) + Span(n, sectorSize) <= |content|
      ensures Moved(n, sector) == n
    {
      var there := |content| / sectorSize;
      Whole(|content|, sectorSize);
      SpanSum(sector, n, sectorSize);
      if there < sector + n {
        SpanUp(there + 1, sector + n, sectorSize);
      }
      SpanLarge(n, sectorSize);
    }

    /** A sector that starts inside the disk ends inside it. */
    lemma {:induction false} SectorInside(sector: nat)
      requires Reliable() && Span(sector, sectorSize) < |content|
      ensures Span(sector, sectorSize) + sectorSize <= |content|
    {
      var there := |content| / sectorSize;
      Whole(|content|, sectorSize);
      if sector >= there {
        SpanUp(there, sector, sectorSize);
      } else {
        SpanUp(sector + 1, there, sectorSize);
      }
    }

    /** The driver's read callback: the bytes of the sectors it moved. */
    method Read(n: nat, sector: nat) returns (got: nat, data: Bytes)
      requires sectorSize > 0 && canRead && Takes(n)
      modifies this`ops
      ensures |data| <= Span(n, sectorSize) && (got == n ==> |data| == Span(n, sectorSize))
      ensures Reliable() && Span(sector, sectorSize) + Span(n, sectorSize) <= |content| ==> got == n
      ensures var at := Span(sector, sectorSize);
              data != [] ==> at + |data| <= |content| && data == content[at..at + |data|]
    {
      got := Moved(n, sector);
      if Inside(n, sector) {
        MovesAll(n, sector);
      }
      ops := ops + 1;
      var at, bytes := sector * sectorSize, got * sectorSize;
      SpanIs(sector, sectorSize);
      SpanIs(got, sectorSize);
      SpanUp(got, n, sectorSize);
      SpanSum(sector, got, sectorSize);
      data := if got == 0 then [] else content[at..at + bytes];
    }

    /** The driver's write callback: `moved` bytes of `data` reach the disk. */
    method Write(n: nat, sector: nat, data: Bytes) returns (got: nat, ghost moved: nat)
      requires sectorSize > 0 && canWrite && Takes(n) && |data| == Span(n, sectorSize)
      modifies this
      ensures moved <= |data| && (got == n ==> moved == |data|) && (n == 1 && got != 1 ==> moved == 0)
      ensures old(Reliable()) ==> Reliable() && (Span(sector, sectorSize) + |data| <= |content| ==> got == n)
      ensures |content| == |old(content)|
      ensures moved == 0 ==> content == old(content)
      ensures var at := Span(sector, sectorSize);
              moved > 0 ==> at + moved <= |old(content)| && content == Splice(old(content), at, data[..moved])
    {
      got := Moved(n, sector);
      if Inside(n, sector) {
        MovesAll(n, sector);
      }
      ops := ops + 1;
      var at, bytes := sector * sectorSize, got * sectorSize;
      SpanIs(sector, sectorSize);
      SpanIs(got, sectorSize);
      SpanUp(got, n, sectorSize);
      SpanSum(sector, got, sectorSize);
      if got > 0 {
        content := Splice(content, at, data[..bytes]);
      }
      moved := bytes;
    }
  }

  /** `page_virt_to_phys` for a page map given by frame numbers, negative where unmapped. */
  function TranslateBy(frame: nat -> int, v: nat): nat {
    if frame(v / PAGE_SIZE) < 0 then 0 else frame(v / PAGE_SIZE) * PAGE_SIZE + v % PAGE_SIZE
  }

  /** Byte `k` of the page at `v` lies at byte `k` of a frame, `k` bytes after the page's start. */
  ghost predicate InPage(translate: nat -> nat, v: nat, k: nat) {
    v % PAGE_SIZE == 0 && k < PAGE_SIZE ==>
      && (translate(v + k) == 0 || translate(v + k) % PAGE_SIZE == k)
      && (translate(v) != 0 ==> translate(v + k) == translate(v) + k)
  }

  /** Addresses of one page stay together. */
  ghost predicate Paged(translate: nat -> nat) {
    forall v: nat, k: nat :: InPage(translate, v, k)
  }

  lemma PageMapIsPaged(frame: nat -> int)
    ensures Paged((v: nat) => TranslateBy(frame, v))
  {
    var t := (v: nat) => TranslateBy(frame, v);
    forall v: nat, k: nat
      ensures InPage(t, v, k)
    {
      if v % PAGE_SIZE == 0 && k < PAGE_SIZE {
        assert (v + k) / PAGE_SIZE == v / PAGE_SIZE && (v + k) % PAGE_SIZE == k;
      }
    }
  }

  /** Physical memory and the current address translation, 0 for what is not mapped. */
  class Memory {
    const translate: nat -> nat
    var phys: Bytes

    constructor (translate: nat -> nat, phys: Bytes)
      ensures this.translate == translate && this.phys == phys
    {
      this.translate, this.phys := translate, phys;
    }

    /** Where byte `i` of a buffer at `v` lies. */
    function Place(v: nat, i: nat): nat {
      translate(v + i)
    }

    /** The `n` bytes of a buffer at `v` are mapped. */
    ghost predicate Mapped(v: nat, n: nat)
      reads this
    {
      v + n <= U64 && forall i: nat | i < n :: 0 < Place(v, i) < |phys|
    }

    /** The buffer can be filled: no two of its bytes have the same place. */
    ghost predicate Fillable(v: nat, n: nat)
      reads this
    {
      Mapped(v, n) && forall i: nat, j: nat | i < j < n :: Place(v, i) != Place(v, j)
    }

    /** The first `|data|` bytes of the buffer at `v`. */
    ghost predicate Shows(v: nat, data: Bytes)
      reads this
    {
      forall i: nat | i < |data| :: Place(v, i) < |phys| && phys[Place(v, i)] == data[i]
    }

    /** Only places of the first `n` bytes of the buffer at `v` differ from `before`. */
    ghost predicate ChangedOnly(before: Bytes, v: nat, n: nat)
      reads this
    {
      |phys| == |before| &&
      forall p: nat | p < |phys| :: phys[p] == before[p] || exists i: nat :: i < n && p == Place(v, i)
    }

    lemma MappedLess(v: nat, m: nat, n: nat)
      requires Mapped(v, m) && n <= m
      ensures Mapped(v, n) && (Fillable(v, m) ==> Fillable(v, n))
    {
    }

    lemma ChangedMore(before: Bytes, v: nat, m: nat, n: nat)
      requires ChangedOnly(before, v, m) && m <= n
      ensures ChangedOnly(before, v, n)
    {
    }

    /** `memcpy` of `data` to the buffer at `v`, from its byte `d` on. */
    method Store(v: nat, d: nat, data: Bytes, ghost shown: Bytes, ghost before: Bytes)
      requires Fillable(v, d + |data|) && |shown| == d && Shows(v, shown) && ChangedOnly(before, v, d)
      modifies this
      ensures Shows(v, shown + data) && ChangedOnly(before, v, d + |data|)
    {
      var i := 0;
      while i < |data|
        invariant 0 <= i <= |data| && |phys| == |before|
        invariant Shows(v, shown + data[..i]) && ChangedOnly(before, v, d + i)
      {
        ghost var was := phys;
        phys := phys[Place(v, d + i) := data[i]];
        forall j: nat | j < d + i + 1
          ensures phys[Place(v, j)] == (shown + data[..i + 1])[j]
        {
          assert j < d + i ==> was[Place(v, j)] == (shown + data[..i])[j];
        }
        i := i + 1;
      }
      assert data[..i] == data;
    }

    /** The source side of `memcpy`. */
    method Load(v: nat, d: nat, n: nat, ghost src: Bytes) returns (data: Bytes)
      requires Shows(v, src) && d + n <= |src|
      ensures data == src[d..d + n]
    {
      data := [];
      var i := 0;
      while i < n
        invariant 0 <= i <= n && data == src[d..d + i]
      {
        data := data + [phys[Place(v, d + i)]];
        i := i + 1;
      }
    }

    /** The `n` bytes from byte `d` on lie at consecutive places. */
    ghost predicate Contiguous(v: nat, d: nat, n: nat)
    {
      forall i: nat | d <= i < d + n :: Place(v, i) == Place(v, d) + (i - d)
    }

    /** A device stores `data` at consecutive physical addresses, told only the first one. */
    method DmaIn(v: nat, d: nat, data: Bytes, ghost shown: Bytes, ghost before: Bytes)
      requires data != [] && Fillable(v, d + |data|) && Contiguous(v, d, |data|)
      requires |shown| == d && Shows(v, shown) && ChangedOnly(before, v, d)
      modifies this
      ensures Shows(v, shown + data) && ChangedOnly(before, v, d + |data|)
    {
      var at := Place(v, d);
      assert Place(v, d + |data| - 1) == at + |data| - 1;
      ghost var was := phys;
      phys := Splice(phys, at, data);
      forall j: nat | j < d + |data|
        ensures Place(v, j) < |phys| && phys[Place(v, j)] == (shown + data)[j]
      {
        if j < d {
          var k := d + if at <= Place(v, j) < at + |data| then Place(v, j) - at else 0;
          assert Place(v, k) == at + (k - d) && Place(v, j) != Place(v, k);
          assert was[Place(v, j)] == shown[j];
        } else {
          assert phys[at..at + |data|] == data;
          assert phys[at + (j - d)] == phys[at..at + |data|][j - d];
        }
      }
      forall p: nat | p < |phys|
        ensures phys[p] == before[p] || exists i: nat :: i < d + |data| && p == Place(v, i)
      {
        if at <= p < at + |data| {
          assert p == Place(v, d + (p - at));
        } else {
          assert phys[p] == was[p];
        }
      }
    }

    /** A device fetches `n` bytes from consecutive physical addresses. */
    method DmaOut(v: nat, d: nat, n: nat, ghost src: Bytes) returns (data: Bytes)
      requires n > 0 && Shows(v, src) && d + n <= |src| && Contiguous(v, d, n)
      ensures data == src[d..d + n]
    {
      var at := Place(v, d);
      assert Place(v, d + n - 1) == at + n - 1;
      data := phys[at..at + n];
      forall i | 0 <= i < n
        ensures data[i] == src[d + i]
      {
        assert Place(v, d + i) == at + i;
      }
    }

    /** `blk_direct_span_bytes` at byte `d` of the buffer: how far physical memory
        runs along with virtual memory. */
    method DirectSpan(v: nat, d: nat, max: nat) returns (total: nat)
      requires v + d + max <= U64 && Paged(translate)
      ensures total <= max && Contiguous(v, d, total)
      ensures total > 0 ==> Place(v, d) % PAGE_SIZE == 0
      ensures 0 < total < max ==> Place(v, d + total) == 0 || Place(v, d + total) != Place(v, d) + total
    {
      total := 0;
      if v + d == 0 || max == 0 {
        return;
      }
      var base := Place(v, d);
      if base == 0 || base % PAGE_SIZE != 0 {
        return;
      }
      assert (v + d) % PAGE_SIZE == 0 by {
        var k := (v + d) % PAGE_SIZE;
        assert InPage(translate, v + d - k, k) && (v + d - k) % PAGE_SIZE == 0;
      }
      while total < max
        invariant 0 <= total <= max && Contiguous(v, d, total)
        invariant base == Place(v, d) && base % PAGE_SIZE == 0
        invariant total == max || (v + d + total) % PAGE_SIZE == 0
      {
        var cur := Place(v, d + total);
        if cur == 0 || cur != base + total {
          break;
        }
        var left := PAGE_SIZE - (v + d + total) % PAGE_SIZE;
        var chunk := Min(left, max - total);
        SamePage(v, d, total, chunk, base);
        total := total + chunk;
      }
    }

    lemma SamePage(v: nat, d: nat, total: nat, chunk: nat, base: nat)
      requires Paged(translate) && (v + d + total) % PAGE_SIZE == 0 && chunk <= PAGE_SIZE
      requires base == Place(v, d) && Place(v, d + total) == base + total != 0
      requires Contiguous(v, d, total)
      ensures Contiguous(v, d, total + chunk)
    {
      forall i: nat | d + total <= i < d + total + chunk
        ensures Place(v, i) == base + (i - d)
      {
        var w, k := v + d + total, i - d - total;
        assert InPage(translate, w, k) && w + k == v + i;
      }
    }
  }
}
