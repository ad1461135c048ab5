/** Block devices as flat byte arrays, and the pure arithmetic of the block layer. */
module BlockSpec {
  import opened Machine

  newtype uint8 = b: int | 0 <= b < 256
  type Bytes = seq<uint8>

  const BOUNCE_MAX: nat := 0x400000
  const DIRECT_MIN: nat := 0x10000
  /** The error status, `(uint64_t)-1`. */
  const FAILED: nat := U64 - 1

  /** `disk` with `data` laid over it from byte `at`. */
  function Splice(disk: Bytes, at: nat, data: Bytes): (r: Bytes)
    requires at + |data| <= |disk|
    ensures |r| == |disk|
    ensures r[at..at + |data|] == data
  {
    disk[..at] + data + disk[at + |data|..]
  }

  lemma SpliceSplice(disk: Bytes, at: nat, a: Bytes, b: Bytes)
    requires at + |a| + |b| <= |disk|
    ensures Splice(Splice(disk, at, a), at + |a|, b) == Splice(disk, at, a + b)
  {
  }

  /** Rewriting a sector after changing `n` bytes of it at `off` is laying those bytes over the disk. */
  lemma SpliceSector(disk: Bytes, start: nat, size: nat, off: nat, data: Bytes)
    requires start + size <= |disk| && off + |data| <= size
    ensures Splice(disk, start, Splice(disk[start..start + size], off, data)) == Splice(disk, start + off, data)
  {
    var sector := disk[start..start + size];
    var left, right := Splice(disk, start, Splice(sector, off, data)), Splice(disk, start + off, data);
    forall i | 0 <= i < |disk|
      ensures left[i] == right[i]
    {
      SpliceAt(disk, start, Splice(sector, off, data), i);
      SpliceAt(disk, start + off, data, i);
      if start <= i < start + size {
        SpliceAt(sector, off, data, i - start);
      }
    }
  }

  lemma SpliceAt(disk: Bytes, at: nat, data: Bytes, i: nat)
    requires at + |data| <= |disk| && i < |disk|
    ensures Splice(disk, at, data)[i] == if at <= i < at + |data| then data[i - at] else disk[i]
  {
  }

  /** `blk_window_bytes` */
  function Window(sectorSize: nat, maxSize: nat): (w: nat)
    ensures w >= sectorSize && (w <= BOUNCE_MAX || w == sectorSize)
    ensures maxSize == 0 || maxSize == U64 - 1 ==> w >= BOUNCE_MAX
    ensures maxSize != 0 && maxSize != U64 - 1 ==> Min(BOUNCE_MAX, maxSize) <= w <= Max(sectorSize, maxSize)
  {
    var w := if maxSize != 0 && maxSize != U64 - 1 then Min(BOUNCE_MAX, maxSize) else BOUNCE_MAX;
    if w < sectorSize then sectorSize else w
  }

  /** The bytes `blk_alloc_bounce` maps for a request: whole pages, at least one,
      the rounding in 64-bit arithmetic. */
  function BounceBytes(bytes: nat): (m: nat)
    requires bytes < U64
    ensures m >= bytes <==> bytes + PAGE_SIZE <= U64
    ensures m > 0
  {
    var pages := (bytes + PAGE_SIZE - 1) % U64 / PAGE_SIZE;
    (if pages == 0 then 1 else pages) * PAGE_SIZE
  }

  // ----- sectors and bytes -----

  /** The bytes of `n` sectors: `n * size`, defined by adding up (`SpanIs`). */
  function Span(n: nat, size: nat): nat {
    if n == 0 then 0 else Span(n - 1, size) + size
  }

  lemma {:induction false} SpanIs(n: nat, size: nat)
    ensures Span(n, size) == n * size
  {
    if n > 0 {
      SpanIs(n - 1, size);
    }
  }

  lemma {:induction false} SpanSum(m: nat, n: nat, size: nat)
    ensures Span(m + n, size) == Span(m, size) + Span(n, size)
  {
    if n > 0 {
      SpanSum(m, n - 1, size);
    }
  }

  lemma {:induction false} SpanUp(m: nat, n: nat, size: nat)
    requires m <= n
    ensures Span(m, size) <= Span(n, size)
  {
    SpanSum(m, n - m, size);
  }

  lemma {:induction false} SpanLarge(n: nat, size: nat)
    requires size > 0
    ensures n <= Span(n, size)
  {
    if n > 0 {
      SpanLarge(n - 1, size);
    }
  }

  /** Division by the sector size, in spans. */
  lemma {:induction false} Whole(total: nat, size: nat)
    requires size > 0
    ensures Span(total / size, size) + total % size == total
    ensures total >= size <==> total / size >= 1
  {
    SpanIs(total / size, size);
    assert total / size * size + total % size == total;
  }

  lemma {:induction false} SpanDiv(n: nat, size: nat)
    requires size > 0
    ensures Span(n, size) / size == n
  {
    var total := Span(n, size);
    Whole(total, size);
    if total / size < n {
      SpanUp(total / size + 1, n, size);
    } else if total / size > n {
      SpanUp(n + 1, total / size, size);
    }
  }

  /** The transfer starts and ends at sector boundaries. */
  predicate WholeSectorsOnly(offset: nat, length: nat, size: nat)
    requires size > 0
  {
    offset % size == 0 && length % size == 0
  }

  /** A number of whole sectors. */
  ghost predicate OnSector(n: nat, size: nat) {
    exists k: nat :: n == Span(k, size)
  }

  ghost predicate OnSectors(offset: nat, length: nat, size: nat) {
    OnSector(offset, size) && OnSector(length, size)
  }

  lemma OnSectorsIs(offset: nat, length: nat, size: nat)
    requires size > 0
    ensures OnSectors(offset, length, size) <==> WholeSectorsOnly(offset, length, size)
  {
    OnSectorIs(offset, size);
    OnSectorIs(length, size);
  }

  /** From a sector boundary on, whole sectors have been transferred. */
  ghost predicate InStep(offset: nat, done: nat, size: nat) {
    OnSector(offset, size) ==> OnSector(done, size)
  }

  lemma InStepMore(offset: nat, done: nat, n: nat, size: nat)
    requires InStep(offset, done, size)
    ensures InStep(offset, done + Span(n, size), size)
  {
    if OnSector(done, size) {
      var k: nat :| done == Span(k, size);
      SpanSum(k, n, size);
    }
  }

  lemma InStepStart(offset: nat, size: nat)
    ensures InStep(offset, 0, size)
  {
    assert 0 == Span(0, size);
  }

  lemma {:induction false} SpanRest(n: nat, rest: nat, size: nat)
    requires rest < size
    ensures (Span(n, size) + rest) % size == rest
  {
    var total := Span(n, size) + rest;
    var p := total / size;
    Whole(total, size);
    if p < n {
      SpanUp(p + 1, n, size);
    } else if p > n {
      SpanUp(n + 1, p, size);
    }
  }

  lemma OnSectorIs(n: nat, size: nat)
    requires size > 0
    ensures OnSector(n, size) <==> n % size == 0
  {
    Whole(n, size);
    if k: nat :| n == Span(k, size) {
      SpanRest(k, 0, size);
    }
  }

  /** What is left of less than a sector is the length's part of a sector. */
  lemma RestRemainder(done: nat, length: nat, size: nat)
    requires done <= length < done + size && OnSector(done, size)
    ensures length % size == length - done
  {
    var k: nat :| done == Span(k, size);
    SpanRest(k, length - done, size);
  }

  lemma {:induction false} ChunkFits(mid: nat, n: nat, max: nat, size: nat)
    requires 0 < n <= mid && n <= max && size > 0
    ensures 0 < Span(n, size) <= Span(max, size)
    ensures Span(mid - n, size) + Span(n, size) == Span(mid, size)
  {
    SpanUp(n, max, size);
    SpanUp(1, n, size);
    SpanSum(mid - n, n, size);
  }

  /** `total / size` and `total % size` */
  method SplitSectors(total: nat, size: nat) returns (n: nat, rest: nat)
    requires size > 0
    ensures Span(n, size) + rest == total && rest < size && (rest == 0 <==> OnSector(total, size))
    ensures total >= size <==> n >= 1
  {
    n, rest := total / size, total % size;
    Whole(total, size);
    OnSectorIs(total, size);
  }

  /** `total -= total % size`, with the sectors that makes. */
  method WholeSectors(total: nat, size: nat) returns (bytes: nat, n: nat)
    requires size > 0
    ensures bytes == Span(n, size) && total - size < bytes <= total
    ensures bytes >= size <==> n >= 1
  {
    bytes := total - total % size;
    Whole(total, size);
    SpanDiv(total / size, size);
    n := bytes / size;
  }

  method BytesOf(n: nat, size: nat) returns (bytes: nat)
    ensures bytes == Span(n, size)
  {
    bytes := n * size;
    SpanIs(n, size);
  }
}
