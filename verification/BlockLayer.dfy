/** The block layer: bounce buffers with a cache slot per drive, and the two
    byte-granular entry points. */
module BlockLayer {
  import opened Machine
  import opened BlockSpec
  import opened BlockIo

  /** `blk_bounce_ctx_t` */
  datatype Bounce = Bounce(buffer: array<uint8>, drive: int, usingCache: bool)

  class Layer {
    const mem: Memory
    var devices: map<int, Device>
    /** The cached bounce buffer of a drive, once allocated. */
    var cached: map<int, array<uint8>>
    /** The drives whose bounce lock is held. */
    var locks: set<int>
    /** The frames handed out for bounce buffers. */
    var live: set<array<uint8>>
    /** Whether the k-th frame allocation succeeds; arbitrary. */
    const canAlloc: nat -> bool
    var allocs: nat

    constructor (mem: Memory, canAlloc: nat -> bool, devices: map<int, Device>)
      ensures this.mem == mem && Valid() && locks == {} && Borrowed() == {}
    {
      this.mem, this.canAlloc, this.devices := mem, canAlloc, devices;
      cached, locks, live, allocs := map[], {}, {}, 0;
    }

    /** Cached buffers are live, have the size the cache asks for, and belong to valid drives. */
    ghost predicate Valid()
      reads this
    {
      forall d | d in cached :: 0 <= d < 256 && cached[d] in live && cached[d].Length == BounceBytes(BOUNCE_MAX)
    }

    /** Live frames that are not in the cache: somebody has to free them. */
    ghost function Borrowed(): set<array<uint8>>
      reads this
    {
      live - cached.Values
    }

    /** `blk_alloc_bounce` */
    method AllocBounce(bytes: nat) returns (buffer: array?<uint8>)
      requires bytes < U64
      modifies this`live, this`allocs
      ensures buffer == null ==> live == old(live) && !canAlloc(old(allocs))
      ensures buffer != null ==> fresh(buffer) && live == old(live) + {buffer} && buffer.Length == BounceBytes(bytes)
    {
      buffer := null;
      var ok := canAlloc(allocs);
      allocs := allocs + 1;
      if ok {
        buffer := new uint8[BounceBytes(bytes)](_ => 0);
        live := live + {buffer};
      }
    }

    /** `blk_try_acquire_cached_bounce` */
    method TryCached(drive: int) returns (ok: bool, ctx: Bounce)
      requires Valid()
      modifies this`live, this`allocs, this`locks, this`cached
      ensures Valid() && Borrowed() == old(Borrowed())
      ensures forall b | b in cached.Values :: fresh(b) || b in old(cached).Values
      ensures !ok ==> locks == old(locks)
      ensures ok ==> drive !in old(locks) && locks == old(locks) + {drive} && ctx.usingCache && ctx.drive == drive
      ensures ok ==> drive in cached && ctx.buffer == cached[drive] && ctx.buffer.Length == BounceBytes(BOUNCE_MAX)
      ensures ok ==> fresh(ctx.buffer) || (drive in old(cached) && ctx.buffer == old(cached)[drive])
    {
      ok := false;
      ctx := *;
      if drive < 0 || drive >= 256 {
        return;
      }
      if drive in locks {
        return;
      }
      locks := locks + {drive};
      if drive !in cached {
        ghost var was := live;
        var buffer := AllocBounce(BOUNCE_MAX);
        if buffer == null {
          locks := locks - {drive};
          return;
        }
        cached := cached[drive := buffer];
        assert cached.Values == old(cached).Values + {buffer} by {
          assert forall d | d in old(cached) :: d in cached && cached[d] == old(cached)[d];
          assert cached[drive] == buffer;
        }
      }
      ctx := Bounce(cached[drive], drive, true);
      ok := true;
    }

    /** `blk_acquire_bounce` */
    method Acquire(drive: int, bytes: nat) returns (ok: bool, ctx: Bounce)
      requires Valid() && bytes < U64
      modifies this`live, this`allocs, this`locks, this`cached
      ensures Valid()
      ensures forall b | b in cached.Values :: fresh(b) || b in old(cached).Values
      ensures !ok ==> locks == old(locks) && Borrowed() == old(Borrowed())
      ensures ok ==> Held(ctx, old(locks), old(Borrowed())) && ctx.drive == drive
      ensures (forall k :: canAlloc(k)) ==> ok
      ensures ok && bytes + PAGE_SIZE <= U64 ==> ctx.buffer.Length >= bytes
      ensures ok ==> fresh(ctx.buffer) || ctx.buffer in old(cached).Values
    {
      ok := false;
      if bytes <= BOUNCE_MAX {
        ok, ctx := TryCached(drive);
        if ok {
          return;
        }
      }
      var buffer := AllocBounce(bytes);
      ok := buffer != null;
      if ok {
        ctx := Bounce(buffer, drive, false);
      } else {
        ctx := *;
      }
    }

    /** `ctx` is what one acquisition took beyond `locks0` and `borrowed0`. */
    ghost predicate Held(ctx: Bounce, locks0: set<int>, borrowed0: set<array<uint8>>)
      reads this
    {
      if ctx.usingCache then
        ctx.drive !in locks0 && locks == locks0 + {ctx.drive} && Borrowed() == borrowed0
      else
        ctx.buffer !in borrowed0 && locks == locks0 && Borrowed() == borrowed0 + {ctx.buffer}
    }

    /** `blk_release_bounce` */
    method Release(ctx: Bounce, ghost locks0: set<int>, ghost borrowed0: set<array<uint8>>)
      requires Valid() && Held(ctx, locks0, borrowed0)
      modifies this`live, this`locks
      ensures Valid() && locks == locks0 && Borrowed() == borrowed0
    {
      if ctx.usingCache {
        locks := locks - {ctx.drive};
      } else {
        assert ctx.buffer in Borrowed();
        live := live - {ctx.buffer};
      }
    }

    // ----- reading -----

    /** The first `done` bytes of a read from `offset` have reached the buffer at `v`. */
    ghost predicate ReadSoFar(disk: Bytes, offset: nat, v: nat, before: Bytes, done: nat)
      reads mem
    {
      && (done > 0 ==> offset + done <= |disk| && mem.Shows(v, disk[offset..offset + done]))
      && mem.ChangedOnly(before, v, done)
    }

    /** The bytes of the disk that have been read. */
    ghost function Shown(disk: Bytes, offset: nat, done: nat): Bytes
      requires done > 0 ==> offset + done <= |disk|
    {
      if done == 0 then [] else disk[offset..offset + done]
    }

    lemma ShownMore(disk: Bytes, offset: nat, done: nat, data: Bytes)
      requires data != [] && offset + done + |data| <= |disk| && data == disk[offset + done..offset + done + |data|]
      ensures Shown(disk, offset, done) + data == Shown(disk, offset, done + |data|)
    {
    }

    /** `memcpy(dest, data, |data|)` of the next bytes of the disk. */
    method Deliver(v: nat, done: nat, data: Bytes, ghost disk: Bytes, ghost offset: nat, ghost before: Bytes)
      requires data != [] && offset + done + |data| <= |disk| && data == disk[offset + done..offset + done + |data|]
      requires mem.Fillable(v, done + |data|) && ReadSoFar(disk, offset, v, before, done)
      modifies mem
      ensures ReadSoFar(disk, offset, v, before, done + |data|)
    {
      ShownMore(disk, offset, done, data);
      mem.Store(v, done, data, Shown(disk, offset, done), before);
    }

    /** The same by direct memory access. */
    method DeliverDirect(v: nat, done: nat, data: Bytes, ghost disk: Bytes, ghost offset: nat, ghost before: Bytes)
      requires data != [] && offset + done + |data| <= |disk| && data == disk[offset + done..offset + done + |data|]
      requires mem.Fillable(v, done + |data|) && mem.Contiguous(v, done, |data|) && ReadSoFar(disk, offset, v, before, done)
      modifies mem
      ensures ReadSoFar(disk, offset, v, before, done + |data|)
    {
      ShownMore(disk, offset, done, data);
      mem.DmaIn(v, done, data, Shown(disk, offset, done), before);
    }

    /** `n` sectors through the bounce buffer, of which `count` bytes from `skip` on are copied out. */
    method ReadBounced(dev: Device, bounce: array<uint8>, n: nat, sector: nat, skip: nat, count: nat,
                       v: nat, done: nat, ghost offset: nat, ghost before: Bytes)
      returns (ok: bool)
      requires dev.Takes(n) && dev.canRead && dev.sectorSize > 0
      requires var bytes, at := Span(n, dev.sectorSize), Span(sector, dev.sectorSize);
               0 < bytes <= bounce.Length && count > 0 && skip + count <= bytes && at + skip == offset + done
      requires mem.Fillable(v, done + count) && ReadSoFar(dev.content, offset, v, before, done)
      modifies mem, dev`ops, bounce
      ensures ReadSoFar(dev.content, offset, v, before, if ok then done + count else done)
      ensures dev.Reliable() && Span(sector, dev.sectorSize) + Span(n, dev.sectorSize) <= |dev.content| ==> ok
    {
      ok := Fetch(dev, bounce, n, sector);
      if ok {
        var data := bounce[skip..skip + count];
        SubSlice(bounce[..Span(n, dev.sectorSize)], dev.content, Span(sector, dev.sectorSize), skip, count);
        assert forall i | 0 <= i < count :: data[i] == bounce[..Span(n, dev.sectorSize)][skip..skip + count][i];
        Deliver(v, done, data, dev.content, offset, before);
      }
    }

    lemma SubSlice(a: Bytes, disk: Bytes, at: nat, skip: nat, count: nat)
      requires skip + count <= |a| && at + |a| <= |disk| && a == disk[at..at + |a|]
      ensures a[skip..skip + count] == disk[at + skip..at + skip + count]
    {
      assert forall i | skip <= i < skip + count :: a[i] == disk[at..at + |a|][i] == disk[at + i];
    }

    /** `n` sectors into the bounce buffer. */
    method Fetch(dev: Device, bounce: array<uint8>, n: nat, sector: nat) returns (ok: bool)
      requires dev.Takes(n) && dev.canRead && dev.sectorSize > 0 && 0 < Span(n, dev.sectorSize) <= bounce.Length
      modifies dev`ops, bounce
      ensures var at, bytes := Span(sector, dev.sectorSize), Span(n, dev.sectorSize);
              && (ok ==> at + bytes <= |dev.content| && bounce[..bytes] == dev.content[at..at + bytes])
              && (dev.Reliable() && at + bytes <= |dev.content| ==> ok)
    {
      var got, data := dev.Read(n, sector);
      CopyTo(bounce, data);
      ok := got == n;
    }

    method CopyTo(bounce: array<uint8>, data: Bytes)
      requires |data| <= bounce.Length
      modifies bounce
      ensures bounce[..|data|] == data && bounce[|data|..] == old(bounce[|data|..])
    {
      forall i | 0 <= i < |data| { bounce[i] := data[i]; }
    }

    /** `n` sectors straight into the caller's memory. */
    method ReadDirect(dev: Device, n: nat, sector: nat, v: nat, done: nat,
                      ghost bytes: nat, ghost offset: nat, ghost before: Bytes)
      returns (ok: bool)
      requires dev.Takes(n) && dev.canRead && dev.sectorSize > 0 && bytes == Span(n, dev.sectorSize) > 0
      requires Span(sector, dev.sectorSize) == offset + done
      requires mem.Fillable(v, done + bytes) && mem.Contiguous(v, done, bytes)
      requires ReadSoFar(dev.content, offset, v, before, done)
      modifies mem, dev`ops
      ensures ok ==> ReadSoFar(dev.content, offset, v, before, done + bytes)
      ensures dev.Reliable() && offset + done + bytes <= |dev.content| ==> ok
      ensures mem.ChangedOnly(before, v, done + bytes)
    {
      var got, data := dev.Read(n, sector);
      ok := got == n;
      if data != [] {
        DeliverDirect(v, done, data, dev.content, offset, before);
      }
      mem.ChangedMore(before, v, done + |data|, done + bytes);
    }

    /** `blk_device_read` */
    method Read(drive: int, v: nat, offset: nat, length: nat) returns (status: nat)
      requires Valid() && mem.Fillable(v, length) && Paged(mem.translate)
      requires forall d | d in devices :: devices[d].sectorSize + PAGE_SIZE <= U64
      modifies this`live, this`allocs, this`locks, this`cached, mem, cached.Values
      modifies if drive in devices then {devices[drive]} else {}
      ensures Valid() && locks == old(locks) && Borrowed() == old(Borrowed())
      ensures forall b | b in cached.Values :: fresh(b) || b in old(cached).Values
      ensures mem.ChangedOnly(old(mem.phys), v, length)
      ensures drive in devices ==> devices[drive].content == old(devices[drive].content)
      ensures status == 0 <==> drive !in devices || length == 0
      ensures length > 0 && drive in devices && devices[drive].canRead && (forall k :: canAlloc(k)) ==>
                devices[drive].Reliable() && offset + length <= |devices[drive].content| ==> status == length
      ensures length > 0 && drive in devices && !devices[drive].canRead ==> status == FAILED && mem.phys == old(mem.phys)
      ensures status != 0 && status != FAILED ==>
                && status == length && offset + length <= |devices[drive].content|
                && mem.Shows(v, devices[drive].content[offset..offset + length])
    {
      if drive !in devices || length == 0 {
        return 0;
      }
      var dev := devices[drive];
      if dev.sectorSize == 0 || !dev.canRead {
        return FAILED;
      }
      var window := Window(dev.sectorSize, dev.maxSize);
      var ok, ctx := Acquire(drive, window);
      if !ok {
        return FAILED;
      }
      var done := ReadRange(dev, ctx.buffer, window, v, offset, length);
      Release(ctx, old(locks), old(Borrowed()));
      status := if done then length else FAILED;
    }

    /** The transfers of `blk_device_read`, between acquiring and releasing the bounce buffer. */
    method ReadRange(dev: Device, bounce: array<uint8>, window: nat, v: nat, offset: nat, length: nat) returns (ok: bool)
      requires window == Window(dev.sectorSize, dev.maxSize) && dev.canRead && 0 < dev.sectorSize <= window <= bounce.Length && length > 0 && mem.Fillable(v, length) && Paged(mem.translate)
      modifies mem, dev`ops, bounce
      ensures mem.ChangedOnly(old(mem.phys), v, length)
      ensures ok ==> offset + length <= |dev.content| && mem.Shows(v, dev.content[offset..offset + length])
      ensures dev.Reliable() && offset + length <= |dev.content| ==> ok
    {
      ghost var before := mem.phys;
      var done, sector;
      ok, done, sector := ReadHead(dev, bounce, v, offset, length, before);
      if ok {
        ok, done, sector := ReadAligned(dev, window, v, offset, length, done, sector, before);
      }
      if ok {
        ok, done, sector := ReadChunks(dev, bounce, window, v, offset, length, done, sector, before);
      }
      if ok {
        ok := ReadTail(dev, bounce, v, offset, length, done, sector, before);
      }
    }

    /** The cursor of the loops: `sector` starts at the next byte to transfer. */
    ghost predicate Cursor(dev: Device, offset: nat, length: nat, done: nat, sector: nat)
    {
      done <= length && (done < length ==> Span(sector, dev.sectorSize) == offset + done)
    }

    method ReadHead(dev: Device, bounce: array<uint8>, v: nat, offset: nat, length: nat, ghost before: Bytes)
      returns (ok: bool, done: nat, sector: nat)
      requires dev.canRead && 0 < dev.sectorSize <= bounce.Length && length > 0 && mem.Fillable(v, length) && before == mem.phys
      modifies mem, dev`ops, bounce
      ensures ok ==> Cursor(dev, offset, length, done, sector) && ReadSoFar(dev.content, offset, v, before, done)
      ensures mem.ChangedOnly(before, v, length)
      ensures dev.Reliable() && offset + length <= |dev.content| ==> ok
    {
      var size := dev.sectorSize;
      var skip;
      sector, skip := SplitSectors(offset, size);
      done := 0;
      ok := true;
      if skip != 0 {
        var head := Min(size - skip, length);
        if dev.Serves(offset + length) {
          dev.SectorInside(sector);
        }
        assert Span(1, size) == size;
        mem.MappedLess(v, length, head);
        ok := ReadBounced(dev, bounce, 1, sector, skip, head, v, 0, offset, before);
        if ok {
          done := head;
          sector := sector + 1;
        }
      }
      mem.ChangedMore(before, v, done, length);
    }

    /** The next run of whole sectors worth a direct transfer, 0 bytes for none. */
    method NextDirect(v: nat, done: nat, length: nat, window: nat, size: nat) returns (bytes: nat, n: nat)
      requires 0 < size <= window && done + size <= length && mem.Mapped(v, length) && Paged(mem.translate)
      ensures bytes == Span(n, size) && bytes <= window && done + bytes <= length
      ensures bytes > 0 ==> mem.Mapped(v, done + bytes) && mem.Contiguous(v, done, bytes) && mem.Place(v, done) % PAGE_SIZE == 0
      ensures bytes > 0 ==> bytes >= DIRECT_MIN || bytes == Min(length - done, window)
    {
      var limit := Min(length - done, window);
      var direct := mem.DirectSpan(v, done, limit);
      bytes, n := WholeSectors(direct, size);
      if bytes < size || (bytes < DIRECT_MIN && bytes != limit) {
        return 0, 0;
      }
      mem.MappedLess(v, length, done + bytes);
    }

    /** One direct transfer. */
    method ReadRun(dev: Device, n: nat, bytes: nat, v: nat, ghost offset: nat, ghost length: nat,
                   done0: nat, sector0: nat, ghost before: Bytes)
      returns (ok: bool, done: nat, sector: nat)
      requires dev.Takes(n) && dev.canRead && dev.sectorSize > 0 && bytes == Span(n, dev.sectorSize) > 0 && done0 + bytes <= length
      requires mem.Fillable(v, done0 + bytes) && mem.Contiguous(v, done0, bytes)
      requires Cursor(dev, offset, length, done0, sector0) && ReadSoFar(dev.content, offset, v, before, done0)
      modifies mem, dev`ops
      ensures ok ==> Cursor(dev, offset, length, done, sector) && ReadSoFar(dev.content, offset, v, before, done)
      ensures if ok then done == done0 + bytes else mem.ChangedOnly(before, v, length)
      ensures dev.Reliable() && offset + length <= |dev.content| ==> ok
    {
      ok := ReadDirect(dev, n, sector0, v, done0, bytes, offset, before);
      if !ok {
        mem.ChangedMore(before, v, done0 + bytes, length);
        return ok, done0, sector0;
      }
      SpanSum(sector0, n, dev.sectorSize);
      done, sector := done0 + bytes, sector0 + n;
    }

    method ReadAligned(dev: Device, window: nat, v: nat, offset: nat, length: nat,
                       done0: nat, sector0: nat, ghost before: Bytes)
      returns (ok: bool, done: nat, sector: nat)
      requires window == Window(dev.sectorSize, dev.maxSize) && dev.canRead && 0 < dev.sectorSize <= window && mem.Fillable(v, length) && Paged(mem.translate)
      requires Cursor(dev, offset, length, done0, sector0) && ReadSoFar(dev.content, offset, v, before, done0)
      modifies mem, dev`ops
      ensures mem.ChangedOnly(before, v, length)
      ensures ok ==> Cursor(dev, offset, length, done, sector) && ReadSoFar(dev.content, offset, v, before, done)
      ensures dev.Reliable() && offset + length <= |dev.content| ==> ok
    {
      ok, done, sector := true, done0, sector0;
      while length - done >= dev.sectorSize
        invariant Cursor(dev, offset, length, done, sector) && ReadSoFar(dev.content, offset, v, before, done)
        invariant mem.Fillable(v, length)
        decreases length - done
      {
        var bytes, n := NextDirect(v, done, length, window, dev.sectorSize);
        if bytes == 0 {
          break;
        }
        mem.MappedLess(v, length, done + bytes);
        ok, done, sector := ReadRun(dev, n, bytes, v, offset, length, done, sector, before);
        if !ok {
          return;
        }
      }
      mem.ChangedMore(before, v, done, length);
    }

    /** One bounce chunk. */
    method ReadChunk(dev: Device, bounce: array<uint8>, n: nat, bytes: nat, v: nat, ghost offset: nat, ghost length: nat,
                     done0: nat, sector0: nat, ghost before: Bytes)
      returns (ok: bool, done: nat, sector: nat)
      requires dev.Takes(n) && dev.canRead && dev.sectorSize > 0 && n > 0 && bytes == Span(n, dev.sectorSize) && 0 < bytes <= bounce.Length
      requires done0 + bytes <= length && mem.Fillable(v, length)
      requires Cursor(dev, offset, length, done0, sector0) && ReadSoFar(dev.content, offset, v, before, done0)
      modifies mem, dev`ops, bounce
      ensures ok ==> Cursor(dev, offset, length, done, sector) && ReadSoFar(dev.content, offset, v, before, done)
      ensures if ok then done == done0 + bytes else mem.ChangedOnly(before, v, length)
      ensures dev.Reliable() && offset + length <= |dev.content| ==> ok
    {
      mem.MappedLess(v, length, done0 + bytes);
      ok := ReadBounced(dev, bounce, n, sector0, 0, bytes, v, done0, offset, before);
      if !ok {
        mem.ChangedMore(before, v, done0, length);
        return ok, done0, sector0;
      }
      SpanSum(sector0, n, dev.sectorSize);
      done, sector := done0 + bytes, sector0 + n;
    }

    /** How many whole sectors are left, the most a transfer may take, and how many each one takes. */
    method Chunks(dev: Device, window: nat, left: nat) returns (mid: nat, max: nat, chunk: nat)
      requires 0 < dev.sectorSize <= window == Window(dev.sectorSize, dev.maxSize)
      ensures Span(mid, dev.sectorSize) <= left < Span(mid, dev.sectorSize) + dev.sectorSize
      ensures Span(max, dev.sectorSize) <= window && dev.Takes(max) && (mid > 0 ==> 0 < chunk <= max)
    {
      var rest;
      max, rest := SplitSectors(window, dev.sectorSize);
      max := Max(max, 1);
      mid, rest := SplitSectors(left, dev.sectorSize);
      chunk := Min(mid, max);
    }

    /** The next chunk of the `mid` whole sectors that are left, at most `max` sectors. */
    method NextChunk(dev: Device, mid: nat, chunk: nat, max: nat) returns (n: nat, bytes: nat)
      requires dev.sectorSize > 0 && mid > 0 && 0 < chunk <= max && dev.Takes(max)
      ensures 0 < n <= mid && bytes == Span(n, dev.sectorSize) && 0 < bytes <= Span(max, dev.sectorSize) && dev.Takes(n)
      ensures Span(mid - n, dev.sectorSize) + bytes == Span(mid, dev.sectorSize)
    {
      n := Min(mid, chunk);
      bytes := BytesOf(n, dev.sectorSize);
      ChunkFits(mid, n, max, dev.sectorSize);
    }

    /** The bounce chunks. */
    method ReadChunks(dev: Device, bounce: array<uint8>, window: nat, v: nat, offset: nat, length: nat,
                      done0: nat, sector0: nat, ghost before: Bytes)
      returns (ok: bool, done: nat, sector: nat)
      requires window == Window(dev.sectorSize, dev.maxSize) && dev.canRead && 0 < dev.sectorSize <= window <= bounce.Length && mem.Fillable(v, length)
      requires Cursor(dev, offset, length, done0, sector0) && ReadSoFar(dev.content, offset, v, before, done0)
      modifies mem, dev`ops, bounce
      ensures mem.ChangedOnly(before, v, length) && (ok ==> ReadSoFar(dev.content, offset, v, before, done))
      ensures ok ==> Cursor(dev, offset, length, done, sector) && length - done < dev.sectorSize
      ensures dev.Reliable() && offset + length <= |dev.content| ==> ok
    {
      var size := dev.sectorSize;
      ok, done, sector := true, done0, sector0;
      var mid, max, chunk := Chunks(dev, window, length - done);
      while mid > 0
        invariant Cursor(dev, offset, length, done, sector) && ReadSoFar(dev.content, offset, v, before, done)
        invariant Span(mid, size) <= length - done < Span(mid, size) + size
        invariant mid > 0 ==> 0 < chunk <= max
        decreases mid
      {
        var n, bytes := NextChunk(dev, mid, chunk, max);
        ok, done, sector := ReadChunk(dev, bounce, n, bytes, v, offset, length, done, sector, before);
        if !ok {
          return;
        }
        mid := mid - n;
      }
      mem.ChangedMore(before, v, done, length);
    }

    /** What is left is part of one sector. */
    method ReadTail(dev: Device, bounce: array<uint8>, v: nat, offset: nat, length: nat,
                    done: nat, sector: nat, ghost before: Bytes)
      returns (ok: bool)
      requires dev.canRead && 0 < dev.sectorSize <= bounce.Length && mem.Fillable(v, length) && length - done < dev.sectorSize
      requires Cursor(dev, offset, length, done, sector) && ReadSoFar(dev.content, offset, v, before, done)
      modifies mem, dev`ops, bounce
      ensures mem.ChangedOnly(before, v, length) && (ok ==> ReadSoFar(dev.content, offset, v, before, length))
      ensures dev.Reliable() && offset + length <= |dev.content| ==> ok
    {
      ok := true;
      if done < length {
        mem.MappedLess(v, length, done + (length - done));
        if dev.Serves(offset + length) {
          dev.SectorInside(sector);
        }
        assert Span(1, dev.sectorSize) == dev.sectorSize;
        ok := ReadBounced(dev, bounce, 1, sector, 0, length - done, v, done, offset, before);
        mem.ChangedMore(before, v, if ok then length else done, length);
      }
    }

    // ----- writing -----

    /** The disk after the first `done` bytes of `src` were written from `offset` on. */
    ghost predicate WriteSoFar(disk0: Bytes, disk: Bytes, src: Bytes, offset: nat, done: nat) {
      && done <= |src| && (done > 0 ==> offset + done <= |disk0|)
      && disk == if done == 0 then disk0 else Splice(disk0, offset, src[..done])
    }

    lemma WriteMore(disk0: Bytes, disk: Bytes, src: Bytes, offset: nat, done: nat, part: Bytes, disk': Bytes)
      requires WriteSoFar(disk0, disk, src, offset, done) && part != [] && done + |part| <= |src|
      requires part == src[done..done + |part|] && offset + done + |part| <= |disk|
      requires disk' == Splice(disk, offset + done, part)
      ensures WriteSoFar(disk0, disk', src, offset, done + |part|)
    {
      if done == 0 {
        assert part == src[..|part|];
      } else {
        SpliceSplice(disk0, offset, src[..done], part);
        assert src[..done] + part == src[..done + |part|];
      }
    }

    lemma PrefixOfSlice(src: Bytes, done: nat, n: nat, m: nat)
      requires done + n <= |src| && m <= n
      ensures src[done..done + n][..m] == src[done..done + m]
    {
    }

    /** Rewriting a sector with `part` of the source patched in. */
    lemma SectorMore(disk0: Bytes, disk: Bytes, src: Bytes, offset: nat, done: nat, part: Bytes,
                     at: nat, size: nat, skip: nat, disk': Bytes)
      requires WriteSoFar(disk0, disk, src, offset, done) && part != [] && done + |part| <= |src|
      requires part == src[done..done + |part|] && at + skip == offset + done
      requires at + size <= |disk| && skip + |part| <= size
      requires disk' == Splice(disk, at, Splice(disk[at..at + size], skip, part))
      ensures WriteSoFar(disk0, disk', src, offset, done + |part|)
    {
      SpliceSector(disk, at, size, skip, part);
      WriteMore(disk0, disk, src, offset, done, part, disk');
    }

    /** Read-modify-write of one sector. */
    method ModifySector(dev: Device, bounce: array<uint8>, sector: nat, skip: nat, count: nat,
                        v: nat, done: nat, ghost src: Bytes, ghost offset: nat, ghost disk0: Bytes)
      returns (ok: bool)
      requires dev.canWrite && 0 < dev.sectorSize <= bounce.Length && count > 0 && skip + count <= dev.sectorSize
      requires Span(sector, dev.sectorSize) + skip == offset + done
      requires mem.Shows(v, src) && done + count <= |src|
      requires WriteSoFar(disk0, dev.content, src, offset, done)
      modifies dev, bounce
      ensures WriteSoFar(disk0, dev.content, src, offset, if ok then done + count else done)
      ensures old(dev.Reliable()) ==> dev.Reliable() && |dev.content| == |old(dev.content)|
      ensures ok ==> dev.canRead
      ensures old(dev.Reliable()) && dev.canRead && offset + done + count <= |dev.content| ==> ok
    {
      if !dev.canRead {
        return false;
      }
      var data := mem.Load(v, done, count, src);
      if dev.Serves(offset + done + count) {
        dev.SectorInside(sector);
      }
      ok := FetchPatched(dev, bounce, sector, skip, data);
      if !ok {
        return;
      }
      ok := SendPatched(dev, sector, skip, bounce[..dev.sectorSize], data, done, src, offset, disk0);
    }

    /** The changed sector goes back to the device. */
    method SendPatched(dev: Device, sector: nat, ghost skip: nat, bytes: Bytes, ghost part: Bytes,
                       ghost done: nat, ghost src: Bytes, ghost offset: nat, ghost disk0: Bytes)
      returns (ok: bool)
      requires dev.canWrite && 0 < dev.sectorSize && part != [] && skip + |part| <= dev.sectorSize
      requires var at := Span(sector, dev.sectorSize);
               && at + skip == offset + done && at + dev.sectorSize <= |dev.content|
               && bytes == Splice(dev.content[at..at + dev.sectorSize], skip, part)
      requires done + |part| <= |src| && part == src[done..done + |part|]
      requires WriteSoFar(disk0, dev.content, src, offset, done)
      modifies dev
      ensures WriteSoFar(disk0, dev.content, src, offset, if ok then done + |part| else done)
      ensures old(dev.Reliable()) ==> dev.Reliable() && |dev.content| == |old(dev.content)| && ok
    {
      ghost var disk := dev.content;
      assert Span(1, dev.sectorSize) == dev.sectorSize;
      ok := Send(dev, 1, sector, bytes);
      if ok {
        SectorMore(disk0, disk, src, offset, done, part, Span(sector, dev.sectorSize), dev.sectorSize, skip, dev.content);
      }
    }

    /** One sector read into the bounce buffer and changed there. */
    method FetchPatched(dev: Device, bounce: array<uint8>, sector: nat, skip: nat, data: Bytes) returns (ok: bool)
      requires dev.canRead && 0 < dev.sectorSize <= bounce.Length && skip + |data| <= dev.sectorSize
      modifies dev`ops, bounce
      ensures var at, size := Span(sector, dev.sectorSize), dev.sectorSize;
              && (ok ==> at + size <= |dev.content| && bounce[..size] == Splice(dev.content[at..at + size], skip, data))
              && (dev.Reliable() && at + size <= |dev.content| ==> ok)
    {
      assert Span(1, dev.sectorSize) == dev.sectorSize;
      ok := Fetch(dev, bounce, 1, sector);
      if ok {
        Patch(bounce, dev.sectorSize, skip, data);
      }
    }

    /** `memcpy` into the sector held in the bounce buffer. */
    method Patch(bounce: array<uint8>, size: nat, at: nat, data: Bytes)
      requires at + |data| <= size <= bounce.Length
      modifies bounce
      ensures bounce[..size] == Splice(old(bounce[..size]), at, data)
    {
      forall i | 0 <= i < |data| { bounce[at + i] := data[i]; }
    }

    /** One sector to the device: all of it or nothing. */
    method Send(dev: Device, n: nat, sector: nat, data: Bytes) returns (ok: bool)
      requires dev.Takes(n) && dev.canWrite && n == 1 && dev.sectorSize > 0 && |data| == Span(n, dev.sectorSize)
      modifies dev
      ensures var at := Span(sector, dev.sectorSize);
              if ok then at + |data| <= |old(dev.content)| && dev.content == Splice(old(dev.content), at, data)
              else dev.content == old(dev.content)
      ensures old(dev.Reliable()) ==> dev.Reliable() && |dev.content| == |old(dev.content)|
      ensures old(dev.Reliable()) && Span(sector, dev.sectorSize) + |data| <= |dev.content| ==> ok
    {
      var got, moved := dev.Write(n, sector, data);
      ok := got == n;
      assert data[..|data|] == data;
      assert |data| > 0;
    }

    /** `n` sectors of data to the device; a transfer cut short writes a prefix. */
    method SendSectors(dev: Device, n: nat, sector: nat, data: Bytes,
                       done: nat, ghost length: nat, ghost src: Bytes, ghost offset: nat, ghost disk0: Bytes)
      returns (ok: bool, done': nat, sector': nat, ghost made: nat)
      requires dev.Takes(n) && dev.canWrite && dev.sectorSize > 0 && |data| == Span(n, dev.sectorSize) > 0
      requires Cursor(dev, offset, length, done, sector) && |src| == length
      requires done + |data| <= length && data == src[done..done + |data|]
      requires WriteSoFar(disk0, dev.content, src, offset, done)
      modifies dev
      ensures WriteSoFar(disk0, dev.content, src, offset, made) && done <= made <= done + |data|
      ensures made <= length && (ok ==> Cursor(dev, offset, length, done', sector') && made == done' == done + |data|)
      ensures old(dev.Reliable()) ==> dev.Reliable() && |dev.content| == |old(dev.content)|
      ensures old(dev.Reliable()) && offset + length <= |dev.content| ==> ok
    {
      ghost var before := dev.content;
      var got, moved := dev.Write(n, sector, data);
      ok := got == n;
      made := done + moved;
      SentMore(disk0, before, src, offset, done, data, moved, dev.content);
      CursorMoves(dev, offset, length, done, sector, n, |data|);
      done', sector' := done + |data|, sector + n;
    }

    /** A prefix of the next bytes reached the disk. */
    lemma SentMore(disk0: Bytes, disk: Bytes, src: Bytes, offset: nat, done: nat, data: Bytes, moved: nat, disk': Bytes)
      requires WriteSoFar(disk0, disk, src, offset, done) && moved <= |data| && done + |data| <= |src|
      requires data == src[done..done + |data|] && |disk| == |disk0|
      requires moved == 0 ==> disk' == disk
      requires moved > 0 ==> offset + done + moved <= |disk| && disk' == Splice(disk, offset + done, data[..moved])
      ensures WriteSoFar(disk0, disk', src, offset, done + moved)
    {
      if moved > 0 {
        PrefixOfSlice(src, done, |data|, moved);
        WriteMore(disk0, disk, src, offset, done, data[..moved], disk');
      }
    }

    /** The cursor after `n` whole sectors. */
    lemma CursorMoves(dev: Device, offset: nat, length: nat, done: nat, sector: nat, n: nat, bytes: nat)
      requires Cursor(dev, offset, length, done, sector) && bytes == Span(n, dev.sectorSize) && 0 < bytes
      requires done + bytes <= length
      ensures Cursor(dev, offset, length, done + bytes, sector + n)
    {
      SpanSum(sector, n, dev.sectorSize);
    }

    /** `n` sectors through the bounce buffer. */
    method WriteBounced(dev: Device, bounce: array<uint8>, n: nat, bytes: nat, v: nat, ghost length: nat,
                        done0: nat, sector0: nat, ghost src: Bytes, ghost offset: nat, ghost disk0: Bytes)
      returns (ok: bool, done: nat, sector: nat, ghost made: nat)
      requires dev.Takes(n) && dev.canWrite && dev.sectorSize > 0 && bytes == Span(n, dev.sectorSize) && 0 < bytes <= bounce.Length
      requires mem.Shows(v, src) && |src| == length && done0 + bytes <= length
      requires Cursor(dev, offset, length, done0, sector0) && WriteSoFar(disk0, dev.content, src, offset, done0)
      modifies dev, bounce
      ensures WriteSoFar(disk0, dev.content, src, offset, made) && made <= length
      ensures ok ==> Cursor(dev, offset, length, done, sector) && made == done == done0 + bytes
      ensures old(dev.Reliable()) ==> dev.Reliable() && |dev.content| == |old(dev.content)|
      ensures old(dev.Reliable()) && offset + length <= |dev.content| ==> ok
    {
      var data := mem.Load(v, done0, bytes, src);
      CopyTo(bounce, data);
      ok, done, sector, made := SendSectors(dev, n, sector0, bounce[..bytes], done0, length, src, offset, disk0);
    }

    /** `n` sectors straight from the caller's memory. */
    method WriteRun(dev: Device, n: nat, bytes: nat, v: nat, ghost length: nat,
                    done0: nat, sector0: nat, ghost src: Bytes, ghost offset: nat, ghost disk0: Bytes)
      returns (ok: bool, done: nat, sector: nat, ghost made: nat)
      requires dev.Takes(n) && dev.canWrite && dev.sectorSize > 0 && bytes == Span(n, dev.sectorSize) > 0
      requires mem.Shows(v, src) && |src| == length && done0 + bytes <= length && mem.Contiguous(v, done0, bytes)
      requires Cursor(dev, offset, length, done0, sector0) && WriteSoFar(disk0, dev.content, src, offset, done0)
      modifies dev
      ensures WriteSoFar(disk0, dev.content, src, offset, made) && made <= length
      ensures ok ==> Cursor(dev, offset, length, done, sector) && made == done == done0 + bytes
      ensures old(dev.Reliable()) ==> dev.Reliable() && |dev.content| == |old(dev.content)|
      ensures old(dev.Reliable()) && offset + length <= |dev.content| ==> ok
    {
      var data := mem.DmaOut(v, done0, bytes, src);
      ok, done, sector, made := SendSectors(dev, n, sector0, data, done0, length, src, offset, disk0);
    }

    method WriteHead(dev: Device, bounce: array<uint8>, v: nat, offset: nat, length: nat, ghost src: Bytes)
      returns (ok: bool, done: nat, sector: nat)
      requires dev.canWrite && 0 < dev.sectorSize <= bounce.Length && length > 0 && mem.Shows(v, src) && |src| == length
      modifies dev, bounce
      ensures ok ==> Cursor(dev, offset, length, done, sector)
      ensures WriteSoFar(old(dev.content), dev.content, src, offset, done) && done <= length
      ensures old(dev.Reliable()) ==> dev.Reliable() && |dev.content| == |old(dev.content)|
      ensures ok ==> InStep(offset, done, dev.sectorSize) && (dev.canRead || OnSector(offset, dev.sectorSize))
      ensures old(dev.Reliable()) && (dev.canRead || OnSector(offset, dev.sectorSize)) && offset + length <= |dev.content| ==> ok
    {
      var skip;
      sector, skip := SplitSectors(offset, dev.sectorSize);
      done := 0;
      InStepStart(offset, dev.sectorSize);
      ok := true;
      if skip != 0 {
        var head := Min(dev.sectorSize - skip, length);
        ok := ModifySector(dev, bounce, sector, skip, head, v, 0, src, offset, dev.content);
        if ok {
          done, sector := head, sector + 1;
        }
      }
    }

    method WriteAligned(dev: Device, window: nat, v: nat, length: nat, done0: nat, sector0: nat,
                        ghost src: Bytes, ghost offset: nat, ghost disk0: Bytes)
      returns (ok: bool, done: nat, sector: nat, ghost made: nat)
      requires window == Window(dev.sectorSize, dev.maxSize) && dev.canWrite && 0 < dev.sectorSize <= window && mem.Mapped(v, length) && Paged(mem.translate)
      requires mem.Shows(v, src) && |src| == length
      requires InStep(offset, done0, dev.sectorSize)
      requires Cursor(dev, offset, length, done0, sector0) && WriteSoFar(disk0, dev.content, src, offset, done0)
      modifies dev
      ensures ok ==> InStep(offset, done, dev.sectorSize)
      ensures WriteSoFar(disk0, dev.content, src, offset, made) && made <= length
      ensures ok ==> Cursor(dev, offset, length, done, sector) && made == done
      ensures old(dev.Reliable()) ==> dev.Reliable() && |dev.content| == |old(dev.content)|
      ensures old(dev.Reliable()) && offset + length <= |dev.content| ==> ok
    {
      ok, done, sector, made := true, done0, sector0, done0;
      while length - done >= dev.sectorSize
        invariant Cursor(dev, offset, length, done, sector) && made == done
        invariant InStep(offset, done, dev.sectorSize)
        invariant WriteSoFar(disk0, dev.content, src, offset, made)
        invariant old(dev.Reliable()) ==> dev.Reliable() && |dev.content| == |old(dev.content)|
        decreases length - done
      {
        var bytes, n := NextDirect(v, done, length, window, dev.sectorSize);
        if bytes == 0 {
          break;
        }
        InStepMore(offset, done, n, dev.sectorSize);
        ok, done, sector, made := WriteRun(dev, n, bytes, v, length, done, sector, src, offset, disk0);
        if !ok {
          return;
        }
      }
    }

    method WriteChunks(dev: Device, bounce: array<uint8>, window: nat, v: nat, length: nat, done0: nat, sector0: nat,
                       ghost src: Bytes, ghost offset: nat, ghost disk0: Bytes)
      returns (ok: bool, done: nat, sector: nat, ghost made: nat)
      requires window == Window(dev.sectorSize, dev.maxSize) && dev.canWrite && 0 < dev.sectorSize <= window <= bounce.Length && mem.Shows(v, src) && |src| == length
      requires InStep(offset, done0, dev.sectorSize)
      requires Cursor(dev, offset, length, done0, sector0) && WriteSoFar(disk0, dev.content, src, offset, done0)
      modifies dev, bounce
      ensures ok ==> InStep(offset, done, dev.sectorSize)
      ensures WriteSoFar(disk0, dev.content, src, offset, made) && made <= length
      ensures ok ==> Cursor(dev, offset, length, done, sector) && made == done && length - done < dev.sectorSize
      ensures old(dev.Reliable()) ==> dev.Reliable() && |dev.content| == |old(dev.content)|
      ensures old(dev.Reliable()) && offset + length <= |dev.content| ==> ok
    {
      var size := dev.sectorSize;
      ok, done, sector, made := true, done0, sector0, done0;
      var mid, max, chunk := Chunks(dev, window, length - done);
      while mid > 0
        invariant Cursor(dev, offset, length, done, sector) && made == done
        invariant InStep(offset, done, dev.sectorSize)
        invariant WriteSoFar(disk0, dev.content, src, offset, made)
        invariant old(dev.Reliable()) ==> dev.Reliable() && |dev.content| == |old(dev.content)|
        invariant Span(mid, size) <= length - done < Span(mid, size) + size
        invariant mid > 0 ==> 0 < chunk <= max
        decreases mid
      {
        var n, bytes := NextChunk(dev, mid, chunk, max);
        InStepMore(offset, done, n, size);
        ok, done, sector, made := WriteBounced(dev, bounce, n, bytes, v, length, done, sector, src, offset, disk0);
        if !ok {
          return;
        }
        mid := mid - n;
      }
    }

    method WriteTail(dev: Device, bounce: array<uint8>, v: nat, length: nat, done: nat, sector: nat,
                     ghost src: Bytes, ghost offset: nat, ghost disk0: Bytes)
      returns (ok: bool, ghost made: nat)
      requires dev.canWrite && 0 < dev.sectorSize <= bounce.Length && length - done < dev.sectorSize
      requires mem.Shows(v, src) && |src| == length
      requires Cursor(dev, offset, length, done, sector) && WriteSoFar(disk0, dev.content, src, offset, done)
      modifies dev, bounce
      ensures WriteSoFar(disk0, dev.content, src, offset, made) && made <= length && (ok ==> made == length)
      ensures old(dev.Reliable()) ==> dev.Reliable() && |dev.content| == |old(dev.content)|
      ensures ok ==> dev.canRead || done == length
      ensures old(dev.Reliable()) && (dev.canRead || done == length) && offset + length <= |dev.content| ==> ok
    {
      ok, made := true, done;
      if done < length {
        ok := ModifySector(dev, bounce, sector, 0, length - done, v, done, src, offset, disk0);
        made := if ok then length else done;
      }
    }

    lemma LastPart(dev: Device, offset: nat, length: nat, done: nat)
      requires done <= length < done + dev.sectorSize && InStep(offset, done, dev.sectorSize)
      ensures OnSector(offset, dev.sectorSize) ==> (done == length <==> OnSector(length, dev.sectorSize))
    {
      OnSectorIs(length, dev.sectorSize);
      if OnSector(offset, dev.sectorSize) {
        RestRemainder(done, length, dev.sectorSize);
      }
    }

    /** The transfers of `blk_device_write`, between acquiring and releasing the bounce buffer. */
    method WriteRange(dev: Device, bounce: array<uint8>, window: nat, v: nat, offset: nat, length: nat, ghost src: Bytes)
      returns (ok: bool, ghost made: nat)
      requires window == Window(dev.sectorSize, dev.maxSize) && dev.canWrite && 0 < dev.sectorSize <= window <= bounce.Length && length > 0 && mem.Mapped(v, length) && Paged(mem.translate)
      requires mem.Shows(v, src) && |src| == length
      modifies dev, bounce
      ensures WriteSoFar(old(dev.content), dev.content, src, offset, made) && made <= length && (ok ==> made == length)
      ensures old(dev.Reliable()) ==> dev.Reliable() && |dev.content| == |old(dev.content)|
      ensures ok ==> dev.canRead || OnSectors(offset, length, dev.sectorSize)
      ensures old(dev.Reliable()) && (dev.canRead || OnSectors(offset, length, dev.sectorSize)) && offset + length <= |dev.content| ==> ok
    {
      ghost var disk0 := dev.content;
      var done, sector;
      ok, done, sector := WriteHead(dev, bounce, v, offset, length, src);
      made := done;
      if ok {
        ok, done, sector, made := WriteAligned(dev, window, v, length, done, sector, src, offset, disk0);
      }
      if ok {
        ok, done, sector, made := WriteChunks(dev, bounce, window, v, length, done, sector, src, offset, disk0);
      }
      if ok {
        LastPart(dev, offset, length, done);
        ok, made := WriteTail(dev, bounce, v, length, done, sector, src, offset, disk0);
      }
    }

    /** `blk_device_write`; `usable` is the answer of the buffer check, `src` what the buffer holds. */
    method Write(dev: Device, v: nat, offset: nat, length: nat, usable: bool, ghost src: Bytes)
      returns (status: nat, ghost made: nat)
      requires Valid() && dev.sectorSize + PAGE_SIZE <= U64
      requires usable ==> mem.Mapped(v, length) && Paged(mem.translate) && mem.Shows(v, src) && |src| == length
      modifies this`live, this`allocs, this`locks, this`cached, cached.Values, dev
      ensures Valid() && locks == old(locks) && Borrowed() == old(Borrowed())
      ensures forall b | b in cached.Values :: fresh(b) || b in old(cached).Values
      ensures status == 0 <==> length == 0
      ensures status == 0 || status == FAILED || status == length
      ensures made > 0 ==> usable
      ensures made > 0 ==> WriteSoFar(old(dev.content), dev.content, src, offset, made)
      ensures made == 0 ==> dev.content == old(dev.content)
      ensures status != 0 && status != FAILED ==> made == length
      ensures old(dev.Reliable()) ==> dev.Reliable() && |dev.content| == |old(dev.content)|
      ensures length > 0 && (!usable || !dev.canWrite) ==> status == FAILED && dev.content == old(dev.content)
      ensures length > 0 && usable && dev.canWrite && (forall k :: canAlloc(k)) ==>
                old(dev.Reliable()) && offset + length <= |dev.content| ==>
                (dev.canRead || WholeSectorsOnly(offset, length, dev.sectorSize) ==> status == length)
      ensures status != 0 && status != FAILED && dev.sectorSize > 0 ==> dev.canRead || WholeSectorsOnly(offset, length, dev.sectorSize)
    {
      made := 0;
      if length == 0 {
        return 0, 0;
      }
      if !usable {
        return FAILED, 0;
      }
      if dev.sectorSize == 0 || !dev.canWrite {
        return FAILED, 0;
      }
      var window := Window(dev.sectorSize, dev.maxSize);
      var ok, ctx := Acquire(dev.vdiskid, window);
      if !ok {
        return FAILED, 0;
      }
      OnSectorsIs(offset, length, dev.sectorSize);
      var good;
      good, made := WriteRange(dev, ctx.buffer, window, v, offset, length, src);
      Release(ctx, old(locks), old(Borrowed()));
      status := if good then length else FAILED;
    }

    /** A write that succeeds is seen by every later read: its own bytes inside
        the written range, the old ones outside. */
    method WriteThenRead(drive: int, v: nat, offset: nat, length: nat, ghost src: Bytes, w: nat, from: nat, count: nat)
      returns (ok: bool)
      requires Valid() && drive in devices && devices[drive].vdiskid == drive
      requires forall d | d in devices :: devices[d].sectorSize + PAGE_SIZE <= U64
      requires mem.Mapped(v, length) && mem.Shows(v, src) && |src| == length > 0
      requires mem.Fillable(w, count) && count > 0 && Paged(mem.translate)
      modifies this`live, this`allocs, this`locks, this`cached, cached.Values, mem, devices[drive]
      ensures ok ==> offset + length <= |old(devices[drive].content)| && from + count <= |old(devices[drive].content)|
      ensures ok ==> forall i: nat | i < count ::
                mem.Place(w, i) < |mem.phys| && mem.phys[mem.Place(w, i)] ==
                  if offset <= from + i < offset + length then src[from + i - offset] else old(devices[drive].content)[from + i]
    {
      var dev := devices[drive];
      ghost var disk := dev.content;
      var status, _ := Write(dev, v, offset, length, true, src);
      if status == FAILED {
        return false;
      }
      assert src[..length] == src;
      status := Read(drive, w, from, count);
      ok := status != FAILED;
      if ok {
        ghost var seen := dev.content[from..from + count];
        assert dev.content == Splice(disk, offset, src);
        forall i: nat | i < count
          ensures mem.Place(w, i) < |mem.phys| && mem.phys[mem.Place(w, i)] ==
                    if offset <= from + i < offset + length then src[from + i - offset] else disk[from + i]
        {
          assert mem.phys[mem.Place(w, i)] == seen[i] == Splice(disk, offset, src)[from + i];
        }
      }
    }
  }
}
