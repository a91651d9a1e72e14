/** The extent map of a fork: the extents in its volume header or catalog record, continued by
    the records of the extents overflow file. */
module Extents {
  import opened Cache

  datatype Extent = Extent(start: nat, count: nat)

  /** Every record has density extents. The overflow record that continues the fork is looked
      up by the number of blocks before it (ReadExtentsEntry). */
  datatype Fork = Fork(density: nat, inline: seq<Extent>, overflow: nat -> seq<Extent>)

  ghost predicate WellFormed(f: Fork) {
    f.density > 0 && |f.inline| == f.density && forall b :: |f.overflow(b)| == f.density
  }

  /** The n-th extent of the fork. */
  ghost function ExtentAt(f: Fork, n: nat): Extent
    requires WellFormed(f)
    decreases n, 1
  {
    if n < f.density then f.inline[n]
    else f.overflow(Prefix(f, n - n % f.density))[n % f.density]
  }

  /** The number of blocks in the first n extents. */
  ghost function Prefix(f: Fork, n: nat): nat
    requires WellFormed(f)
    decreases n, 0
  {
    if n == 0 then 0 else Prefix(f, n - 1) + ExtentAt(f, n - 1).count
  }

  lemma {:induction false} PrefixMonotone(f: Fork, m: nat, n: nat)
    requires WellFormed(f) && m <= n
    ensures Prefix(f, m) <= Prefix(f, n)
    decreases n - m
  {
    if m < n {
      PrefixMonotone(f, m, n - 1);
    }
  }

  /** Extent n holds the block b of the fork. */
  ghost predicate Holds(f: Fork, n: nat, b: int)
    requires WellFormed(f)
  {
    Prefix(f, n) <= b < Prefix(f, n + 1)
  }

  /** A block is held by one extent at most, zero-length extents in between or not. */
  lemma HoldsOnce(f: Fork, m: nat, n: nat, b: int)
    requires WellFormed(f) && Holds(f, m, b) && Holds(f, n, b)
    ensures m == n
  {
    if m < n {
      PrefixMonotone(f, m + 1, n);
    } else if n < m {
      PrefixMonotone(f, n + 1, m);
    }
  }

  /** The blocks before the given one are all held by some extent. */
  ghost predicate Covers(f: Fork, blocks: int)
    requires WellFormed(f)
  {
    exists n :: Prefix(f, n) >= blocks
  }

  /** The disk block behind block b of the fork. */
  ghost function DiskBlock(f: Fork, b: nat): nat
    requires WellFormed(f) && Covers(f, b + 1)
  {
    CoveredHolds(f, b);
    var n: nat :| Holds(f, n, b);
    ExtentAt(f, n).start + (b - Prefix(f, n))
  }

  lemma CoveredHolds(f: Fork, b: nat)
    requires WellFormed(f) && Covers(f, b + 1)
    ensures exists n :: Holds(f, n, b)
  {
    var n: nat :| Prefix(f, n) >= b + 1;
    while Prefix(f, n - 1) > b
      invariant n > 0 && Prefix(f, n) > b
      decreases n
    {
      n := n - 1;
    }
    assert Holds(f, n - 1, b);
  }

  lemma DiskBlockIs(f: Fork, n: nat, b: nat)
    requires WellFormed(f) && Covers(f, b + 1) && Holds(f, n, b)
    ensures DiskBlock(f, b) == ExtentAt(f, n).start + (b - Prefix(f, n))
  {
    CoveredHolds(f, b);
    var m: nat :| Holds(f, m, b) && DiskBlock(f, b) == ExtentAt(f, m).start + (b - Prefix(f, m));
    HoldsOnce(f, m, n, b);
  }

  lemma CoversLess(f: Fork, b: int, c: int)
    requires WellFormed(f) && Covers(f, c) && b <= c
    ensures Covers(f, b)
  {
    var n: nat :| Prefix(f, n) >= c;
    assert Prefix(f, n) >= b;
  }

  lemma PrefixNext(f: Fork, n: nat)
    requires WellFormed(f)
    ensures Prefix(f, n + 1) == Prefix(f, n) + ExtentAt(f, n).count
  {
  }

  /** Blocks needed for the bytes before the end. */
  function BlocksFor(end: int, blockSize: int): int
    requires blockSize > 0
  {
    if end <= 0 then 0 else (end - 1) / blockSize + 1
  }

  /** The block that byte x of a fork is in. */
  function BlockOf(x: nat, blockSize: int): nat
    requires blockSize > 0
  {
    x / blockSize
  }

  /** Where byte x of the fork is on the disk, the allocation blocks starting at base. */
  ghost function ByteOffset(f: Fork, blockSize: int, base: int, x: nat): int
    requires WellFormed(f) && blockSize > 0 && Covers(f, BlockOf(x, blockSize) + 1)
  {
    base + DiskBlock(f, BlockOf(x, blockSize)) * blockSize + x % blockSize
  }

  /** The bytes [offset, offset + size) of the fork. */
  ghost function ForkBytes(f: Fork, disk: Disk, ih: int, blockSize: int, base: int, offset: nat, size: nat): (s: seq<Byte>)
    requires WellFormed(f) && blockSize > 0 && Covers(f, BlocksFor(offset + size, blockSize))
    ensures |s| == size
  {
    seq(size, k requires 0 <= k < size =>
      NeededBlock(f, blockSize, offset + k, offset + size);
      disk(ih, ByteOffset(f, blockSize, base, offset + k)))
  }

  lemma NeededBlock(f: Fork, blockSize: int, x: nat, end: nat)
    requires WellFormed(f) && blockSize > 0 && x < end && Covers(f, BlocksFor(end, blockSize))
    ensures Covers(f, BlockOf(x, blockSize) + 1) && BlockOf(x, blockSize) < BlocksFor(end, blockSize)
  {
    DivMonotone(x, end - 1, blockSize);
    CoversLess(f, BlockOf(x, blockSize) + 1, BlocksFor(end, blockSize));
  }

  lemma DivMonotone(x: nat, y: nat, d: int)
    requires x <= y && d > 0
    ensures x / d <= y / d
    ensures BlockOf(x, d) <= BlockOf(y, d)
  {
    DivBounds(x, d);
    DivBounds(y, d);
    if x / d > y / d {
      MulMonotone(y / d + 1, x / d, d);
    }
  }

  lemma DivUnique(x: nat, d: nat, q: nat)
    requires d > 0 && q * d <= x < q * d + d
    ensures x / d == q && x % d == x - q * d
  {
    DivBounds(x, d);
    assert x == x / d * d + x % d;
    if x / d > q {
      MulMonotone(q + 1, x / d, d);
    } else if x / d < q {
      MulMonotone(x / d + 1, q, d);
    }
  }

  /** Inside one extent, the fork's bytes are consecutive on the disk. */
  lemma ByteInExtent(f: Fork, blockSize: nat, base: int, n: nat, x: nat)
    requires WellFormed(f) && blockSize > 0
    requires Prefix(f, n) * blockSize <= x < (Prefix(f, n) + ExtentAt(f, n).count) * blockSize
    ensures Covers(f, BlockOf(x, blockSize) + 1)
    ensures ByteOffset(f, blockSize, base, x) == base + ExtentAt(f, n).start * blockSize + x - Prefix(f, n) * blockSize
  {
    var b, p, s := x / blockSize, Prefix(f, n), ExtentAt(f, n).start;
    DivBounds(x, blockSize);
    assert x == b * blockSize + x % blockSize;
    if b < p {
      MulMonotone(b + 1, p, blockSize);
    }
    if b >= p + ExtentAt(f, n).count {
      MulMonotone(p + ExtentAt(f, n).count, b, blockSize);
    }
    assert Holds(f, n, b);
    assert Prefix(f, n + 1) >= b + 1;
    DiskBlockIs(f, n, b);
    Distribute(s, b, p, blockSize);
  }

  lemma Distribute(s: int, b: int, p: int, d: int)
    ensures (s + (b - p)) * d == s * d + b * d - p * d
  {
  }
}

/** ReadExtent of bootx/fs/hfs.c. */
module ReadExtents {
  import opened Cache
  import opened Extents
  import opened ExtentsEntry

  class Volume {
    const cache: BlockCache
    const gCurrentIH: int
    const gBlockSize: int
    const gAllocationOffset: int

    ghost predicate Valid()
      reads this, cache, cache.gCacheEntries, cache.gCacheBuffer
    {
      cache.Valid() && gCurrentIH != 0 && gBlockSize > 0
    }

    constructor (cache: BlockCache, ih: int, blockSize: int, allocationOffset: int)
      requires cache.Valid() && ih != 0 && blockSize > 0
      ensures Valid() && this.cache == cache && gCurrentIH == ih && gBlockSize == blockSize && gAllocationOffset == allocationOffset
    {
      this.cache := cache;
      gCurrentIH, gBlockSize, gAllocationOffset := ih, blockSize, allocationOffset;
    }

    /** The state of the walk along the extents: the current extent, the blocks before it, and the
        overflow record read last (0: none yet). */
    ghost predicate WalkAt(f: Fork, next: nat, counted: int, current: nat, record: seq<Extent>)
    {
      && WellFormed(f)
      && counted == Prefix(f, next)
      && (next < f.density ==> current == 0)
      && (next >= f.density ==>
            (current == next / f.density && record == f.overflow(Prefix(f, next - next % f.density)))
            || (next % f.density == 0 && current + 1 == next / f.density))
    }

    /** What the walk finds at the next extent, once its record is loaded. */
    lemma WalkFacts(f: Fork, next: nat, counted: int, current: nat, record: seq<Extent>)
      requires WalkAt(f, next, counted, current, record)
      ensures next < f.density ==> f.inline[next] == ExtentAt(f, next)
      ensures next >= f.density ==>
        var record' := if current != next / f.density then f.overflow(counted) else record;
        |record'| == f.density && record'[next % f.density] == ExtentAt(f, next)
        && WalkAt(f, next, counted, next / f.density, record')
      ensures counted == Prefix(f, next)
    {
      if next >= f.density {
        assert next % f.density == 0 ==> next - next % f.density == next;
      }
    }

    /** The record looked up last is the one the walk is in, or the one before it. */
    lemma WalkRecord(f: Fork, next: nat, counted: int, current: nat, record: seq<Extent>)
      requires WalkAt(f, next, counted, current, record)
      ensures next < f.density ==> current == 0 == next / f.density
      ensures next >= f.density && current != next / f.density ==>
        current + 1 == next / f.density && next % f.density == 0
    {
      hide ExtentAt, Prefix;
      if next < f.density {
        DivUnique(next, f.density, 0);
      }
    }

    /** One extent further. */
    lemma WalkStep(f: Fork, next: nat, counted: int, current: nat, record: seq<Extent>)
      requires WalkAt(f, next, counted, current, record)
      requires next >= f.density ==> current == next / f.density
      ensures WalkAt(f, next + 1, counted + ExtentAt(f, next).count, current, record)
    {
      NextRecord(next, f.density);
      hide ExtentAt;
      if next + 1 == f.density {
        DivUnique(f.density, f.density, 1);
      } else if next + 1 > f.density {
        assert (next + 1) % f.density != 0 ==> (next + 1) - (next + 1) % f.density == next - next % f.density;
        if next % f.density == 0 {
          assert current == next / f.density;
        }
      }
    }

    /** The inner loop of ReadExtent: walks on to the extent that holds the block. Each overflow
        record on the way is looked up once, so the number of lookups is the number of the record. */
    method FindExtent(f: Fork, x: OverflowFile, ghost h: nat, ghost blocks: int, blockNumber: nat,
        next0: nat, counted0: int, current0: nat, record0: seq<Extent>)
      returns (next: nat, counted: int, current: nat, record: seq<Extent>, extent: Extent, ghost lookups: nat)
      requires WellFormed(f) && Covers(f, blockNumber + 1) && Filed(x, h, f, blocks) && blockNumber < blocks
      requires WalkAt(f, next0, counted0, current0, record0) && counted0 <= blockNumber
      ensures WalkAt(f, next, counted, current, record)
      ensures Holds(f, next, blockNumber) && extent == ExtentAt(f, next) && counted == Prefix(f, next) <= blockNumber
      ensures current == current0 + lookups == next / f.density
    {
      hide WalkAt, ExtentAt, Prefix, Filed;
      lookups := 0;
      next, counted, current, record := next0, counted0, current0, record0;
      ghost var last: nat :| Prefix(f, last) >= blockNumber + 1;
      while true
        invariant WalkAt(f, next, counted, current, record) && counted <= blockNumber
        invariant current == current0 + lookups
        decreases last - next
      {
        if next >= last {
          PrefixMonotone(f, last, next);
        }
        WalkFacts(f, next, counted, current, record);
        WalkRecord(f, next, counted, current, record);
        if next < f.density {
          extent := f.inline[next];
        } else {
          var block := next / f.density;
          if current != block {
            record := ReadNeeded(x, h, f, next, blocks, counted, record);
            current := block;
            lookups := lookups + 1;
          }
          extent := record[next % f.density];
        }
        PrefixNext(f, next);
        if counted + extent.count - 1 >= blockNumber {
          return;
        }
        WalkStep(f, next, counted, current, record);
        counted := counted + extent.count;
        next := next + 1;
      }
    }

    /** The part of the request that lies in the extent found: where it is, and how long. */
    method NextPiece(f: Fork, offset: nat, size: nat, sizeRead: nat, ghost next: nat, counted: int, extent: Extent)
      returns (readOffset: int, readSize: int)
      requires WellFormed(f) && gBlockSize > 0 && sizeRead < size && Covers(f, BlocksFor(offset + size, gBlockSize))
      requires Holds(f, next, BlockOf(offset + sizeRead, gBlockSize)) && counted == Prefix(f, next) && extent == ExtentAt(f, next)
      ensures 0 < readSize <= size - sizeRead
      ensures ForkBytes(f, cache.disk, gCurrentIH, gBlockSize, gAllocationOffset, offset, size)[sizeRead..sizeRead + readSize]
        == DiskBytes(cache.disk, gCurrentIH, gAllocationOffset + readOffset, readSize)
    {
      hide ExtentAt, Prefix, ForkBytes, DiskBytes, BlocksFor, Covers, Holds;
      var at := offset + sizeRead;
      var blockNumber := BlockOf(at, gBlockSize);
      readOffset := (blockNumber - counted) * gBlockSize + at % gBlockSize;
      readSize := extent.count * gBlockSize - readOffset;
      if readSize > size - sizeRead {
        readSize := size - sizeRead;
      }
      readOffset := readOffset + extent.start * gBlockSize;
      PieceBytes(f, cache.disk, gCurrentIH, gBlockSize, gAllocationOffset, offset, size, sizeRead, next, readOffset, readSize);
    }

    /** CacheRead, as far as the data is concerned. */
    method ReadPiece(dest: array<Byte>, pos: nat, offset: int, length: nat, useCache: bool)
      requires Valid() && dest != cache.gCacheBuffer && pos + length <= dest.Length
      modifies cache, cache.gCacheEntries, cache.gCacheBuffer, dest
      ensures Valid()
      ensures dest[..] == old(dest[..])[..pos] + DiskBytes(cache.disk, gCurrentIH, offset, length) + old(dest[..])[pos + length..]
    {
      hide OrderedBy, Faithful, Unique, Touch, DiskBytes;
      var got := cache.CacheRead(gCurrentIH, dest, pos, offset, length, useCache);
      assert old(dest[..])[..pos] == old(dest[..pos]) && old(dest[..])[pos + length..] == old(dest[pos + length..]);
    }

    lemma WalkStart(f: Fork)
      requires WellFormed(f)
      ensures WalkAt(f, 0, 0, 0, [])
    {
    }

    /** ReadExtent: delivers the fork's bytes [offset, offset + size) when its extents cover them and
        the overflow records among them are filed. */
    method ReadExtent(f: Fork, x: OverflowFile, ghost h: nat, extentSize: int, offset: nat, size: nat,
        dest: array<Byte>, pos: nat, useCache: bool)
      returns (n: int)
      requires Valid() && WellFormed(f)
      requires offset < extentSize ==> Covers(f, BlocksFor(offset + size, gBlockSize))
      requires offset < extentSize ==> Filed(x, h, f, BlocksFor(offset + size, gBlockSize))
      requires dest != cache.gCacheBuffer && pos + size <= dest.Length
      modifies cache, cache.gCacheEntries, cache.gCacheBuffer, dest
      ensures Valid()
      ensures offset >= extentSize ==> n == 0 && dest[..] == old(dest[..])
      ensures offset < extentSize ==> n == size
      ensures offset < extentSize ==>
        dest[..] == old(dest[..])[..pos]
          + ForkBytes(f, cache.disk, gCurrentIH, gBlockSize, gAllocationOffset, offset, size)
          + old(dest[..])[pos + size..]
    {
      hide WalkAt, WellFormed, ExtentAt, Prefix, ForkBytes, DiskBytes, BlocksFor, BlockOf, Covers, Holds, Filed,
           OrderedBy, Faithful, Unique;
      if offset >= extentSize {
        return 0;
      }
      ghost var dest0 := dest[..];
      var next, counted, current, record, extent := 0, 0, 0, [], Extent(0, 0);
      WalkStart(f);
      ghost var blocks := BlocksFor(offset + size, gBlockSize);
      ghost var whole := ForkBytes(f, cache.disk, gCurrentIH, gBlockSize, gAllocationOffset, offset, size);
      var at, sizeRead := offset, 0;
      while at < offset + size
        invariant Valid()
        invariant at == offset + sizeRead && 0 <= sizeRead <= size
        invariant WalkAt(f, next, counted, current, record) && counted <= BlockOf(at, gBlockSize)
        invariant dest[..] == dest0[..pos] + whole[..sizeRead] + dest0[pos + sizeRead..]
        decreases size - sizeRead
      {
        var blockNumber := BlockOf(at, gBlockSize);
        NeededBlock(f, gBlockSize, at, offset + size);
        ghost var lookups;
        next, counted, current, record, extent, lookups :=
          FindExtent(f, x, h, blocks, blockNumber, next, counted, current, record);
        var readOffset, readSize := NextPiece(f, offset, size, sizeRead, next, counted, extent);
        ghost var before := dest[..];
        ReadPiece(dest, pos + sizeRead, gAllocationOffset + readOffset, readSize, useCache);
        PieceAppended(dest0, pos, whole, sizeRead, readSize, before, dest[..]);
        DivMonotone(at, at + readSize, gBlockSize);
        assert sizeRead + readSize <= size;
        sizeRead := sizeRead + readSize;
        at := at + readSize;
      }
      n := sizeRead;
    }
  }

  lemma DivMod(n: nat, d: nat) returns (q: nat, r: nat)
    requires d > 0
    ensures q == n / d && r == n % d && r < d && n == q * d + r
  {
    q, r := n / d, n % d;
  }

  lemma NextRecord(n: nat, d: nat)
    requires d > 0
    ensures (n + 1) % d == 0 ==> (n + 1) / d == n / d + 1
    ensures (n + 1) % d != 0 ==> (n + 1) / d == n / d && (n + 1) % d == n % d + 1
  {
    var q, r := DivMod(n, d);
    if r + 1 < d {
      DivUnique(n + 1, d, q);
    } else {
      Distribute(q, 1, 0, d);
      DivUnique(n + 1, d, q + 1);
    }
  }

  lemma PieceAppended(dest0: seq<Byte>, pos: nat, whole: seq<Byte>, done: nat, more: nat, before: seq<Byte>, after: seq<Byte>)
    requires pos + |whole| <= |dest0| && done + more <= |whole|
    requires before == dest0[..pos] + whole[..done] + dest0[pos + done..]
    requires after == before[..pos + done] + whole[done..done + more] + before[pos + done + more..]
    ensures after == dest0[..pos] + whole[..done + more] + dest0[pos + done + more..]
  {
    assert before[..pos + done] == dest0[..pos] + whole[..done];
    assert before[pos + done + more..] == dest0[pos + done + more..];
    assert whole[..done + more] == whole[..done] + whole[done..done + more];
  }

  /** The position and length of the piece, in bytes of the fork. */
  lemma PieceLength(x: nat, b: int, p: int, c: int, start: int, bs: int, room: int, readOffset: int, readSize: int)
    requires bs > 0 && room > 0 && b == x / bs && p <= b < p + c
    requires readOffset == (b - p) * bs + x % bs + start * bs
    requires var left := c * bs - (readOffset - start * bs); readSize == if left > room then room else left
    ensures 0 < readSize <= room && p * bs <= x && x + readSize <= (p + c) * bs
    ensures readOffset == x - p * bs + start * bs
  {
    DivBounds(x, bs);
    assert x == b * bs + x % bs;
    Distribute(0, b, p, bs);
    Distribute(p, c, 0, bs);
    Distribute(b, 1, 0, bs);
    Order(b + 1, p + c, bs);
    Order(p, b, bs);
  }

  lemma Order(x: int, y: int, z: int)
    requires x <= y && z > 0
    ensures x * z <= y * z
  {
    Distribute(0, y, x, z);
    assert (y - x) * z >= 0;
  }

  /** The piece read from one extent is the next piece of the fork, and is not empty. */
  lemma PieceBytes(f: Fork, disk: Disk, ih: int, bs: int, base: int, offset: nat, size: nat, done: nat,
                   n: nat, readOffset: int, readSize: int)
    requires WellFormed(f) && bs > 0 && Covers(f, BlocksFor(offset + size, bs)) && done < size
    requires Holds(f, n, BlockOf(offset + done, bs))
    requires readOffset == (BlockOf(offset + done, bs) - Prefix(f, n)) * bs + (offset + done) % bs + ExtentAt(f, n).start * bs
    requires var left := ExtentAt(f, n).count * bs - (readOffset - ExtentAt(f, n).start * bs);
      readSize == if left > size - done then size - done else left
    ensures 0 < readSize <= size - done
    ensures ForkBytes(f, disk, ih, bs, base, offset, size)[done..done + readSize] == DiskBytes(disk, ih, base + readOffset, readSize)
  {
    hide ExtentAt, Prefix, BlocksFor, Covers, ByteOffset;
    var x, p, c := offset + done, Prefix(f, n), ExtentAt(f, n).count;
    PrefixNext(f, n);
    PieceLength(x, x / bs, p, c, ExtentAt(f, n).start, bs, size - done, readOffset, readSize);
    var whole := ForkBytes(f, disk, ih, bs, base, offset, size);
    var piece := DiskBytes(disk, ih, base + readOffset, readSize);
    forall k | 0 <= k < readSize ensures whole[done + k] == piece[k] {
      ByteInExtent(f, bs, base, n, x + k);
    }
  }
}
