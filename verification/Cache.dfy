/** bootx/fs/cache.c: the block cache of the boot loader's file systems. */
module Cache {
  import opened Sequences

  type Byte = x: int | 0 <= x < 256

  const CACHE_SIZE := 0x80000
  const MIN_BLOCK_SIZE := 0x200
  const MAX_BLOCK_SIZE := 0x4000
  const MAX_ENTRIES := CACHE_SIZE / MIN_BLOCK_SIZE

  /** An entry with handle 0 is free. */
  datatype CacheEntry = CacheEntry(ih: int, time: int, offset: int)

  /** An unchanging disk: the byte of a device at an offset. */
  type Disk = (int, int) -> Byte

  function DiskBytes(disk: Disk, ih: int, offset: int, length: nat): (s: seq<Byte>)
    ensures |s| == length
  {
    seq(length, i requires 0 <= i < length => disk(ih, offset + i))
  }

  /** Touching a key in a least-recently-used list of at most cap keys, oldest first. */
  function Touch(order: seq<int>, key: int, cap: nat): seq<int> {
    if key in order then Drop(order, key) + [key]
    else if |order| < cap then order + [key]
    else if order == [] then [key]
    else order[1..] + [key]
  }

  function Drop(order: seq<int>, key: int): seq<int> {
    if order == [] then [] else if order[0] == key then order[1..] else [order[0]] + Drop(order[1..], key)
  }

  lemma {:induction false} DropAt(order: seq<int>, i: nat)
    requires i < |order| && forall j :: 0 <= j < i ==> order[j] != order[i]
    ensures Drop(order, order[i]) == order[..i] + order[i + 1..]
    decreases i
  {
    if i > 0 {
      DropAt(order[1..], i - 1);
      assert [order[0]] + order[1..][..i - 1] == order[..i];
    }
  }

  /** The order after touching the keys one after the other, starting with an empty cache. */
  function TouchAll(keys: seq<int>, cap: nat): seq<int> {
    if keys == [] then [] else Touch(TouchAll(keys[..|keys| - 1], cap), keys[|keys| - 1], cap)
  }

  /** All different keys of a history, in order of their last occurrence. */
  function ByLastUse(keys: seq<int>): seq<int> {
    if keys == [] then [] else Drop(ByLastUse(keys[..|keys| - 1]), keys[|keys| - 1]) + [keys[|keys| - 1]]
  }

  lemma DropCons(x: int, s: seq<int>, key: int)
    ensures Drop([x] + s, key) == if x == key then s else [x] + Drop(s, key)
  {
  }

  lemma {:induction false} DropConcat(p: seq<int>, s: seq<int>, key: int)
    ensures Drop(p + s, key) == if key in p then Drop(p, key) + s else p + Drop(s, key)
    decreases |p|
  {
    hide Drop;
    if p == [] {
      assert p + s == s && p + Drop(s, key) == Drop(s, key);
    } else {
      var x, q := p[0], p[1..];
      assert p == [x] + q && p + s == [x] + (q + s);
      DropCons(x, q + s, key);
      DropCons(x, q, key);
      DropConcat(q, s, key);
      Associates([x], q, Drop(s, key));
      Associates([x], Drop(q, key), s);
    }
  }

  lemma {:induction false} DropCount(s: seq<int>, key: int)
    ensures |Drop(s, key)| == if key in s then |s| - 1 else |s|
    ensures key !in s ==> Drop(s, key) == s
  {
    if s != [] {
      assert s == [s[0]] + s[1..];
      DropCount(s[1..], key);
    }
  }

  /** order is the last cap keys of all (or all of them). */
  predicate IsTail(all: seq<int>, order: seq<int>, cap: nat) {
    |order| <= |all| && |order| == (if |all| < cap then |all| else cap) && order == all[|all| - |order|..]
  }

  lemma TailOf(p: seq<int>, q: seq<int>, cap: nat)
    requires |q| == cap || (p == [] && |q| <= cap)
    ensures IsTail(p + q, q, cap)
  {
    assert (p + q)[|p|..] == q;
  }

  lemma TouchHit(order: seq<int>, key: int, cap: nat)
    requires key in order
    ensures Touch(order, key, cap) == Drop(order, key) + [key]
  {
  }

  lemma TouchMiss(order: seq<int>, key: int, cap: nat)
    requires key !in order && |order| <= cap && cap > 0
    ensures Touch(order, key, cap) == (if |order| == cap then order[1..] else order) + [key]
  {
  }

  lemma TailPrefix(all: seq<int>, order: seq<int>, cap: nat) returns (p: seq<int>)
    requires IsTail(all, order, cap)
    ensures all == p + order && (|order| == cap || (|order| < cap && p == []))
  {
    p := all[..|all| - |order|];
  }

  lemma TouchTail(all: seq<int>, order: seq<int>, key: int, cap: nat)
    requires cap > 0 && IsTail(all, order, cap) && Distinct(all)
    ensures IsTail(Drop(all, key) + [key], Touch(order, key, cap), cap)
  {
    hide Drop, Touch, Distinct, IsTail;
    var p := TailPrefix(all, order, cap);
    DropConcat(p, order, key);
    if key in order {
      PrefixWithout(p, order, key);
      TouchHit(order, key, cap);
      DropCount(order, key);
      Associates(p, Drop(order, key), [key]);
      TailOf(p, Drop(order, key) + [key], cap);
    } else {
      TouchMiss(order, key, cap);
      DropCount(order, key);
      DropCount(p, key);
      var p' := Drop(p, key);
      assert Drop(all, key) == p' + order;
      if |order| == cap {
        assert order == [order[0]] + order[1..];
        Associates(p', [order[0]], order[1..]);
        Associates(p' + [order[0]], order[1..], [key]);
        TailOf(p' + [order[0]], order[1..] + [key], cap);
      } else {
        assert p == [] && p' == [];
        TailOf([], order + [key], cap);
        assert p' + order + [key] == [] + (order + [key]);
      }
    }
  }

  lemma PrefixWithout(p: seq<int>, s: seq<int>, key: int)
    requires Distinct(p + s) && key in s
    ensures key !in p
  {
    var j :| 0 <= j < |s| && s[j] == key;
    assert (p + s)[|p| + j] == key;
    assert forall i :: 0 <= i < |p| ==> (p + s)[i] == p[i];
  }

  /** A cache of cap entries holds exactly the cap keys that were used last, in that order. */
  lemma {:induction false} HoldsLastUsed(keys: seq<int>, cap: nat)
    requires cap > 0
    ensures IsTail(ByLastUse(keys), TouchAll(keys, cap), cap)
    decreases |keys|
  {
    if keys != [] {
      var before := keys[..|keys| - 1];
      HoldsLastUsed(before, cap);
      LastUsedDifferent(before);
      TouchTail(ByLastUse(before), TouchAll(before, cap), keys[|keys| - 1], cap);
    }
  }

  lemma {:induction false} LastUsedDifferent(keys: seq<int>)
    ensures Distinct(ByLastUse(keys))
    decreases |keys|
  {
    if keys != [] {
      LastUsedDifferent(keys[..|keys| - 1]);
      DropDistinct(ByLastUse(keys[..|keys| - 1]), keys[|keys| - 1]);
    }
  }

  /** The place of the last occurrence of a key in a history, -1 if there is none. */
  function LastAt(keys: seq<int>, key: int): int {
    if keys == [] then -1 else if keys[|keys| - 1] == key then |keys| - 1 else LastAt(keys[..|keys| - 1], key)
  }

  /** The keys of a history by last use: all of them, the one used longer ago first. */
  lemma {:induction false} LastUseOrder(keys: seq<int>)
    ensures forall k :: k in ByLastUse(keys) <==> k in keys
    ensures forall i, j :: 0 <= i < j < |ByLastUse(keys)| ==> LastAt(keys, ByLastUse(keys)[i]) < LastAt(keys, ByLastUse(keys)[j])
  {
    if keys != [] {
      var front, key := keys[..|keys| - 1], keys[|keys| - 1];
      var r := ByLastUse(front);
      LastUseOrder(front);
      LastUsedDifferent(front);
      assert forall k :: k in keys <==> k in front || k == key;
      LastAtBelow(front);
      DropOrdered(r, key, front);
      var d := Drop(r, key);
      forall i, j | 0 <= i < j < |d + [key]| ensures LastAt(keys, (d + [key])[i]) < LastAt(keys, (d + [key])[j]) {
        assert d[i] in d;
        if j < |d| { assert d[j] in d; }
      }
    }
  }

  lemma {:induction false} LastAtBelow(keys: seq<int>)
    ensures forall k :: LastAt(keys, k) < |keys|
  {
    if keys != [] {
      LastAtBelow(keys[..|keys| - 1]);
    }
  }

  lemma DropOrdered(r: seq<int>, key: int, keys: seq<int>)
    requires Distinct(r) && forall i, j :: 0 <= i < j < |r| ==> LastAt(keys, r[i]) < LastAt(keys, r[j])
    ensures forall k :: k in Drop(r, key) <==> k in r && k != key
    ensures forall i, j :: 0 <= i < j < |Drop(r, key)| ==> LastAt(keys, Drop(r, key)[i]) < LastAt(keys, Drop(r, key)[j])
  {
    hide LastAt, Drop;
    if key in r {
      var m :| 0 <= m < |r| && r[m] == key;
      DropAt(r, m);
    } else {
      DropCount(r, key);
    }
  }

  lemma DropDistinct(r: seq<int>, key: int)
    requires Distinct(r)
    ensures Distinct(Drop(r, key) + [key])
  {
    hide Drop;
    if key in r {
      var i :| 0 <= i < |r| && r[i] == key;
      DropAt(r, i);
      var d := r[..i] + r[i + 1..] + [key];
      assert forall k :: 0 <= k < |d| ==> d[k] == if k < i then r[k] else if k < |d| - 1 then r[k + 1] else key;
    } else {
      DropCount(r, key);
    }
  }

  /** Where the block of entry e starts in the buffer. */
  function Slot(bs: nat, e: nat): nat {
    e * bs
  }

  /** Slots of the buffer do not overlap. */
  lemma SlotsApart(bs: nat, e: nat, f: nat)
    requires e < f
    ensures Slot(bs, e) + bs <= Slot(bs, f)
    decreases f - e
  {
    assert Slot(bs, e + 1) == Slot(bs, e) + bs;
    if e + 1 < f {
      SlotsApart(bs, e + 1, f);
    }
  }

  /** The offsets cached in the given entries. */
  function Offsets(slots: seq<nat>, es: seq<CacheEntry>): (r: seq<int>)
    requires forall k :: 0 <= k < |slots| ==> slots[k] < |es|
    ensures |r| == |slots|
  {
    seq(|slots|, k requires 0 <= k < |slots| => es[slots[k]].offset)
  }

  ghost predicate AllBelow(s: seq<nat>, n: nat) {
    forall k :: 0 <= k < |s| ==> s[k] < n
  }

  ghost function Elements(s: seq<nat>): (r: set<nat>)
    ensures forall e :: e in r <==> e in s
  {
    if s == [] then {} else {s[0]} + Elements(s[1..])
  }

  ghost function Below(n: nat): (r: set<nat>)
    ensures forall e: nat :: e in r <==> e < n
    ensures |r| == n
  {
    if n == 0 then {} else Below(n - 1) + {n - 1}
  }

  lemma {:induction false} ElementCount(s: seq<nat>)
    requires Distinct(s)
    ensures |Elements(s)| == |s|
  {
    if s != [] {
      assert Distinct(s[1..]);
      ElementCount(s[1..]);
      assert s[0] !in s[1..];
    }
  }

  lemma {:induction false} SubsetCount(a: set<nat>, b: set<nat>)
    requires a <= b
    ensures |a| <= |b| && (|a| == |b| <==> a == b)
  {
    if a != {} {
      var x :| x in a;
      SubsetCount(a - {x}, b - {x});
      assert a == (a - {x}) + {x} && b == (b - {x}) + {x};
    }
  }

  /** There are at most n different numbers below n, and exactly n only if they are all of them. */
  lemma Pigeonhole(s: seq<nat>, n: nat)
    requires Distinct(s) && AllBelow(s, n)
    ensures |s| <= n
    ensures |s| == n <==> forall e: nat :: e < n ==> e in s
  {
    hide Elements, Below;
    ElementCount(s);
    SubsetCount(Elements(s), Below(n));
  }

  /** The slots are exactly the live ones of the first num entries, in order of their last use,
      the latest of which was at the given time. */
  ghost predicate OrderedBy(slots: seq<nat>, es: seq<CacheEntry>, num: nat, time: int)
    requires num <= |es|
  {
    && (forall k :: 0 <= k < |slots| ==> slots[k] < num && es[slots[k]].ih != 0)
    && (forall e :: 0 <= e < num && es[e].ih != 0 ==> e in slots)
    && (forall j, k :: 0 <= j < k < |slots| ==> es[slots[j]].time < es[slots[k]].time)
    && (forall k :: 0 <= k < |slots| ==> es[slots[k]].time <= time)
  }

  lemma OrderedDifferent(slots: seq<nat>, es: seq<CacheEntry>, num: nat, time: int)
    requires num <= |es| && OrderedBy(slots, es, num, time)
    ensures Distinct(slots)
  {
  }

  /** One more slot at the end, stamped later than all others. */
  lemma Append(rest: seq<nat>, es: seq<CacheEntry>, num: nat, time: int, c: nat, x: CacheEntry)
    requires num <= |es| && c < num && x.ih != 0 && x.time == time + 1
    requires forall i :: 0 <= i < |rest| ==> rest[i] < num && rest[i] != c && es[rest[i]].ih != 0
    requires forall e :: 0 <= e < num && e != c && es[e].ih != 0 ==> e in rest
    requires forall j, k :: 0 <= j < k < |rest| ==> es[rest[j]].time < es[rest[k]].time
    requires forall k :: 0 <= k < |rest| ==> es[rest[k]].time <= time
    ensures OrderedBy(rest + [c], es[c := x], num, time + 1)
  {
    var slots', es' := rest + [c], es[c := x];
    forall k | 0 <= k < |slots'|
      ensures slots'[k] < num && es'[slots'[k]].ih != 0 && es'[slots'[k]].time <= time + 1
    {
      assert k < |rest| ==> slots'[k] == rest[k];
    }
    forall j, k | 0 <= j < k < |slots'| ensures es'[slots'[j]].time < es'[slots'[k]].time {
      assert slots'[j] == rest[j];
      assert k < |rest| ==> slots'[k] == rest[k];
    }
    forall e | 0 <= e < num && es'[e].ih != 0 ensures e in slots' {
      if e == c {
        assert slots'[|rest|] == c;
      } else {
        assert e in rest;
      }
    }
  }

  /** Moving the k-th slot to the end, stamped with a later time. */
  lemma Restamp(slots: seq<nat>, es: seq<CacheEntry>, num: nat, time: int, k: nat)
    requires num <= |es| && OrderedBy(slots, es, num, time) && k < |slots|
    ensures OrderedBy(slots[..k] + slots[k + 1..] + [slots[k]], es[slots[k] := es[slots[k]].(time := time + 1)], num, time + 1)
  {
    OrderedDifferent(slots, es, num, time);
    var rest := slots[..k] + slots[k + 1..];
    assert forall i :: 0 <= i < |rest| ==> rest[i] == slots[if i < k then i else i + 1];
    StillThere(slots, k);
    Append(rest, es, num, time, slots[k], es[slots[k]].(time := time + 1));
  }

  lemma StillThere(slots: seq<nat>, k: nat)
    requires k < |slots|
    ensures forall e :: e in slots && e != slots[k] ==> e in slots[..k] + slots[k + 1..]
  {
    assert slots == slots[..k] + [slots[k]] + slots[k + 1..];
  }

  /** Filling an entry that was free, or the one used least recently. */
  lemma Stamp(slots: seq<nat>, es: seq<CacheEntry>, num: nat, time: int, c: nat, ih: int, offset: int)
    requires num <= |es| && OrderedBy(slots, es, num, time) && c < num && ih != 0
    requires es[c].ih == 0 || (slots != [] && c == slots[0])
    ensures OrderedBy((if es[c].ih == 0 then slots else slots[1..]) + [c], es[c := CacheEntry(ih, time + 1, offset)], num, time + 1)
  {
    OrderedDifferent(slots, es, num, time);
    var d := if es[c].ih == 0 then 0 else 1;
    var rest := slots[d..];
    assert rest == if es[c].ih == 0 then slots else slots[1..];
    assert forall i :: 0 <= i < |rest| ==> rest[i] == slots[i + d];
    forall e | 0 <= e < num && e != c && es[e].ih != 0 ensures e in rest {
      var i :| 0 <= i < |slots| && slots[i] == e;
      assert rest[i - d] == e;
    }
    Append(rest, es, num, time, c, CacheEntry(ih, time + 1, offset));
  }

  /** The slots and their order, when entry c takes over a new block: the least recently used one
      if every entry is live, else a free one. */
  lemma FillOrder(slots: seq<nat>, es: seq<CacheEntry>, num: nat, time: int, c: nat, evict: bool, x: CacheEntry)
    requires num <= |es| && OrderedBy(slots, es, num, time) && c < num && x.ih != 0 && x.time == time + 1
    requires if evict then slots != [] && c == slots[0] else es[c].ih == 0
    requires evict <==> forall e :: 0 <= e < num ==> es[e].ih != 0
    requires forall e :: 0 <= e < num && es[e].ih != 0 ==> es[e].offset != x.offset
    ensures var slots' := (if evict then slots[1..] else slots) + [c];
      OrderedBy(slots', es[c := x], num, time + 1) &&
      AllBelow(slots, |es|) && AllBelow(slots', |es|) &&
      Offsets(slots', es[c := x]) == Touch(Offsets(slots, es), x.offset, num)
    ensures evict <==> |slots| == num
    ensures AllBelow(slots, |es|) && x.offset !in Offsets(slots, es)
  {
    hide Touch, Offsets, OrderedBy;
    OrderedBelow(slots, es, num, time, x.offset);
    Pigeonhole(slots, num);
    Stamp(slots, es, num, time, c, x.ih, x.offset);
    FilledOffsets(slots, es, if evict then 1 else 0, c, x);
    TouchMiss(Offsets(slots, es), x.offset, num);
  }

  lemma OrderedBelow(slots: seq<nat>, es: seq<CacheEntry>, num: nat, time: int, offset: int)
    requires num <= |es| && OrderedBy(slots, es, num, time)
    requires forall e :: 0 <= e < num && es[e].ih != 0 ==> es[e].offset != offset
    ensures Distinct(slots) && AllBelow(slots, num) && AllBelow(slots, |es|)
    ensures forall e :: 0 <= e < num ==> (es[e].ih != 0 <==> e in slots)
    ensures offset !in Offsets(slots, es)
  {
  }

  /** Every live entry is of the given device and its slot holds the disk's bytes at its offset. */
  ghost predicate Faithful(disk: Disk, ih: int, bs: nat, num: nat, es: seq<CacheEntry>, buffer: seq<Byte>)
    requires num <= |es|
  {
    forall e :: 0 <= e < num && es[e].ih != 0 ==>
      es[e].ih == ih && Slot(bs, e) + bs <= |buffer| &&
      buffer[Slot(bs, e)..Slot(bs, e) + bs] == DiskBytes(disk, ih, es[e].offset, bs)
  }

  /** No two live entries share an offset. */
  ghost predicate Unique(num: nat, es: seq<CacheEntry>)
    requires num <= |es|
  {
    forall e, f :: 0 <= e < f < num && es[e].ih != 0 && es[f].ih != 0 ==> es[e].offset != es[f].offset
  }

  lemma AllFree(disk: Disk, ih: int, bs: nat, num: nat, es: seq<CacheEntry>, buffer: seq<Byte>)
    requires num <= |es| && forall e :: 0 <= e < num ==> es[e].ih == 0
    ensures OrderedBy([], es, num, 0) && Faithful(disk, ih, bs, num, es, buffer) && Unique(num, es)
  {
  }

  /** A changed time stamp matters to neither. */
  lemma RestampFaithful(disk: Disk, ih: int, bs: nat, num: nat, es: seq<CacheEntry>, buffer: seq<Byte>, c: nat, time: int)
    requires c < num <= |es| && Faithful(disk, ih, bs, num, es, buffer) && Unique(num, es)
    ensures var es' := es[c := es[c].(time := time)]; Faithful(disk, ih, bs, num, es', buffer) && Unique(num, es')
  {
    hide Slot, DiskBytes;
  }

  /** Entry c takes over a new block. */
  lemma FillFaithful(disk: Disk, ih: int, bs: nat, num: nat, es: seq<CacheEntry>, buffer: seq<Byte>, c: nat, x: CacheEntry, buffer': seq<Byte>)
    requires c < num <= |es| && Faithful(disk, ih, bs, num, es, buffer) && Unique(num, es)
    requires |buffer'| == |buffer| && x.ih == ih
    requires forall e :: 0 <= e < num ==> Slot(bs, e) + bs <= |buffer|
    requires buffer'[Slot(bs, c)..Slot(bs, c) + bs] == DiskBytes(disk, ih, x.offset, bs)
    requires forall e :: 0 <= e < num && e != c ==>
      buffer'[Slot(bs, e)..Slot(bs, e) + bs] == buffer[Slot(bs, e)..Slot(bs, e) + bs]
    requires forall e :: 0 <= e < num && es[e].ih != 0 ==> es[e].offset != x.offset
    ensures Faithful(disk, ih, bs, num, es[c := x], buffer') && Unique(num, es[c := x])
  {
    hide Slot, DiskBytes;
    var es' := es[c := x];
    assert forall e :: 0 <= e < num && e != c ==> es'[e] == es[e];
  }

  lemma MovedOffsets(slots: seq<nat>, es: seq<CacheEntry>, k: nat, time: int)
    requires k < |slots| && forall i :: 0 <= i < |slots| ==> slots[i] < |es|
    ensures var o := Offsets(slots, es);
      var slots' := slots[..k] + slots[k + 1..] + [slots[k]];
      (forall i :: 0 <= i < |slots'| ==> slots'[i] < |es|) &&
      Offsets(slots', es[slots[k] := es[slots[k]].(time := time)]) == o[..k] + o[k + 1..] + [o[k]]
  {
    var slots' := slots[..k] + slots[k + 1..] + [slots[k]];
    assert forall i :: 0 <= i < |slots'| ==>
      slots'[i] == if i < k then slots[i] else if i < |slots| - 1 then slots[i + 1] else slots[k];
  }

  class BlockCache {
    const disk: Disk
    var gCacheIH: int
    var gCacheBlockSize: int
    var gCacheNumEntries: int
    var gCacheTime: int
    const gCacheEntries: array<CacheEntry>
    const gCacheBuffer: array<Byte>
    var gCacheHits: int
    var gCacheMisses: int
    var gCacheEvicts: int

    /** The live entries, least recently used first. */
    ghost var slots: seq<nat>

    /** The cached offsets, least recently used first. */
    ghost function Order(): seq<int>
      requires Shape() && Ordered()
      reads this, gCacheEntries
    {
      Offsets(slots, gCacheEntries[..])
    }

    ghost predicate Shape()
      reads this
    {
      && gCacheEntries.Length == MAX_ENTRIES && gCacheBuffer.Length == CACHE_SIZE
      && gCacheBlockSize >= 0
      && (gCacheIH == 0 ==> gCacheNumEntries == 0 && gCacheBlockSize == 0)
      && (gCacheIH != 0 ==> MIN_BLOCK_SIZE <= gCacheBlockSize < MAX_BLOCK_SIZE &&
                            gCacheNumEntries == CACHE_SIZE / gCacheBlockSize)
      && 32 <= CACHE_SIZE / MAX_BLOCK_SIZE
      && (gCacheIH != 0 ==> 32 <= gCacheNumEntries <= MAX_ENTRIES && gCacheNumEntries * gCacheBlockSize <= CACHE_SIZE)
    }

    predicate Live(e: nat)
      requires e < gCacheEntries.Length
      reads gCacheEntries
    {
      gCacheEntries[e].ih != 0
    }

    ghost predicate Ordered()
      requires Shape()
      reads this, gCacheEntries
    {
      OrderedBy(slots, gCacheEntries[..], gCacheNumEntries, gCacheTime)
    }

    ghost predicate Valid()
      reads this, gCacheEntries, gCacheBuffer
    {
      && Shape() && Ordered()
      && Faithful(disk, gCacheIH, gCacheBlockSize, gCacheNumEntries, gCacheEntries[..], gCacheBuffer[..])
      && Unique(gCacheNumEntries, gCacheEntries[..])
    }

    constructor (disk: Disk)
      ensures Valid() && this.disk == disk && gCacheIH == 0 && slots == []
      ensures gCacheHits == 0 && gCacheMisses == 0 && gCacheEvicts == 0
      ensures fresh(gCacheEntries) && fresh(gCacheBuffer)
    {
      this.disk := disk;
      gCacheIH, gCacheBlockSize, gCacheNumEntries, gCacheTime := 0, 0, 0, 0;
      gCacheHits, gCacheMisses, gCacheEvicts := 0, 0, 0;
      gCacheEntries := new CacheEntry[MAX_ENTRIES](_ => CacheEntry(0, 0, 0));
      gCacheBuffer := new Byte[CACHE_SIZE](_ => 0);
      slots := [];
    }

    /** CacheInit: a block size that does not fit leaves the cache as it was. */
    method CacheInit(ih: int, blockSize: int)
      requires Valid() && ih != 0
      modifies this, gCacheEntries
      ensures Valid()
      ensures MIN_BLOCK_SIZE <= blockSize < MAX_BLOCK_SIZE ==>
        gCacheIH == ih && gCacheBlockSize == blockSize && slots == [] && gCacheHits == 0 && gCacheMisses == 0 && gCacheEvicts == 0
      ensures !(MIN_BLOCK_SIZE <= blockSize < MAX_BLOCK_SIZE) ==>
        gCacheIH == old(gCacheIH) && gCacheBlockSize == old(gCacheBlockSize) && slots == old(slots) &&
        gCacheHits == old(gCacheHits) && gCacheMisses == old(gCacheMisses) && gCacheEvicts == old(gCacheEvicts) &&
        gCacheEntries[..] == old(gCacheEntries[..])
    {
      hide OrderedBy, Faithful, Unique;
      if blockSize < MIN_BLOCK_SIZE || blockSize >= MAX_BLOCK_SIZE {
        return;
      }
      gCacheBlockSize := blockSize;
      gCacheNumEntries := CACHE_SIZE / blockSize;
      gCacheTime := 0;
      gCacheHits, gCacheMisses, gCacheEvicts := 0, 0, 0;
      forall e | 0 <= e < MAX_ENTRIES {
        gCacheEntries[e] := CacheEntry(0, 0, 0);
      }
      gCacheIH := ih;
      slots := [];
      EntryCount(blockSize);
      AllFree(disk, ih, blockSize, gCacheNumEntries, gCacheEntries[..], gCacheBuffer[..]);
    }

    /** The first loop of CacheRead. */
    method Lookup(ih: int, offset: int) returns (cnt: int)
      requires Valid() && ih == gCacheIH != 0
      ensures 0 <= cnt <= gCacheNumEntries
      ensures cnt < gCacheNumEntries ==> Live(cnt) && gCacheEntries[cnt].offset == offset
      ensures cnt == gCacheNumEntries ==> forall e :: 0 <= e < gCacheNumEntries && Live(e) ==> gCacheEntries[e].offset != offset
    {
      cnt := 0;
      while cnt < gCacheNumEntries
        invariant 0 <= cnt <= gCacheNumEntries
        invariant forall e :: 0 <= e < cnt && Live(e) ==> gCacheEntries[e].offset != offset
      {
        if gCacheEntries[cnt].ih == ih && gCacheEntries[cnt].offset == offset {
          return;
        }
        assert gCacheEntries[..][cnt] == gCacheEntries[cnt];
        cnt := cnt + 1;
      }
    }

    /** The second loop: the first free entry, or the least recently used one if none is free. */
    method Victim() returns (cnt: int, evict: bool)
      requires Valid() && gCacheIH != 0
      ensures 0 <= cnt < gCacheNumEntries
      ensures !evict ==> !Live(cnt)
      ensures evict ==> slots != [] && cnt == slots[0]
      ensures evict <==> forall e :: 0 <= e < gCacheNumEntries ==> Live(e)
    {
      var oldestEntry, oldestTime := 0, gCacheTime;
      evict := false;
      cnt := 0;
      while cnt < gCacheNumEntries
        invariant 0 <= cnt <= gCacheNumEntries
        invariant forall e :: 0 <= e < cnt ==> Live(e) && oldestTime <= gCacheEntries[e].time
        invariant 0 <= oldestEntry < gCacheNumEntries
        invariant oldestTime == gCacheTime || (oldestTime < gCacheTime && oldestEntry < cnt && gCacheEntries[oldestEntry].time == oldestTime)
      {
        if gCacheEntries[cnt].ih == 0 {
          return;
        }
        if gCacheEntries[cnt].time < oldestTime {
          oldestTime, oldestEntry := gCacheEntries[cnt].time, cnt;
          assert gCacheEntries[oldestEntry].time < gCacheTime;
        }
        cnt := cnt + 1;
      }
      OldestFirst(oldestEntry, oldestTime);
      cnt, evict := oldestEntry, true;
    }

    /** With every entry live, the minimum time belongs to the first slot. */
    lemma OldestFirst(oldest: nat, time: int)
      requires Valid() && gCacheIH != 0 && oldest < gCacheNumEntries
      requires forall e :: 0 <= e < gCacheNumEntries ==> Live(e) && time <= gCacheEntries[e].time
      requires time == gCacheTime || gCacheEntries[oldest].time == time
      ensures slots != [] && oldest == slots[0]
    {
      assert 0 in slots && 1 in slots by {
        assert Live(0) && Live(1);
      }
      var j :| 0 <= j < |slots| && slots[j] == 0;
      var k :| 0 <= k < |slots| && slots[k] == 1;
      assert gCacheEntries[slots[0]].time < gCacheEntries[slots[1]].time <= gCacheTime;
      assert time < gCacheTime;
      assert Live(oldest) && oldest in slots;
      var i :| 0 <= i < |slots| && slots[i] == oldest;
    }

    /** No live entry of the offset: it is not in the order. */
    lemma NotCached(offset: int)
      requires Valid() && gCacheIH != 0
      requires forall e :: 0 <= e < gCacheNumEntries && Live(e) ==> gCacheEntries[e].offset != offset
      ensures offset !in Order()
    {
      forall k | 0 <= k < |slots| ensures Order()[k] != offset {
        assert Live(slots[k]);
      }
    }

    /** The effect of stamping entry cnt, the k-th in the order, with a new time. */
    method Refresh(cnt: int)
      requires Valid() && gCacheIH != 0 && 0 <= cnt < gCacheNumEntries && Live(cnt)
      modifies this`gCacheTime, this`slots, gCacheEntries
      ensures Valid()
      ensures gCacheEntries[cnt].offset == old(gCacheEntries[cnt].offset) && Live(cnt)
      ensures Slot(gCacheBlockSize, cnt) + gCacheBlockSize <= CACHE_SIZE
      ensures gCacheBuffer[Slot(gCacheBlockSize, cnt)..Slot(gCacheBlockSize, cnt) + gCacheBlockSize]
        == DiskBytes(disk, gCacheIH, gCacheEntries[cnt].offset, gCacheBlockSize)
      ensures gCacheEntries[cnt].offset in old(Order())
      ensures Order() == Touch(old(Order()), gCacheEntries[cnt].offset, gCacheNumEntries)
    {
      hide OrderedBy, Touch, Drop, Faithful, Unique;
      ghost var es, order, slots0 := gCacheEntries[..], Order(), slots;
      ghost var k := SlotOf(cnt);
      OrderDistinct();
      DropAt(order, k);
      Restamp(slots, es, gCacheNumEntries, gCacheTime, k);
      RestampFaithful(disk, gCacheIH, gCacheBlockSize, gCacheNumEntries, es, gCacheBuffer[..], cnt, gCacheTime + 1);
      gCacheTime := gCacheTime + 1;
      gCacheEntries[cnt] := gCacheEntries[cnt].(time := gCacheTime);
      slots := slots[..k] + slots[k + 1..] + [cnt];
      assert gCacheEntries[..] == es[cnt := es[cnt].(time := gCacheTime)];
      MovedOffsets(slots0, es, k, gCacheTime);
      TouchHit(order, order[k], gCacheNumEntries);
      AgreesAt(cnt);
    }

    lemma AgreesAt(cnt: nat)
      requires Valid() && gCacheIH != 0 && cnt < gCacheNumEntries && Live(cnt)
      ensures Slot(gCacheBlockSize, cnt) + gCacheBlockSize <= CACHE_SIZE
      ensures gCacheBuffer[Slot(gCacheBlockSize, cnt)..Slot(gCacheBlockSize, cnt) + gCacheBlockSize]
        == DiskBytes(disk, gCacheIH, gCacheEntries[cnt].offset, gCacheBlockSize)
    {
      hide Slot, DiskBytes;
      var es := gCacheEntries[..];
      assert es[cnt].ih != 0;
    }

    lemma SlotOf(cnt: nat) returns (k: nat)
      requires Valid() && gCacheIH != 0 && cnt < gCacheNumEntries && Live(cnt)
      ensures k < |slots| && slots[k] == cnt && Order()[k] == gCacheEntries[cnt].offset
    {
      k :| 0 <= k < |slots| && slots[k] == cnt;
    }

    lemma OrderDistinct()
      requires Valid()
      ensures forall k :: 0 <= k < |slots| ==> slots[k] < gCacheEntries.Length && Live(slots[k])
      ensures forall j, k :: 0 <= j < k < |slots| ==> slots[j] != slots[k] && Order()[j] != Order()[k]
    {
      forall j, k | 0 <= j < k < |slots| ensures slots[j] != slots[k] && Order()[j] != Order()[k] {
        assert Live(slots[j]) && Live(slots[k]);
      }
    }

    /** The effect of putting a block read from the disk into entry cnt. */
    method Fill(cnt: int, evict: bool, ih: int, offset: int, dest: array<Byte>, pos: int)
      requires Valid() && gCacheIH == ih != 0 && 0 <= cnt < gCacheNumEntries
      requires evict ==> slots != [] && cnt == slots[0]
      requires !evict ==> !Live(cnt)
      requires evict <==> forall e :: 0 <= e < gCacheNumEntries ==> Live(e)
      requires forall e :: 0 <= e < gCacheNumEntries && Live(e) ==> gCacheEntries[e].offset != offset
      requires dest != gCacheBuffer && 0 <= pos && pos + gCacheBlockSize <= dest.Length
      requires dest[pos..pos + gCacheBlockSize] == DiskBytes(disk, ih, offset, gCacheBlockSize)
      modifies this`gCacheTime, this`slots, gCacheEntries, gCacheBuffer
      ensures Valid()
      ensures evict <==> |old(Order())| == gCacheNumEntries
      ensures offset !in old(Order())
      ensures Order() == Touch(old(Order()), offset, gCacheNumEntries)
    {
      hide OrderedBy, Touch, DiskBytes, Faithful, Unique, Slot, Offsets;
      ghost var es, buffer := gCacheEntries[..], gCacheBuffer[..];
      ghost var x := CacheEntry(ih, gCacheTime + 1, offset);
      LiveEntries();
      FillOrder(slots, es, gCacheNumEntries, gCacheTime, cnt, evict, x);
      CopyIn(cnt, dest, pos);
      FillFaithful(disk, ih, gCacheBlockSize, gCacheNumEntries, es, buffer, cnt, x, gCacheBuffer[..]);
      gCacheTime := gCacheTime + 1;
      gCacheEntries[cnt] := CacheEntry(ih, gCacheTime, offset);
      slots := (if evict then slots[1..] else slots) + [cnt];
      assert gCacheEntries[..] == es[cnt := x];
    }

    lemma LiveEntries()
      ensures forall e :: 0 <= e < gCacheEntries.Length ==> (Live(e) <==> gCacheEntries[..][e].ih != 0)
    {
    }

    /** bcopy into the slot of entry cnt: the other slots keep their bytes. */
    method CopyIn(cnt: int, dest: array<Byte>, pos: int)
      requires Shape() && gCacheIH != 0 && 0 <= cnt < gCacheNumEntries
      requires dest != gCacheBuffer && 0 <= pos && pos + gCacheBlockSize <= dest.Length
      modifies gCacheBuffer
      ensures Slot(gCacheBlockSize, cnt) + gCacheBlockSize <= CACHE_SIZE
      ensures gCacheBuffer[..][Slot(gCacheBlockSize, cnt)..Slot(gCacheBlockSize, cnt) + gCacheBlockSize] == dest[pos..pos + gCacheBlockSize]
      ensures forall e :: 0 <= e < gCacheNumEntries ==> Slot(gCacheBlockSize, e) + gCacheBlockSize <= CACHE_SIZE
      ensures forall e :: 0 <= e < gCacheNumEntries && e != cnt ==>
        gCacheBuffer[..][Slot(gCacheBlockSize, e)..Slot(gCacheBlockSize, e) + gCacheBlockSize]
          == old(gCacheBuffer[..])[Slot(gCacheBlockSize, e)..Slot(gCacheBlockSize, e) + gCacheBlockSize]
    {
      hide Slot;
      var bs := gCacheBlockSize;
      var at := Slot(bs, cnt);
      SlotsApart(bs, cnt, gCacheNumEntries);
      assert Slot(bs, gCacheNumEntries) <= CACHE_SIZE by { LastSlot(bs, gCacheNumEntries); }
      ghost var before := gCacheBuffer[..];
      forall i | 0 <= i < bs {
        gCacheBuffer[at + i] := dest[pos + i];
      }
      assert gCacheBuffer[at..at + bs] == dest[pos..pos + bs];
      forall e | 0 <= e < gCacheNumEntries && e != cnt
        ensures Slot(bs, e) + bs <= CACHE_SIZE && gCacheBuffer[..][Slot(bs, e)..Slot(bs, e) + bs] == before[Slot(bs, e)..Slot(bs, e) + bs]
      {
        SlotsApart(bs, e, gCacheNumEntries);
        if e < cnt {
          SlotsApart(bs, e, cnt);
        } else {
          SlotsApart(bs, cnt, e);
        }
      }
    }

    /** CacheRead: the caller gets the disk's bytes. A cacheable block counts as used now in the
        least-recently-used order; it is a hit exactly when it was in there; and every call with
        the cache flag is either a hit or a miss. */
    method CacheRead(ih: int, dest: array<Byte>, pos: int, offset: int, length: int, cache: bool) returns (n: int)
      requires Valid() && ih != 0
      requires dest != gCacheBuffer && 0 <= pos && 0 <= length && pos + length <= dest.Length
      modifies this`gCacheTime, this`slots, this`gCacheHits, this`gCacheMisses, this`gCacheEvicts,
               gCacheEntries, gCacheBuffer, dest
      ensures Valid() && n == length
      ensures dest[..] == old(dest[..pos]) + DiskBytes(disk, ih, offset, length) + old(dest[pos + length..])
      ensures var cacheable := cache && gCacheIH == ih && length == gCacheBlockSize;
        var hit := cacheable && offset in old(Order());
        var full := |old(Order())| == gCacheNumEntries;
        && Order() == (if cacheable then Touch(old(Order()), offset, gCacheNumEntries) else old(Order()))
        && gCacheHits == old(gCacheHits) + (if hit then 1 else 0)
        && gCacheMisses == old(gCacheMisses) + (if cache && !hit then 1 else 0)
        && gCacheEvicts == old(gCacheEvicts) + (if cacheable && !hit && full then 1 else 0)
    {
      hide Touch, OrderedBy, DiskBytes, Faithful, Unique, Slot;
      var loadCache := false;
      if cache && gCacheIH == ih && length == gCacheBlockSize {
        var cnt := Lookup(ih, offset);
        if cnt != gCacheNumEntries {
          Refresh(cnt);
          CopyOut(cnt, dest, pos);
          gCacheHits := gCacheHits + 1;
          return gCacheBlockSize;
        }
        NotCached(offset);
        loadCache := true;
      }
      Read(ih, dest, pos, offset, length);
      if cache {
        gCacheMisses := gCacheMisses + 1;
      }
      if loadCache {
        LoadCache(ih, dest, pos, offset);
      }
      n := length;
    }

    /** A whole run of initialisations and reads, of any devices. Every read returns its device's
        bytes; hits and misses count the reads with the cache flag since the last initialisation that
        took effect; and the cache holds what the cacheable reads since then touched last. */
    method RunAll(ops: seq<CacheOp>) returns (results: seq<seq<Byte>>)
      requires Valid() && gCacheIH == 0 && slots == [] && gCacheHits == 0 && gCacheMisses == 0
      requires forall op :: op in ops ==> op.ih != 0
      modifies this, gCacheEntries, gCacheBuffer
      ensures Valid() && |results| == |ops|
      ensures forall i :: 0 <= i < |ops| ==> results[i] == Delivered(disk, ops[i])
      ensures gCacheHits + gCacheMisses == Flagged(Since(ops))
      ensures gCacheIH == DeviceOf(ops).0 && gCacheBlockSize == DeviceOf(ops).1
      ensures gCacheIH != 0 ==>
        IsTail(ByLastUse(Cacheable(Since(ops), gCacheIH, gCacheBlockSize)), Order(), gCacheNumEntries)
    {
      hide Touch, OrderedBy, DiskBytes, Faithful, Unique, IsTail, ByLastUse, Offsets, Since, DeviceOf, Flagged, Cacheable;
      results := [];
      var i := 0;
      NothingRun(ops);
      NoOffsets(gCacheEntries[..]);
      while i < |ops|
        invariant Valid() && 0 <= i == |results| <= |ops|
        invariant forall j :: 0 <= j < i ==> results[j] == Delivered(disk, ops[j])
        invariant gCacheHits + gCacheMisses == Flagged(Since(ops[..i]))
        invariant gCacheIH == DeviceOf(ops[..i]).0 && gCacheBlockSize == DeviceOf(ops[..i]).1
        invariant Order() == TouchAll(Cacheable(Since(ops[..i]), gCacheIH, gCacheBlockSize), gCacheNumEntries)
      {
        var r := RunOne(ops[i]);
        OneMore(ops, i);
        FlaggedNext(Since(ops[..i]), ops[i]);
        CacheableNext(Since(ops[..i]), ops[i], gCacheIH, gCacheBlockSize, gCacheNumEntries);
        results := results + [r];
        i := i + 1;
      }
      assert ops[..i] == ops;
      if gCacheIH != 0 {
        HoldsLastUsed(Cacheable(Since(ops), gCacheIH, gCacheBlockSize), gCacheNumEntries);
      }
    }

    /** One call of CacheInit or CacheRead, and what it changes. */
    method RunOne(op: CacheOp) returns (result: seq<Byte>)
      requires Valid() && op.ih != 0
      modifies this, gCacheEntries, gCacheBuffer
      ensures Valid() && result == Delivered(disk, op)
      ensures TakesEffect(op) ==> gCacheIH == op.ih && gCacheBlockSize == op.blockSize && Order() == []
      ensures TakesEffect(op) ==> gCacheHits + gCacheMisses == 0
      ensures !TakesEffect(op) ==>
        gCacheIH == old(gCacheIH) && gCacheBlockSize == old(gCacheBlockSize) && gCacheNumEntries == old(gCacheNumEntries)
      ensures !TakesEffect(op) ==>
        gCacheHits + gCacheMisses == old(gCacheHits) + old(gCacheMisses) + if op.Read? && op.cache then 1 else 0
      ensures !TakesEffect(op) && IsCacheable(op, gCacheIH, gCacheBlockSize) ==>
        Order() == Touch(old(Order()), op.offset, gCacheNumEntries)
      ensures !TakesEffect(op) && !IsCacheable(op, gCacheIH, gCacheBlockSize) ==> Order() == old(Order())
    {
      hide Touch, OrderedBy, DiskBytes, Faithful, Unique, Offsets;
      match op
      case Init(ih, blockSize) =>
        CacheInit(ih, blockSize);
        NoOffsets(gCacheEntries[..]);
        result := [];
      case Read(ih, offset, length, cache) =>
        var dest := new Byte[length](_ => 0);
        var n := CacheRead(ih, dest, 0, offset, length, cache);
        result := dest[..];
        assert result == DiskBytes(disk, ih, offset, length);
    }

    /** The last part of CacheRead: the block goes to a free entry, or to the least recently used one. */
    method LoadCache(ih: int, dest: array<Byte>, pos: int, offset: int)
      requires Valid() && gCacheIH == ih != 0
      requires forall e :: 0 <= e < gCacheNumEntries && Live(e) ==> gCacheEntries[e].offset != offset
      requires dest != gCacheBuffer && 0 <= pos && pos + gCacheBlockSize <= dest.Length
      requires dest[pos..pos + gCacheBlockSize] == DiskBytes(disk, ih, offset, gCacheBlockSize)
      modifies this`gCacheTime, this`slots, this`gCacheEvicts, gCacheEntries, gCacheBuffer
      ensures Valid()
      ensures Order() == Touch(old(Order()), offset, gCacheNumEntries)
      ensures gCacheEvicts == old(gCacheEvicts) + if |old(Order())| == gCacheNumEntries then 1 else 0
    {
      hide Touch, OrderedBy, DiskBytes, Faithful, Unique, Slot;
      var cnt, evict := Victim();
      if evict {
        gCacheEvicts := gCacheEvicts + 1;
      }
      Fill(cnt, evict, ih, offset, dest, pos);
    }

    /** bcopy from the slot of entry cnt to the caller. */
    method CopyOut(cnt: int, dest: array<Byte>, pos: int)
      requires Shape() && gCacheIH != 0 && 0 <= cnt < gCacheNumEntries && Slot(gCacheBlockSize, cnt) + gCacheBlockSize <= CACHE_SIZE
      requires dest != gCacheBuffer && 0 <= pos && pos + gCacheBlockSize <= dest.Length
      modifies dest
      ensures dest[..] == old(dest[..pos])
        + gCacheBuffer[Slot(gCacheBlockSize, cnt)..Slot(gCacheBlockSize, cnt) + gCacheBlockSize]
        + old(dest[pos + gCacheBlockSize..])
    {
      hide Slot;
      var at := Slot(gCacheBlockSize, cnt);
      forall i | 0 <= i < gCacheBlockSize {
        dest[pos + i] := gCacheBuffer[at + i];
      }
    }

    /** Seek and Read on the disk. */
    method Read(ih: int, dest: array<Byte>, pos: int, offset: int, length: int)
      requires 0 <= pos && 0 <= length && pos + length <= dest.Length
      modifies dest
      ensures dest[..] == old(dest[..pos]) + DiskBytes(disk, ih, offset, length) + old(dest[pos + length..])
      ensures dest[pos..pos + length] == DiskBytes(disk, ih, offset, length)
    {
      forall i | 0 <= i < length {
        dest[pos + i] := disk(ih, offset + i);
      }
    }
  }

  /** A call of CacheInit or CacheRead. */
  datatype CacheOp =
    | Init(ih: int, blockSize: int)
    | Read(ih: int, offset: int, length: nat, cache: bool)

  predicate TakesEffect(op: CacheOp) {
    op.Init? && MIN_BLOCK_SIZE <= op.blockSize < MAX_BLOCK_SIZE
  }

  /** The bytes a call delivers. */
  function Delivered(disk: Disk, op: CacheOp): seq<Byte> {
    match op
    case Init(_, _) => []
    case Read(ih, offset, length, _) => DiskBytes(disk, ih, offset, length)
  }

  /** The calls since the last initialisation that took effect. */
  function Since(ops: seq<CacheOp>): seq<CacheOp> {
    if ops == [] || TakesEffect(ops[|ops| - 1]) then []
    else Since(ops[..|ops| - 1]) + [ops[|ops| - 1]]
  }

  /** Device and block size of the last initialisation that took effect, 0 before the first. */
  function DeviceOf(ops: seq<CacheOp>): (int, int) {
    if ops == [] then (0, 0)
    else if TakesEffect(ops[|ops| - 1]) then (ops[|ops| - 1].ih, ops[|ops| - 1].blockSize)
    else DeviceOf(ops[..|ops| - 1])
  }

  function Flagged(ops: seq<CacheOp>): nat {
    if ops == [] then 0
    else
      var op := ops[|ops| - 1];
      Flagged(ops[..|ops| - 1]) + if op.Read? && op.cache then 1 else 0
  }

  /** A read of one whole block of the cached device with the cache flag. */
  predicate IsCacheable(op: CacheOp, ih: int, blockSize: int) {
    op.Read? && op.cache && op.ih == ih && op.length == blockSize
  }

  function Cacheable(ops: seq<CacheOp>, ih: int, blockSize: int): seq<int> {
    if ops == [] then []
    else
      var op := ops[|ops| - 1];
      Cacheable(ops[..|ops| - 1], ih, blockSize) + if IsCacheable(op, ih, blockSize) then [op.offset] else []
  }

  lemma NothingRun(ops: seq<CacheOp>)
    ensures Since(ops[..0]) == [] && DeviceOf(ops[..0]) == (0, 0) && Flagged([]) == 0
    ensures forall ih, bs :: Cacheable([], ih, bs) == []
  {
  }

  lemma NoOffsets(es: seq<CacheEntry>)
    ensures Offsets([], es) == []
  {
  }

  /** One more call. */
  lemma OneMore(ops: seq<CacheOp>, i: nat)
    requires i < |ops|
    ensures TakesEffect(ops[i]) ==> Since(ops[..i + 1]) == [] && DeviceOf(ops[..i + 1]) == (ops[i].ih, ops[i].blockSize)
    ensures !TakesEffect(ops[i]) ==>
      Since(ops[..i + 1]) == Since(ops[..i]) + [ops[i]] && DeviceOf(ops[..i + 1]) == DeviceOf(ops[..i])
  {
    assert ops[..i + 1][..i] == ops[..i];
  }

  lemma FlaggedNext(since: seq<CacheOp>, op: CacheOp)
    ensures Flagged([]) == 0
    ensures Flagged(since + [op]) == Flagged(since) + if op.Read? && op.cache then 1 else 0
  {
    assert (since + [op])[..|since|] == since;
  }

  lemma CacheableNext(since: seq<CacheOp>, op: CacheOp, ih: int, bs: int, cap: nat)
    ensures TouchAll(Cacheable([], ih, bs), cap) == []
    ensures IsCacheable(op, ih, bs) ==>
      TouchAll(Cacheable(since + [op], ih, bs), cap) == Touch(TouchAll(Cacheable(since, ih, bs), cap), op.offset, cap)
    ensures !IsCacheable(op, ih, bs) ==> Cacheable(since + [op], ih, bs) == Cacheable(since, ih, bs)
  {
    hide Touch;
    assert (since + [op])[..|since|] == since;
    var keys := Cacheable(since, ih, bs);
    if IsCacheable(op, ih, bs) {
      assert (keys + [op.offset])[..|keys|] == keys;
    } else {
      assert keys + [] == keys;
    }
  }

  lemma FilledOffsets(slots: seq<nat>, es: seq<CacheEntry>, d: nat, c: nat, x: CacheEntry)
    requires d <= |slots| && c < |es| && forall i :: 0 <= i < |slots| ==> slots[i] < |es|
    requires forall i :: d <= i < |slots| ==> slots[i] != c
    ensures var slots' := slots[d..] + [c];
      (forall i :: 0 <= i < |slots'| ==> slots'[i] < |es|) &&
      Offsets(slots', es[c := x]) == Offsets(slots, es)[d..] + [x.offset]
  {
    var slots' := slots[d..] + [c];
    assert forall i :: 0 <= i < |slots'| ==> slots'[i] == if i < |slots| - d then slots[i + d] else c;
  }

  lemma LastSlot(bs: nat, n: nat)
    ensures Slot(bs, n) == n * bs
  {
  }

  lemma EntryCount(blockSize: int)
    requires MIN_BLOCK_SIZE <= blockSize < MAX_BLOCK_SIZE
    ensures 32 <= CACHE_SIZE / blockSize <= MAX_ENTRIES
    ensures CACHE_SIZE / blockSize * blockSize <= CACHE_SIZE
  {
    var q := CACHE_SIZE / blockSize;
    DivBounds(CACHE_SIZE, blockSize);
    if q < 32 {
      MulMonotone(q + 1, 32, blockSize);
    }
    MulMonotone(MIN_BLOCK_SIZE, blockSize, q);
  }

  lemma DivBounds(a: nat, b: nat)
    requires b > 0
    ensures a / b * b <= a < (a / b + 1) * b
  {
    assert a == a / b * b + a % b;
    assert (a / b + 1) * b == a / b * b + b;
  }

  lemma MulMonotone(x: nat, y: nat, z: nat)
    requires x <= y
    ensures x * z <= y * z
  {
    assert y * z == x * z + (y - x) * z;
  }
}
