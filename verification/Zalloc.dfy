/** bootx/libc/zalloc.c: the tables as fixed-size arrays, shifted and merged in place. */
module Zalloc {
  import opened Options
  import opened Heap
  import opened HeapSteps
  import opened HeapRuns

  /** The bytes of one table entry on the 32-bit target. */
  const ZMEM_SIZE := 8

  class Zalloc {
    var zalloc_addr: int
    var zalloc_len: int
    /** Whether malloc_init was called (zalloc_base is set). */
    var ready: bool
    var zalloced: array<Block>
    var zavailable: array<Block>
    var allocedNodes: int
    var availableNodes: int

    ghost predicate Shape()
      reads this
    {
      && zalloced.Length == ZALLOC_NODES && zavailable.Length == ZALLOC_NODES && zalloced != zavailable
      && 0 <= allocedNodes <= ZALLOC_NODES && 0 <= availableNodes <= ZALLOC_NODES
    }

    /** The tables in use. */
    ghost function Tables(): Heap
      requires Shape()
      reads this, zalloced, zavailable
    {
      Heap(zavailable[..availableNodes], zalloced[..allocedNodes])
    }

    /** The managed range starts behind both tables and has the full size that was passed. */
    ghost function Lo(): int
      reads this
    {
      zalloc_addr + 2 * ZALLOC_NODES * ZMEM_SIZE
    }

    ghost predicate Valid()
      reads this, zalloced, zavailable
    {
      Shape() && (ready ==> zalloc_addr > 0 && Consistent(Tables(), Lo(), Lo() + zalloc_len))
    }

    constructor ()
      ensures Valid() && !ready && fresh(zalloced) && fresh(zavailable)
    {
      zalloc_addr, zalloc_len, ready := 0, 0, false;
      allocedNodes, availableNodes := 0, 0;
      zalloced := new Block[ZALLOC_NODES](_ => Block(0, 0));
      zavailable := new Block[ZALLOC_NODES](_ => Block(0, 0));
    }

    /** malloc_init */
    method MallocInit(start: int, size: int)
      requires Valid() && start > 0 && size > 0
      modifies this, zavailable
      ensures Valid() && ready && zalloc_addr == start && zalloc_len == size
      ensures zalloced == old(zalloced) && zavailable == old(zavailable)
      ensures Tables() == Initial(Lo(), size)
    {
      zalloc_addr, zalloc_len, ready := start, size, true;
      zavailable[0] := Block(start + ZALLOC_NODES * ZMEM_SIZE + ZALLOC_NODES * ZMEM_SIZE, size);
      availableNodes, allocedNodes := 1, 0;
      assert zavailable[..1] == [Block(Lo(), size)];
      InitialConsistent(Lo(), size);
    }

    /** zinsert: opens a gap at ndx, dropping the last entry of the table. */
    method ZInsert(zp: array<Block>, ndx: int)
      requires zp.Length == ZALLOC_NODES && 0 <= ndx < ZALLOC_NODES
      modifies zp
      ensures forall k :: 0 <= k <= ndx ==> zp[k] == old(zp[k])
      ensures forall k :: ndx < k < ZALLOC_NODES ==> zp[k] == old(zp[k - 1])
    {
      var i := ZALLOC_NODES - 2;
      while i >= ndx
        invariant ndx - 1 <= i <= ZALLOC_NODES - 2
        invariant forall k :: 0 <= k <= i + 1 ==> zp[k] == old(zp[k])
        invariant forall k :: i + 1 < k < ZALLOC_NODES ==> zp[k] == old(zp[k - 1])
      {
        zp[i + 1] := zp[i];
        i := i - 1;
      }
    }

    /** zdelete: closes the gap at ndx. */
    method ZDelete(zp: array<Block>, ndx: int)
      requires zp.Length == ZALLOC_NODES && 0 <= ndx < ZALLOC_NODES
      modifies zp
      ensures forall k :: 0 <= k < ndx ==> zp[k] == old(zp[k])
      ensures forall k :: ndx <= k < ZALLOC_NODES - 1 ==> zp[k] == old(zp[k + 1])
    {
      var i := ndx;
      while i < ZALLOC_NODES - 1
        invariant ndx <= i <= ZALLOC_NODES - 1
        invariant forall k :: 0 <= k < ndx ==> zp[k] == old(zp[k])
        invariant forall k :: ndx <= k < i ==> zp[k] == old(zp[k + 1])
        invariant forall k :: i <= k < ZALLOC_NODES ==> zp[k] == old(zp[k])
      {
        zp[i] := zp[i + 1];
        i := i + 1;
      }
    }

    /** A free block leaves its table, and the count follows. */
    method DropAvailable(i: int)
      requires Shape() && 0 <= i < availableNodes
      modifies this`availableNodes, zavailable
      ensures Shape() && Tables() == Heap(Without(old(Tables().free), i), old(Tables().used))
    {
      ghost var free := zavailable[..availableNodes];
      ZDelete(zavailable, i);
      availableNodes := availableNodes - 1;
      IsWithout(free, i, zavailable[..availableNodes]);
    }

    /** An allocated block leaves its table, and the count follows. */
    method DropAlloced(i: int)
      requires Shape() && 0 <= i < allocedNodes
      modifies this`allocedNodes, zalloced
      ensures Shape() && Tables() == Heap(old(Tables().free), Without(old(Tables().used), i))
    {
      ghost var used := zalloced[..allocedNodes];
      ZDelete(zalloced, i);
      allocedNodes := allocedNodes - 1;
      IsWithout(used, i, zalloced[..allocedNodes]);
    }

    /** A gap opened in the free table, counted, and filled in. */
    method InsertAvailable(i: int, b: Block)
      requires Shape() && 0 <= i < availableNodes < ZALLOC_NODES
      modifies this`availableNodes, zavailable
      ensures Shape()
      ensures Tables() == Heap(old(Tables().free)[..i] + [b] + old(Tables().free)[i..], old(Tables().used))
    {
      ghost var free := zavailable[..availableNodes];
      ZInsert(zavailable, i);
      availableNodes := availableNodes + 1;
      zavailable[i] := b;
      IsInserted(free, i, b, zavailable[..availableNodes]);
    }

    /** The entry at i is changed in place. */
    method SetAvailable(i: int, b: Block)
      requires Shape() && 0 <= i < availableNodes
      modifies zavailable
      ensures Shape() && Tables() == Heap(old(Tables().free)[i := b], old(Tables().used))
    {
      zavailable[i] := b;
    }

    /** The entry behind the last one is written and counted. */
    method AppendAvailable(b: Block)
      requires Shape() && availableNodes < ZALLOC_NODES
      modifies this`availableNodes, zavailable
      ensures Shape() && Tables() == Heap(old(Tables().free) + [b], old(Tables().used))
    {
      zavailable[availableNodes] := b;
      availableNodes := availableNodes + 1;
    }

    /** zallocate */
    method ZAllocate(start: int, size: int)
      requires Shape() && allocedNodes < ZALLOC_NODES
      modifies this`allocedNodes, zalloced
      ensures Shape() && Tables() == Heap(old(Tables().free), old(Tables().used) + [Block(start, size)])
    {
      zalloced[allocedNodes] := Block(start, size);
      allocedNodes := allocedNodes + 1;
    }

    /** The loop of malloc: first fit. */
    method FirstLarge(r: int) returns (i: int)
      requires Shape()
      ensures i == FirstFit(Tables().free, r)
    {
      i := 0;
      while i < availableNodes && zavailable[i].size < r
        invariant 0 <= i <= FirstFit(Tables().free, r)
      {
        assert Tables().free[i] == zavailable[i];
        i := i + 1;
      }
      assert i < availableNodes ==> Tables().free[i] == zavailable[i];
    }

    /** malloc: returns 0 when it fails; alarm says whether the error handler is called. */
    method Malloc(size: nat) returns (ret: int, alarm: bool)
      requires Valid() && 0 < size <= 0xffff_fff0
      requires ready ==> allocedNodes < ZALLOC_NODES
      modifies this`allocedNodes, this`availableNodes, zalloced, zavailable
      ensures Valid() && zalloced == old(zalloced) && zavailable == old(zavailable)
      ensures !ready ==> ret == 0 && !alarm && Tables() == old(Tables())
      ensures ready ==> Tables() == Allocate(old(Tables()), RoundUp(size)).0
      ensures ready ==> ret == var p := Allocate(old(Tables()), RoundUp(size)).1; if p.Some? then p.value else 0
      ensures ready ==> (alarm <==> ret == 0 || ret + RoundUp(size) >= zalloc_addr + zalloc_len)
    {
      hide Consistent, RoundUp, FirstFit, Allocate, Without;
      ret, alarm := 0, false;
      if !ready {
        return;
      }
      var r := RoundUp(size);
      ghost var h := Tables();
      RoundUpRoom(size);
      AllocateKeeps(h, r, Lo(), Lo() + zalloc_len);
      var i := FirstLarge(r);
      AllocateCases(h, r, i);
      if i < availableNodes {
        var b := zavailable[i];
        assert b == h.free[i];
        ret := b.start;
        ZAllocate(ret, r);
        if b.size == r {
          DropAvailable(i);
        } else {
          SetAvailable(i, Block(b.start + r, b.size - r));
        }
      }
      alarm := ret == 0 || ret + r >= zalloc_addr + zalloc_len;
    }

    /** zcoalesce: merges the first two blocks that touch. */
    method ZCoalesce()
      requires Shape()
      modifies this`availableNodes, zavailable
      ensures Shape()
      ensures Tables() == Heap(Coalesce(old(Tables().free)), old(Tables().used))
    {
      hide FirstTouch, Coalesce, Splice;
      ghost var free := Tables().free;
      var i := 0;
      while i < availableNodes - 1
        invariant Shape() && Tables() == old(Tables())
        invariant 0 <= i <= FirstTouch(free)
      {
        assert free[i] == zavailable[i] && free[i + 1] == zavailable[i + 1];
        CoalesceFirst(free, i);
        if zavailable[i].start + zavailable[i].size == zavailable[i + 1].start {
          var x := Block(zavailable[i].start, zavailable[i].size + zavailable[i + 1].size);
          SetAvailable(i, x);
          DropAvailable(i + 1);
          MergedPair(free, i, x);
          return;
        }
        i := i + 1;
      }
      CoalesceFirst(free, i);
    }

    /** free: an address that was not handed out is ignored. */
    method Free(start: int)
      requires Valid()
      modifies this`allocedNodes, this`availableNodes, zalloced, zavailable
      ensures Valid() && zalloced == old(zalloced) && zavailable == old(zavailable)
      ensures !ready || start == 0 ==> Tables() == old(Tables())
      ensures ready && start != 0 ==> Tables() == Release(old(Tables()), start)
    {
      hide Consistent, Insert, Placeable, IndexOf;
      if !ready || start == 0 {
        return;
      }
      ghost var h := Tables();
      ghost var lo, hi := Lo(), Lo() + zalloc_len;
      ReleaseKeeps(h, start, lo, hi);
      var i := 0;
      while i < allocedNodes && zalloced[i].start != start
        invariant 0 <= i <= allocedNodes
        invariant forall k :: 0 <= k < i ==> h.used[k].start != start
      {
        i := i + 1;
      }
      assert i == IndexOf(h.used, start);
      if i == allocedNodes {
        return;
      }
      var tsize := zalloced[i].size;
      assert h.used[i] == Block(start, tsize);
      DropAlloced(i);
      ReleasePlace(h, i, lo, hi);
      FreeBlock(start, tsize);
    }

    /** The second half of free: puts the block into the free table. Room for it is the condition
        that makes the unchecked write behind the last entry safe. */
    method FreeBlock(start: int, tsize: int)
      requires Shape() && Placeable(Tables().free, Block(start, tsize))
      modifies this`availableNodes, zavailable
      ensures Shape()
      ensures Tables() == Heap(Insert(old(Tables().free), Block(start, tsize)), old(Tables().used))
    {
      hide Insert, Coalesce, Placeable, Before;
      ghost var free := Tables().free;
      ghost var b := Block(start, tsize);
      var i := 0;
      while i < availableNodes
        invariant Shape() && Tables() == old(Tables())
        invariant 0 <= i <= availableNodes && i <= Before(free, start)
      {
        assert zavailable[i] == free[i];
        if start + tsize == zavailable[i].start {
          TouchesNext(free, b, i);
          SetAvailable(i, Block(start, zavailable[i].size + tsize));
          ZCoalesce();
          return;
        }
        assert i > 0 ==> zavailable[i - 1] == free[i - 1];
        if i > 0 && zavailable[i - 1].start + zavailable[i - 1].size == start {
          TouchesPrevious(free, b, i);
          SetAvailable(i - 1, Block(zavailable[i - 1].start, zavailable[i - 1].size + tsize));
          ZCoalesce();
          return;
        }
        if start + tsize < zavailable[i].start {
          TouchesNone(free, b, i);
          InsertAvailable(i, Block(start, tsize));
          return;
        }
        GoesFurther(free, b, i);
        i := i + 1;
      }
      AppendLast(free, b);
      AppendAvailable(Block(start, tsize));
      ZCoalesce();
    }
  }

  lemma IsWithout(s: seq<Block>, i: nat, t: seq<Block>)
    requires i < |s| == |t| + 1
    requires forall k :: 0 <= k < i ==> t[k] == s[k]
    requires forall k :: i <= k < |t| ==> t[k] == s[k + 1]
    ensures t == Without(s, i)
  {
  }

  lemma IsInserted(s: seq<Block>, i: nat, b: Block, t: seq<Block>)
    requires i <= |s| == |t| - 1
    requires forall k :: 0 <= k < i ==> t[k] == s[k]
    requires t[i] == b
    requires forall k :: i < k < |t| ==> t[k] == s[k - 1]
    ensures t == s[..i] + [b] + s[i..]
  {
  }

  lemma MergedPair(free: seq<Block>, i: nat, x: Block)
    requires i + 1 < |free|
    ensures Without(free[i := x], i + 1) == Splice(free, i, i + 2, x)
  {
    var f := free[i := x];
    assert f[..i + 1] == free[..i] + [x];
    assert f[i + 2..] == free[i + 2..];
  }

  /** The first touching pair decides what zcoalesce does. */
  lemma CoalesceFirst(free: seq<Block>, i: nat)
    requires i <= FirstTouch(free)
    ensures Touch(free, i) ==> Coalesce(free) == Splice(free, i, i + 2, Block(free[i].start, free[i].size + free[i + 1].size))
    ensures !Touch(free, i) && i + 1 < |free| ==> i < FirstTouch(free)
    ensures i + 1 >= |free| ==> Coalesce(free) == free
  {
    hide FirstTouch, Splice;
    var t := FirstTouch(free);
    assert Touch(free, i) ==> t == i;
    assert i + 1 >= |free| ==> t == |free|;
  }

  lemma AllocateCases(h: Heap, r: int, i: nat)
    requires i == FirstFit(h.free, r)
    ensures i == |h.free| ==> Allocate(h, r) == (h, None)
    ensures i < |h.free| ==>
      var b := h.free[i];
      var free := if b.size == r then Without(h.free, i) else h.free[i := Block(b.start + r, b.size - r)];
      Allocate(h, r) == (Heap(free, h.used + [Block(b.start, r)]), Some(b.start))
  {
    hide FirstFit;
  }

  predicate Touch(free: seq<Block>, i: nat) {
    i + 1 < |free| && End(free[i]) == free[i + 1].start
  }

  function FirstTouch(free: seq<Block>): (i: nat)
    ensures i <= |free|
    ensures forall k :: 0 <= k < i ==> !Touch(free, k)
    ensures i < |free| ==> Touch(free, i)
  {
    if free == [] then 0
    else if Touch(free, 0) then 0
    else
      var i := FirstTouch(free[1..]);
      assert forall k :: 0 < k <= i ==> Touch(free, k) == Touch(free[1..], k - 1);
      1 + i
  }

  /** What zcoalesce computes: the first two touching blocks are merged. */
  function Coalesce(free: seq<Block>): seq<Block> {
    var i := FirstTouch(free);
    if i == |free| then free
    else Splice(free, i, i + 2, Block(free[i].start, free[i].size + free[i + 1].size))
  }

  /** A block that overlaps no free block and has room in the table. */
  ghost predicate Placeable(free: seq<Block>, b: Block) {
    && b.size > 0 && |free| <= ZALLOC_NODES && Separate(free)
    && (forall i :: 0 <= i < |free| ==> free[i].size > 0 && (End(free[i]) <= b.start || End(b) <= free[i].start))
    && (Before(free, b.start) == |free| ==> |free| < ZALLOC_NODES)
    && |Insert(free, b)| <= ZALLOC_NODES
  }

  /** Releasing an allocated block finds room. */
  lemma ReleasePlace(h: Heap, k: nat, lo: int, hi: int)
    requires Consistent(h, lo, hi) && k < |h.used|
    ensures Placeable(h.free, h.used[k])
  {
    hide Consistent, Insert, Release, Before, Separate;
    var b := h.used[k];
    ConsistentBounds(h, lo, hi);
    ConsistentDisjoint(h, lo, hi);
    UsedUnique(h, k, lo, hi);
    ReleaseFree(h, k);
    ReleaseKeeps(h, b.start, lo, hi);
    ConsistentBounds(Release(h, b.start), lo, hi);
    if Before(h.free, b.start) == |h.free| {
      LastRoom(h, k, lo, hi);
    }
  }

  lemma ReleaseFree(h: Heap, k: nat)
    requires k < |h.used| && IndexOf(h.used, h.used[k].start) == k
    ensures Release(h, h.used[k].start).free == Insert(h.free, h.used[k])
  {
  }

  /** An allocated block is found by its address. */
  lemma UsedUnique(h: Heap, k: nat, lo: int, hi: int)
    requires Consistent(h, lo, hi) && k < |h.used|
    ensures IndexOf(h.used, h.used[k].start) == k
  {
    ConsistentDisjoint(h, lo, hi);
    ConsistentBounds(h, lo, hi);
    hide Consistent;
    var i := IndexOf(h.used, h.used[k].start);
    assert i < |h.used|;
  }

  /** With an allocated block behind all free ones, the free table has an entry to spare. */
  lemma LastRoom(h: Heap, k: nat, lo: int, hi: int)
    requires Consistent(h, lo, hi) && k < |h.used| && Before(h.free, h.used[k].start) == |h.free|
    ensures |h.free| < ZALLOC_NODES
  {
    hide FreeOf, UsedOf, Total, Tiles, Apart;
    var l: Layout :| Describes(l, h, lo, hi) && Fits(l, h);
    var last := |l| - 1;
    if !l[last].used {
      Split(l, last, lo);
      var c := l[last].block;
      assert l[last + 1..] == [];
      EmptySums();
      assert h.free == FreeOf(l[..last]) + [c];
      assert h.free[|h.free| - 1] == c;
      assert c.start < h.used[k].start;
      MemberOf(h.used, k, UsedOf(l));
      assert UsedOf(l) == UsedOf(l[..last]);
      Within(l[..last], lo, h.used[k]);
      assert false;
    }
  }

  /** Where a placeable block goes, block by block. */
  lemma BeforeIff(free: seq<Block>, b: Block, i: nat)
    requires Placeable(free, b) && i < |free|
    ensures i < Before(free, b.start) <==> End(free[i]) <= b.start
    ensures i >= Before(free, b.start) <==> End(b) <= free[i].start
  {
    hide Insert, Before;
    var at := Before(free, b.start);
    assert End(free[i]) <= b.start || End(b) <= free[i].start;
    if at < i {
      assert End(free[at]) < free[i].start;
    }
  }

  /** If at most the pair at i touches, merging merges that pair or nothing. */
  lemma CoalesceAt(free: seq<Block>, i: nat)
    requires forall k :: 0 <= k < |free| && k != i ==> !Touch(free, k)
    ensures Coalesce(free) ==
      if Touch(free, i) then Splice(free, i, i + 2, Block(free[i].start, free[i].size + free[i + 1].size)) else free
  {
    hide FirstTouch, Splice;
    var k := FirstTouch(free);
    assert k == |free| || Touch(free, k);
  }

  lemma SeparateUntouched(free: seq<Block>)
    requires Separate(free)
    ensures forall k :: 0 <= k < |free| ==> !Touch(free, k)
  {
  }

  /** A splice does not depend on what it replaces. */
  lemma SpliceIgnores(f: seq<Block>, g: seq<Block>, from: nat, to: nat, to': nat, b: Block)
    requires from <= to <= |f| && from <= to' <= |g| && |f| - to == |g| - to'
    requires forall k :: 0 <= k < from ==> f[k] == g[k]
    requires forall k :: to <= k < |f| ==> f[k] == g[k - to + to']
    ensures Splice(f, from, to, b) == Splice(g, from, to', b)
  {
  }

  lemma SpliceSet(f: seq<Block>, i: nat, b: Block)
    requires i < |f|
    ensures Splice(f, i, i + 1, b) == f[i := b]
  {
  }

  /** The cases of free, as facts about where the block goes. */
  lemma PlaceFacts(free: seq<Block>, b: Block, i: nat)
    requires Placeable(free, b) && i <= Before(free, b.start)
    requires i < |free| ==> End(b) <= free[i].start
    requires i == |free| ==> Before(free, b.start) == |free|
    ensures i == Before(free, b.start)
    ensures i > 0 && End(free[i - 1]) == b.start <==> TouchesLeft(free, i, b)
    ensures forall k :: 0 <= k < |free| ==> !Touch(free, k)
    ensures i > 0 && i < |free| ==> End(free[i - 1]) < free[i].start
    ensures Insert(free, b) == InsertAt(free, i, b)
    ensures i < |free| || |free| < ZALLOC_NODES
    ensures |Insert(free, b)| <= ZALLOC_NODES
  {
    hide Before, InsertAt;
    SeparateUntouched(free);
    if i < |free| {
      BeforeIff(free, b, i);
    }
  }

  lemma InsertAtCases(free: seq<Block>, i: nat, b: Block)
    requires i <= |free|
    ensures !TouchesLeft(free, i, b) && !TouchesRight(free, i, b) ==> InsertAt(free, i, b) == Splice(free, i, i, b)
    ensures TouchesLeft(free, i, b) && !TouchesRight(free, i, b) ==>
      InsertAt(free, i, b) == Splice(free, i - 1, i, Block(free[i - 1].start, free[i - 1].size + b.size))
    ensures !TouchesLeft(free, i, b) && TouchesRight(free, i, b) ==>
      InsertAt(free, i, b) == Splice(free, i, i + 1, Block(b.start, b.size + free[i].size))
    ensures TouchesLeft(free, i, b) && TouchesRight(free, i, b) ==>
      InsertAt(free, i, b) == Splice(free, i - 1, i + 1, Block(free[i - 1].start, free[i - 1].size + b.size + free[i].size))
  {
    hide Splice;
  }

  /** Touching is local. */
  lemma TouchSet(free: seq<Block>, i: nat, x: Block, f: seq<Block>)
    requires i < |free| && f == free[i := x]
    requires forall k :: 0 <= k < |free| ==> !Touch(free, k)
    ensures forall k :: 0 <= k < |f| && k != i && k != i - 1 ==> !Touch(f, k)
    ensures End(x) == End(free[i]) ==> !Touch(f, i)
    ensures x.start == free[i].start && i > 0 ==> !Touch(f, i - 1)
  {
    forall k | 0 <= k < |f| && k != i && k != i - 1 ensures !Touch(f, k) {
      assert !Touch(free, k);
    }
    assert !Touch(free, i);
    assert i > 0 ==> !Touch(free, i - 1);
  }

  lemma TouchesNext(free: seq<Block>, b: Block, i: nat)
    requires Placeable(free, b) && i < |free| && End(b) == free[i].start && i <= Before(free, b.start)
    ensures Coalesce(free[i := Block(b.start, free[i].size + b.size)]) == Insert(free, b)
  {
    hide Before, Coalesce, Placeable, Splice, Insert, InsertAt;
    PlaceFacts(free, b, i);
    InsertAtCases(free, i, b);
    var x := Block(b.start, free[i].size + b.size);
    var f := free[i := x];
    TouchSet(free, i, x, f);
    CoalesceAt(f, if i > 0 then i - 1 else |f|);
    if TouchesLeft(free, i, b) {
      SpliceIgnores(f, free, i - 1, i + 1, i + 1, Block(free[i - 1].start, free[i - 1].size + x.size));
    } else {
      SpliceSet(free, i, x);
    }
  }

  lemma TouchesPrevious(free: seq<Block>, b: Block, i: nat)
    requires Placeable(free, b) && 0 < i < |free| && i <= Before(free, b.start)
    requires End(b) != free[i].start && End(free[i - 1]) == b.start
    ensures Coalesce(free[i - 1 := Block(free[i - 1].start, free[i - 1].size + b.size)]) == Insert(free, b)
  {
    hide Before, Coalesce, Splice, Insert, InsertAt;
    BeforeIff(free, b, i);
    PlaceFacts(free, b, i);
    InsertAtCases(free, i, b);
    var x := Block(free[i - 1].start, free[i - 1].size + b.size);
    TouchSet(free, i - 1, x, free[i - 1 := x]);
    CoalesceAt(free[i - 1 := x], |free|);
    SpliceSet(free, i - 1, x);
  }

  lemma TouchesNone(free: seq<Block>, b: Block, i: nat)
    requires Placeable(free, b) && i < |free| && End(b) < free[i].start && (i > 0 ==> End(free[i - 1]) != b.start)
    requires i <= Before(free, b.start)
    ensures free[..i] + [b] + free[i..] == Insert(free, b) && |free| < ZALLOC_NODES
  {
    hide Before, Placeable, Insert, InsertAt;
    PlaceFacts(free, b, i);
    InsertAtCases(free, i, b);
  }

  lemma GoesFurther(free: seq<Block>, b: Block, i: nat)
    requires Placeable(free, b) && i < |free| && End(b) > free[i].start
    ensures i < Before(free, b.start)
  {
    BeforeIff(free, b, i);
  }

  lemma AppendLast(free: seq<Block>, b: Block)
    requires Placeable(free, b) && Before(free, b.start) == |free|
    ensures Coalesce(free + [b]) == Insert(free, b) && |free| < ZALLOC_NODES
  {
    hide Before, Coalesce, Placeable, Splice, Insert, InsertAt;
    var n, f := |free|, free + [b];
    PlaceFacts(free, b, n);
    InsertAtCases(free, n, b);
    forall k | 0 <= k < |f| && k != n - 1 ensures !Touch(f, k) {
      if k < n {
        assert !Touch(free, k);
      }
    }
    CoalesceAt(f, if n > 0 then n - 1 else |f|);
    if TouchesLeft(free, n, b) {
      SpliceIgnores(f, free, n - 1, n + 1, n, Block(free[n - 1].start, free[n - 1].size + b.size));
    } else {
      SpliceEnd(free, b);
    }
  }

  lemma SpliceEnd(free: seq<Block>, b: Block)
    ensures Splice(free, |free|, |free|, b) == free + [b]
  {
  }
}
