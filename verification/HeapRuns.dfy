/** What the allocator promises over whole runs of malloc and free. */
module HeapRuns {
  import opened Options
  import opened Heap
  import opened HeapSteps

  datatype Request = Malloc(size: nat) | Free(start: int)

  /** A positive request while the allocated table has room, or any release. */
  predicate Legal(h: Heap, q: Request) {
    q.Malloc? ==> RoundUp(q.size) > 0 && |h.used| < ZALLOC_NODES
  }

  function Serve(h: Heap, q: Request): Heap {
    match q
    case Malloc(size) => Allocate(h, RoundUp(size)).0
    case Free(start) => Release(h, start)
  }

  function Run(h: Heap, qs: seq<Request>): Heap
    decreases |qs|
  {
    if qs == [] then h else Run(Serve(h, qs[0]), qs[1..])
  }

  predicate LegalRun(h: Heap, qs: seq<Request>)
    decreases |qs|
  {
    qs != [] ==> Legal(h, qs[0]) && LegalRun(Serve(h, qs[0]), qs[1..])
  }

  function Initial(lo: int, size: int): Heap {
    Heap([Block(lo, size)], [])
  }

  lemma InitialConsistent(lo: int, size: int)
    requires size > 0
    ensures Consistent(Initial(lo, size), lo, lo + size)
  {
    var l := [Cell(Block(lo, size), false)];
    Single(l[0]);
    assert Describes(l, Initial(lo, size), lo, lo + size) && Fits(l, Initial(lo, size));
  }

  /** In every run of legal requests, allocated and free blocks tile the managed range, and
      neither table outgrows its entries. */
  lemma {:induction false} RunConsistent(h: Heap, qs: seq<Request>, lo: int, hi: int)
    requires Consistent(h, lo, hi) && LegalRun(h, qs)
    ensures Consistent(Run(h, qs), lo, hi)
    decreases |qs|
  {
    if qs != [] {
      match qs[0] {
        case Malloc(size) => AllocateKeeps(h, RoundUp(size), lo, hi);
        case Free(start) => ReleaseKeeps(h, start, lo, hi);
      }
      RunConsistent(Serve(h, qs[0]), qs[1..], lo, hi);
    }
  }

  /** No two blocks, of the same table or of both, overlap. */
  ghost predicate Disjoint(h: Heap) {
    && (forall i, j :: 0 <= i < |h.used| && 0 <= j < |h.used| && i != j ==>
          End(h.used[i]) <= h.used[j].start || End(h.used[j]) <= h.used[i].start)
    && (forall i, j :: 0 <= i < |h.free| && 0 <= j < |h.used| ==>
          End(h.free[i]) <= h.used[j].start || End(h.used[j]) <= h.free[i].start)
  }

  lemma ConsistentDisjoint(h: Heap, lo: int, hi: int)
    requires Consistent(h, lo, hi)
    ensures Disjoint(h)
  {
    hide Consistent;
    forall i, j | 0 <= i < |h.used| && 0 <= j < |h.used| && i != j
      ensures End(h.used[i]) <= h.used[j].start || End(h.used[j]) <= h.used[i].start
    {
      UsedDisjoint(h, i, j, lo, hi);
    }
    forall i, j | 0 <= i < |h.free| && 0 <= j < |h.used|
      ensures End(h.free[i]) <= h.used[j].start || End(h.used[j]) <= h.free[i].start
    {
      FreeUsedDisjoint(h, i, j, lo, hi);
    }
  }

  /** From initialisation on, after every run of legal requests: blocks that tile the range and
      never overlap, free blocks that are sorted and never touch, and at most one more free than
      allocated block. */
  lemma RunPromises(lo: int, size: int, qs: seq<Request>)
    requires size > 0 && LegalRun(Initial(lo, size), qs)
    ensures var h := Run(Initial(lo, size), qs);
      && Consistent(h, lo, lo + size) && Disjoint(h)
      && Separate(h.free) && InRange(h.free, lo, lo + size) && InRange(h.used, lo, lo + size)
      && |h.free| <= |h.used| + 1 && |h.free| <= ZALLOC_NODES && |h.used| <= ZALLOC_NODES
  {
    hide Consistent, Run, LegalRun, Separate, InRange, Disjoint;
    var h := Run(Initial(lo, size), qs);
    InitialConsistent(lo, size);
    RunConsistent(Initial(lo, size), qs, lo, lo + size);
    ConsistentBounds(h, lo, lo + size);
    ConsistentDisjoint(h, lo, lo + size);
  }

  /** malloc fails exactly when no free block is large enough; otherwise it takes the lowest one. */
  lemma AllocateFails(h: Heap, r: int, lo: int, hi: int)
    requires Consistent(h, lo, hi)
    ensures Allocate(h, r).1.None? <==> forall i :: 0 <= i < |h.free| ==> h.free[i].size < r
    ensures Allocate(h, r).1.Some? ==>
      forall i :: 0 <= i < |h.free| && h.free[i].size >= r ==> Allocate(h, r).1.value <= h.free[i].start
  {
    hide Consistent, Separate, InRange, FirstFit, Without;
    ConsistentBounds(h, lo, hi);
    var i := FirstFit(h.free, r);
    if i < |h.free| {
      forall j | 0 <= j < |h.free| && h.free[j].size >= r ensures h.free[i].start <= h.free[j].start {
        InOrder(h.free, lo, hi, i, j);
      }
    }
  }

  lemma InOrder(free: seq<Block>, lo: int, hi: int, i: nat, j: nat)
    requires Separate(free) && InRange(free, lo, hi) && i < |free| && j < |free|
    ensures i <= j ==> free[i].start <= free[j].start
  {
    if i < j {
      assert End(free[i]) < free[j].start;
    }
  }

  /** The block handed out is new: it lies in the managed range, overlaps no block handed out
      before, and starts at the address of none. */
  lemma AllocateFresh(h: Heap, r: int, lo: int, hi: int)
    requires Consistent(h, lo, hi) && Allocate(h, r).1.Some?
    ensures IndexOf(h.used, Allocate(h, r).1.value) == |h.used|
    ensures var b := Block(Allocate(h, r).1.value, r);
      lo <= b.start && End(b) <= hi &&
      forall j :: 0 <= j < |h.used| ==> End(b) <= h.used[j].start || End(h.used[j]) <= b.start
  {
    hide Consistent;
    ConsistentBounds(h, lo, hi);
    ConsistentDisjoint(h, lo, hi);
    var i := FirstFit(h.free, r);
    var k := IndexOf(h.used, h.free[i].start);
    assert h.free[i].start == Allocate(h, r).1.value;
    forall j | 0 <= j < |h.used| ensures h.free[i].start + r <= h.used[j].start || End(h.used[j]) <= h.free[i].start {
      FreeUsedDisjoint(h, i, j, lo, hi);
    }
  }

  lemma IndexOfLast(used: seq<Block>, b: Block)
    requires IndexOf(used, b.start) == |used|
    ensures IndexOf(used + [b], b.start) == |used|
  {
    var i := IndexOf(used + [b], b.start);
    assert forall k :: 0 <= k < |used| ==> (used + [b])[k].start == used[k].start;
    assert (used + [b])[|used|] == b;
  }

  /** Putting the front r bytes of the i-th free block back restores the free table. */
  lemma InsertRestores(free: seq<Block>, i: nat, r: int, lo: int, hi: int)
    requires i < |free| && 0 < r <= free[i].size
    requires Separate(free) && InRange(free, lo, hi)
    ensures var b := free[i];
      Insert(if b.size == r then Without(free, i) else free[i := Block(b.start + r, b.size - r)], Block(b.start, r)) == free
  {
    hide Before, InsertAt;
    var b, x := free[i], Block(free[i].start, r);
    var f := if b.size == r then Without(free, i) else free[i := Block(b.start + r, b.size - r)];
    assert forall k :: 0 <= k < i ==> f[k] == free[k];
    assert i < |f| ==> f[i].start == if b.size == r then free[i + 1].start else b.start + r;
    BeforeAt(f, i, b.start);
    assert !TouchesLeft(f, i, x);
    assert TouchesRight(f, i, x) <==> b.size != r;
    SpliceBack(free, i, f, x);
  }

  lemma SpliceBack(free: seq<Block>, i: nat, f: seq<Block>, x: Block)
    requires i < |free| && x.start == free[i].start && 0 < x.size <= free[i].size
    requires f == if free[i].size == x.size then Without(free, i) else free[i := Block(x.start + x.size, free[i].size - x.size)]
    requires !TouchesLeft(f, i, x) && (TouchesRight(f, i, x) <==> free[i].size != x.size)
    ensures InsertAt(f, i, x) == free
  {
  }

  lemma BeforeAt(f: seq<Block>, i: nat, start: int)
    requires i <= |f| && (forall k :: 0 <= k < i ==> f[k].start < start) && (i < |f| ==> f[i].start >= start)
    ensures Before(f, start) == i
  {
    hide Before;
    var at := Before(f, start);
  }

  /** free right after malloc restores both tables. */
  lemma AllocateRelease(h: Heap, r: int, lo: int, hi: int)
    requires Consistent(h, lo, hi) && r > 0 && Allocate(h, r).1.Some?
    ensures Release(Allocate(h, r).0, Allocate(h, r).1.value) == h
  {
    hide Consistent, Insert, IndexOf, FirstFit, Separate, InRange;
    var i := FirstFit(h.free, r);
    var b := Block(h.free[i].start, r);
    AllocateFresh(h, r, lo, hi);
    IndexOfLast(h.used, b);
    ConsistentBounds(h, lo, hi);
    InsertRestores(h.free, i, r, lo, hi);
    assert Without(h.used + [b], |h.used|) == h.used;
  }

  /** Rounding gives room for the request exactly up to the last multiple of 16 below 2^32. */
  lemma RoundUpRoom(size: nat)
    requires size < 0x1_0000_0000
    ensures RoundUp(size) >= size <==> size <= 0xffff_fff0
    ensures size <= 0xffff_fff0 ==> RoundUp(size) < size + 16 && RoundUp(size) % 16 == 0
  {
  }

  /** Why requests must be positive: two requests for nothing get the same address. */
  lemma ZeroRequest(h: Heap)
    requires h.free != [] && h.free[0].size > 0
    ensures var (h1, p1) := Allocate(h, RoundUp(0));
      p1 == Some(h.free[0].start) && Allocate(h1, RoundUp(0)).1 == p1
  {
    hide RoundUp, Without;
    NothingRounded();
    var b := h.free[0];
    assert Allocate(h, 0) == (Heap(h.free[0 := Block(b.start + 0, b.size - 0)], h.used + [Block(b.start, 0)]), Some(b.start));
  }

  lemma NothingRounded()
    ensures RoundUp(0) == 0
  {
  }

  /** Every allocated block can be given back, and exactly it is then allocated no more. */
  lemma ReleaseExactly(h: Heap, i: nat, lo: int, hi: int)
    requires Consistent(h, lo, hi) && i < |h.used|
    ensures multiset(Release(h, h.used[i].start).used) == multiset(h.used) - multiset{h.used[i]}
  {
    hide Insert, Consistent, Without, IndexOf;
    ConsistentBounds(h, lo, hi);
    var k := IndexOf(h.used, h.used[i].start);
    if k != i {
      UsedDisjoint(h, i, k, lo, hi);
    }
    Removed(h.used, i);
  }

  /** An address that was not handed out changes nothing. */
  lemma ReleaseUnknown(h: Heap, start: int)
    requires forall i :: 0 <= i < |h.used| ==> h.used[i].start != start
    ensures Release(h, start) == h
  {
    hide IndexOf;
    var i := IndexOf(h.used, start);
  }

  /** malloc adds exactly the block handed out to the allocated ones. */
  lemma AllocateExactly(h: Heap, r: int)
    ensures Allocate(h, r).1.None? ==> Allocate(h, r).0 == h
    ensures Allocate(h, r).1.Some? ==> Allocate(h, r).0.used == h.used + [Block(Allocate(h, r).1.value, r)]
  {
  }

  ghost predicate Holds(blocks: seq<Block>, x: int) {
    exists i :: 0 <= i < |blocks| && blocks[i].start <= x < End(blocks[i])
  }

  /** In consistent tables every address of the managed range is free exactly if it is not allocated. */
  lemma EveryAddress(h: Heap, lo: int, hi: int, x: int)
    requires Consistent(h, lo, hi) && lo <= x < hi
    ensures Holds(h.free, x) <==> !Holds(h.used, x)
  {
    ConsistentDisjoint(h, lo, hi);
    var l :| Describes(l, h, lo, hi) && Fits(l, h);
    SomeCell(l, lo, x);
    if Holds(UsedOf(l), x) {
      var i :| 0 <= i < |UsedOf(l)| && UsedOf(l)[i].start <= x < End(UsedOf(l)[i]);
      assert UsedOf(l)[i] in multiset(UsedOf(l));
      assert UsedOf(l)[i] in h.used;
    }
  }

  /** A tiling leaves nothing out. */
  lemma {:induction false} SomeCell(l: Layout, lo: int, x: int)
    requires Tiles(l, lo) && lo <= x < lo + Total(l)
    ensures Holds(FreeOf(l), x) || Holds(UsedOf(l), x)
  {
    hide Holds;
    var b := l[0].block;
    HoldsFirst(b, FreeOf(l[1..]), x);
    HoldsFirst(b, UsedOf(l[1..]), x);
    if x >= End(b) {
      SomeCell(l[1..], End(b), x);
    }
    assert [] + FreeOf(l[1..]) == FreeOf(l[1..]) && [] + UsedOf(l[1..]) == UsedOf(l[1..]);
  }

  lemma HoldsFirst(b: Block, s: seq<Block>, x: int)
    ensures b.start <= x < End(b) ==> Holds([b] + s, x)
    ensures Holds(s, x) ==> Holds([b] + s, x)
  {
    assert ([b] + s)[0] == b;
    if i :| 0 <= i < |s| && s[i].start <= x < End(s[i]) {
      assert ([b] + s)[i + 1] == s[i];
    }
  }
}
