/** The boot loader's allocator as a pair of tables, and the layout of memory they describe. */
module Heap {
  import opened Options

  /** zmem */
  datatype Block = Block(start: int, size: int)

  const ZALLOC_NODES := 384

  function End(b: Block): int {
    b.start + b.size
  }

  /** The two tables in use: zavailable[..availableNodes] and zalloced[..allocedNodes]. */
  datatype Heap = Heap(free: seq<Block>, used: seq<Block>)

  /** (size + 0xf) & ~0xf on a 32-bit unsigned size. */
  function RoundUp(size: nat): nat {
    ((size + 15) % 0x1_0000_0000) / 16 * 16
  }

  function Without<T>(s: seq<T>, i: nat): seq<T>
    requires i < |s|
  {
    s[..i] + s[i + 1..]
  }

  /** The first block of at least r bytes. */
  function FirstFit(free: seq<Block>, r: int): (i: nat)
    ensures i <= |free|
    ensures forall k :: 0 <= k < i ==> free[k].size < r
    ensures i < |free| ==> free[i].size >= r
  {
    if free == [] || free[0].size >= r then 0 else 1 + FirstFit(free[1..], r)
  }

  /** Takes r bytes from the start of the first block that has them. */
  function Allocate(h: Heap, r: int): (Heap, Option<int>) {
    var i := FirstFit(h.free, r);
    if i == |h.free| then (h, None)
    else
      var b := h.free[i];
      var free := if b.size == r then Without(h.free, i) else h.free[i := Block(b.start + r, b.size - r)];
      (Heap(free, h.used + [Block(b.start, r)]), Some(b.start))
  }

  function IndexOf(used: seq<Block>, start: int): (i: nat)
    ensures i <= |used|
    ensures forall k :: 0 <= k < i ==> used[k].start != start
    ensures i < |used| ==> used[i].start == start
  {
    if used == [] || used[0].start == start then 0 else 1 + IndexOf(used[1..], start)
  }

  /** The number of blocks at the front that start before the address. */
  function Before(free: seq<Block>, start: int): (i: nat)
    ensures i <= |free|
    ensures forall k :: 0 <= k < i ==> free[k].start < start
    ensures i < |free| ==> free[i].start >= start
  {
    if free == [] || free[0].start >= start then 0 else 1 + Before(free[1..], start)
  }

  /** The blocks from..to replaced by one block. */
  function Splice(free: seq<Block>, from: nat, to: nat, b: Block): seq<Block>
    requires from <= to <= |free|
  {
    free[..from] + [b] + free[to..]
  }

  predicate TouchesLeft(free: seq<Block>, i: nat, b: Block)
    requires i <= |free|
  {
    i > 0 && End(free[i - 1]) == b.start
  }

  predicate TouchesRight(free: seq<Block>, i: nat, b: Block)
    requires i <= |free|
  {
    i < |free| && free[i].start == End(b)
  }

  /** A block put at index i, merged with the neighbours it touches. */
  function InsertAt(free: seq<Block>, i: nat, b: Block): seq<Block>
    requires i <= |free|
  {
    var left, right := TouchesLeft(free, i, b), TouchesRight(free, i, b);
    Splice(free, if left then i - 1 else i, if right then i + 1 else i,
           Block(if left then free[i - 1].start else b.start,
                 (if left then free[i - 1].size else 0) + b.size + (if right then free[i].size else 0)))
  }

  /** Puts a block in its place in order of address. */
  function Insert(free: seq<Block>, b: Block): seq<Block> {
    InsertAt(free, Before(free, b.start), b)
  }

  /** Gives back the block that starts at the address, if there is one. */
  function Release(h: Heap, start: int): Heap {
    var i := IndexOf(h.used, start);
    if i == |h.used| then h else Heap(Insert(h.free, h.used[i]), Without(h.used, i))
  }

  /** A piece of the managed range. */
  datatype Cell = Cell(block: Block, used: bool)

  type Layout = seq<Cell>

  /** The cells follow each other without gap or overlap, starting at lo. */
  ghost predicate Tiles(l: Layout, lo: int) {
    l != [] ==> l[0].block.start == lo && l[0].block.size > 0 && Tiles(l[1..], End(l[0].block))
  }

  ghost function Total(l: Layout): int {
    if l == [] then 0 else l[0].block.size + Total(l[1..])
  }

  ghost function FreeOf(l: Layout): seq<Block> {
    if l == [] then [] else (if l[0].used then [] else [l[0].block]) + FreeOf(l[1..])
  }

  ghost function UsedOf(l: Layout): seq<Block> {
    if l == [] then [] else (if l[0].used then [l[0].block] else []) + UsedOf(l[1..])
  }

  /** No two free cells next to each other. */
  ghost predicate Apart(l: Layout) {
    forall i :: 0 < i < |l| ==> l[i - 1].used || l[i].used
  }

  /** The layout the tables describe: it tiles [lo, hi), its free cells are the free table in
      order of address, its used cells are the allocated table in some order. */
  ghost predicate Describes(l: Layout, h: Heap, lo: int, hi: int) {
    && l != [] && Tiles(l, lo) && lo + Total(l) == hi && Apart(l)
    && FreeOf(l) == h.free
    && multiset(UsedOf(l)) == multiset(h.used)
  }

  /** Room in the tables. A free block appended behind the last one is first written one entry
      further, so there must be room for it whenever the range does not end with a free block. */
  ghost predicate Fits(l: Layout, h: Heap)
    requires l != []
  {
    && |h.used| <= ZALLOC_NODES
    && |h.free| <= ZALLOC_NODES
    && (l[|l| - 1].used ==> |h.free| < ZALLOC_NODES)
  }

  ghost predicate Consistent(h: Heap, lo: int, hi: int) {
    exists l: Layout :: Describes(l, h, lo, hi) && Fits(l, h)
  }

  // ----- Layouts in pieces

  lemma {:induction false} AppendTotal(a: Layout, b: Layout)
    ensures Total(a + b) == Total(a) + Total(b)
  {
    if a == [] {
      assert a + b == b;
    } else {
      assert (a + b)[1..] == a[1..] + b && (a + b)[0] == a[0];
      AppendTotal(a[1..], b);
    }
  }

  lemma {:induction false} AppendFree(a: Layout, b: Layout)
    ensures FreeOf(a + b) == FreeOf(a) + FreeOf(b)
  {
    if a == [] {
      assert a + b == b;
    } else {
      assert (a + b)[1..] == a[1..] + b && (a + b)[0] == a[0];
      AppendFree(a[1..], b);
    }
  }

  lemma {:induction false} AppendUsed(a: Layout, b: Layout)
    ensures UsedOf(a + b) == UsedOf(a) + UsedOf(b)
  {
    if a == [] {
      assert a + b == b;
    } else {
      assert (a + b)[1..] == a[1..] + b && (a + b)[0] == a[0];
      AppendUsed(a[1..], b);
    }
  }

  lemma {:induction false} AppendTiles(a: Layout, b: Layout, lo: int)
    ensures Tiles(a + b, lo) <==> Tiles(a, lo) && Tiles(b, lo + Total(a))
  {
    if a == [] {
      assert a + b == b;
    } else {
      assert (a + b)[1..] == a[1..] + b && (a + b)[0] == a[0];
      AppendTiles(a[1..], b, End(a[0].block));
    }
  }

  lemma Append(a: Layout, b: Layout, lo: int)
    ensures Tiles(a + b, lo) <==> Tiles(a, lo) && Tiles(b, lo + Total(a))
    ensures Total(a + b) == Total(a) + Total(b)
    ensures FreeOf(a + b) == FreeOf(a) + FreeOf(b)
    ensures UsedOf(a + b) == UsedOf(a) + UsedOf(b)
  {
    AppendTotal(a, b);
    AppendFree(a, b);
    AppendUsed(a, b);
    AppendTiles(a, b, lo);
  }

  lemma Single(c: Cell)
    ensures Total([c]) == c.block.size
    ensures FreeOf([c]) == if c.used then [] else [c.block]
    ensures UsedOf([c]) == if c.used then [c.block] else []
    ensures c.block.size > 0 ==> Tiles([c], c.block.start)
  {
    assert [c][1..] == [];
  }

  /** A layout with one cell picked out. */
  lemma Split(l: Layout, k: nat, lo: int)
    requires k < |l| && Tiles(l, lo)
    ensures l == l[..k] + [l[k]] + l[k + 1..]
    ensures Tiles(l[..k], lo) && lo + Total(l[..k]) == l[k].block.start && l[k].block.size > 0
    ensures Tiles(l[k + 1..], End(l[k].block))
    ensures Total(l) == Total(l[..k]) + l[k].block.size + Total(l[k + 1..])
    ensures FreeOf(l) == FreeOf(l[..k]) + (if l[k].used then [] else [l[k].block]) + FreeOf(l[k + 1..])
    ensures UsedOf(l) == UsedOf(l[..k]) + (if l[k].used then [l[k].block] else []) + UsedOf(l[k + 1..])
  {
    hide FreeOf, UsedOf, Total, Tiles;
    var rest := [l[k]] + l[k + 1..];
    assert l == l[..k] + rest;
    Append(l[..k], rest, lo);
    StartOf(rest, lo + Total(l[..k]));
    Append([l[k]], l[k + 1..], l[k].block.start);
    Single(l[k]);
  }

  lemma StartOf(l: Layout, lo: int)
    requires Tiles(l, lo) && l != []
    ensures l[0].block.start == lo && l[0].block.size > 0
  {
  }

  /** The free cells of a layout, its first cell apart. */
  lemma FreeStep(l: Layout, k: nat)
    requires 0 < k <= |l|
    ensures FreeOf(l[..k]) == (if l[0].used then [] else [l[0].block]) + FreeOf(l[1..][..k - 1])
  {
    assert l[..k][1..] == l[1..][..k - 1];
  }

  /** The i-th free block is some cell. */
  lemma {:induction false} FindFree(l: Layout, i: nat) returns (k: nat)
    requires i < |FreeOf(l)|
    ensures k < |l| && !l[k].used && l[k].block == FreeOf(l)[i]
    ensures FreeOf(l[..k]) == FreeOf(l)[..i]
    decreases |l|
  {
    assert FreeOf([]) == [];
    var first := if l[0].used then [] else [l[0].block];
    assert FreeOf(l) == first + FreeOf(l[1..]);
    if !l[0].used && i == 0 {
      k := 0;
    } else {
      hide FreeOf;
      var k' := FindFree(l[1..], i - |first|);
      k := k' + 1;
      FreeStep(l, k);
    }
  }

  lemma {:induction false} FindUsed(l: Layout, b: Block) returns (k: nat)
    requires b in UsedOf(l)
    ensures k < |l| && l[k].used && l[k].block == b
  {
    if l[0].used && l[0].block == b {
      k := 0;
    } else {
      var k' := FindUsed(l[1..], b);
      k := k' + 1;
    }
  }

  /** Every block lies within the range its layout tiles, with a positive size. */
  lemma {:induction false} Within(l: Layout, lo: int, b: Block)
    requires Tiles(l, lo)
    requires b in FreeOf(l) || b in UsedOf(l)
    ensures lo <= b.start && b.size > 0 && End(b) <= lo + Total(l)
  {
    TotalPositive(l[1..], End(l[0].block));
    if b != l[0].block {
      Within(l[1..], End(l[0].block), b);
    }
  }

  lemma {:induction false} TotalPositive(l: Layout, lo: int)
    requires Tiles(l, lo)
    ensures Total(l) >= 0 && (l != [] ==> Total(l) > 0)
  {
    if l != [] {
      TotalPositive(l[1..], End(l[0].block));
    }
  }

  /** The free blocks come in order of address. */
  lemma {:induction false} FreeSorted(l: Layout, lo: int)
    requires Tiles(l, lo)
    ensures forall i, j :: 0 <= i < j < |FreeOf(l)| ==> End(FreeOf(l)[i]) <= FreeOf(l)[j].start
  {
    if l != [] {
      var rest := FreeOf(l[1..]);
      FreeSorted(l[1..], End(l[0].block));
      forall b | b in rest ensures End(l[0].block) <= b.start {
        Within(l[1..], End(l[0].block), b);
      }
      if !l[0].used {
        assert FreeOf(l) == [l[0].block] + rest;
        assert forall j :: 0 <= j < |rest| ==> rest[j] in rest;
      }
    }
  }

  /** Between two free cells there is a used one. */
  lemma {:induction false} CountBound(l: Layout)
    requires Apart(l)
    ensures |FreeOf(l)| <= |UsedOf(l)| + 1
    ensures l == [] || l[0].used || l[|l| - 1].used ==> |FreeOf(l)| <= |UsedOf(l)|
    ensures l != [] && l[0].used && l[|l| - 1].used ==> |FreeOf(l)| < |UsedOf(l)|
  {
    if l != [] {
      var rest := l[1..];
      assert Apart(rest) by {
        forall i | 0 < i < |rest| ensures rest[i - 1].used || rest[i].used {
          assert rest[i] == l[i + 1];
        }
      }
      CountBound(rest);
      if rest != [] {
        assert rest[0] == l[1] && rest[|rest| - 1] == l[|l| - 1];
      }
    }
  }
}
