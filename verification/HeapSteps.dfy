/** Every allocation and release keeps the tables consistent with a tiling of the managed range. */
module HeapSteps {
  import opened Heap

  /** Replacing a stretch of cells by another of the same start and total size. */
  lemma Replace(a: Layout, m: Layout, b: Layout, m': Layout, lo: int)
    requires Tiles(a + m + b, lo) && Tiles(m', lo + Total(a)) && Total(m') == Total(m)
    ensures Tiles(a + m' + b, lo) && Total(a + m' + b) == Total(a + m + b)
    ensures FreeOf(a + m + b) == FreeOf(a) + FreeOf(m) + FreeOf(b)
    ensures UsedOf(a + m + b) == UsedOf(a) + UsedOf(m) + UsedOf(b)
    ensures FreeOf(a + m' + b) == FreeOf(a) + FreeOf(m') + FreeOf(b)
    ensures UsedOf(a + m' + b) == UsedOf(a) + UsedOf(m') + UsedOf(b)
  {
    hide *;
    Append(a + m, b, lo);
    Append(a, m, lo);
    Append(a + m', b, lo);
    Append(a, m', lo);
  }

  lemma Pair(c: Cell, d: Cell, lo: int)
    ensures Total([c, d]) == c.block.size + d.block.size
    ensures FreeOf([c, d]) == FreeOf([c]) + FreeOf([d])
    ensures UsedOf([c, d]) == UsedOf([c]) + UsedOf([d])
    ensures c.block.start == lo && c.block.size > 0 && d.block.start == End(c.block) && d.block.size > 0 ==> Tiles([c, d], lo)
  {
    assert [c, d] == [c] + [d];
    Append([c], [d], lo);
    Single(c);
    Single(d);
    assert [c][1..] == [] && [d][1..] == [];
  }

  lemma Middle<T>(a: seq<T>, x: T, b: seq<T>)
    ensures multiset(a + [x] + b) == multiset(a + b) + multiset{x}
    ensures multiset(a + b) == multiset(a + [x] + b) - multiset{x}
  {
  }

  lemma Removed<T>(s: seq<T>, i: nat)
    requires i < |s|
    ensures multiset(Without(s, i)) == multiset(s) - multiset{s[i]} && |Without(s, i)| == |s| - 1
  {
    assert s == s[..i] + [s[i]] + s[i + 1..];
    Middle(s[..i], s[i], s[i + 1..]);
  }

  /** Taking r bytes from the front of a free cell. */
  lemma TakeCells(a: Layout, c: Cell, b: Layout, r: int, lo: int) returns (m': Layout)
    requires Tiles(a + [c] + b, lo) && c.block.start == lo + Total(a) && !c.used && 0 < r <= c.block.size
    ensures m' == if c.block.size == r then [Cell(Block(c.block.start, r), true)]
      else [Cell(Block(c.block.start, r), true), Cell(Block(c.block.start + r, c.block.size - r), false)]
    ensures Tiles(a + m' + b, lo) && Total(a + m' + b) == Total(a + [c] + b)
    ensures FreeOf(a + m' + b) ==
      FreeOf(a) + (if c.block.size == r then [] else [Block(c.block.start + r, c.block.size - r)]) + FreeOf(b)
    ensures UsedOf(a + m' + b) == UsedOf(a) + [Block(c.block.start, r)] + UsedOf(b)
    ensures UsedOf(a + [c] + b) == UsedOf(a) + UsedOf(b)
  {
    hide FreeOf, UsedOf, Total, Tiles;
    var taken := Cell(Block(c.block.start, r), true);
    var rest := Cell(Block(c.block.start + r, c.block.size - r), false);
    m' := if c.block.size == r then [taken] else [taken, rest];
    Single(c);
    Single(taken);
    Single(rest);
    Pair(taken, rest, c.block.start);
    Replace(a, [c], b, m', lo);
  }

  lemma Take(l: Layout, k: nat, r: int, lo: int) returns (l': Layout)
    requires k < |l| && Tiles(l, lo) && Apart(l) && !l[k].used && 0 < r <= l[k].block.size
    ensures l' != [] && Tiles(l', lo) && Total(l') == Total(l) && Apart(l')
    ensures var c := l[k].block;
      var rest := if c.size == r then [] else [Block(c.start + r, c.size - r)];
      FreeOf(l) == FreeOf(l[..k]) + [c] + FreeOf(l[k + 1..]) &&
      FreeOf(l') == FreeOf(l[..k]) + rest + FreeOf(l[k + 1..]) &&
      multiset(UsedOf(l')) == multiset(UsedOf(l)) + multiset{Block(c.start, r)}
    ensures l'[|l'| - 1].used ==> l[|l| - 1].used || (k == |l| - 1 && l[k].block.size == r)
  {
    hide FreeOf, UsedOf, Total, Tiles, Apart;
    Split(l, k, lo);
    var a, c, b := l[..k], l[k], l[k + 1..];
    var m' := TakeCells(a, c, b, r, lo);
    l' := a + m' + b;
    AllocateApart(l, k, m');
    Middle(UsedOf(a), Block(c.block.start, r), UsedOf(b));
    assert l'[|l'| - 1] == if b == [] then m'[|m'| - 1] else l[|l| - 1];
  }

  lemma AllocateKeeps(h: Heap, r: int, lo: int, hi: int)
    requires Consistent(h, lo, hi) && r > 0 && |h.used| < ZALLOC_NODES
    ensures Consistent(Allocate(h, r).0, lo, hi)
  {
    hide FreeOf, UsedOf, Total, Tiles, Apart, FirstFit;
    var l: Layout :| Describes(l, h, lo, hi) && Fits(l, h);
    var i := FirstFit(h.free, r);
    if i < |h.free| {
      var k := FindFree(l, i);
      var c := l[k].block;
      var l' := Take(l, k, r, lo);
      var h' := Allocate(h, r).0;
      assert h.free == FreeOf(l[..k]) + [c] + FreeOf(l[k + 1..]);
      assert FreeOf(l[k + 1..]) == h.free[i + 1..];
      assert FreeOf(l') == h'.free;
      assert Describes(l', h', lo, hi);
      assert Fits(l', h');
    }
  }

  lemma AllocateApart(l: Layout, k: nat, m': Layout)
    requires Apart(l) && k < |l| && !l[k].used
    requires m' != [] && m'[0].used && (|m'| == 1 || |m'| == 2)
    ensures Apart(l[..k] + m' + l[k + 1..])
  {
    var l' := l[..k] + m' + l[k + 1..];
    var d := |m'| - 1;
    forall i | 0 < i < |l'| ensures l'[i - 1].used || l'[i].used {
      if i < k {
        assert l'[i - 1] == l[i - 1] && l'[i] == l[i];
      } else if i <= k + d {
        assert l'[k] == m'[0];
      } else {
        assert l'[i] == l[i - d] && (l[i - d - 1].used || l[i - d].used);
        if i == k + d + 1 {
          assert l[k + 1].used;
        } else {
          assert l'[i - 1] == l[i - d - 1];
        }
      }
    }
  }

  /** The free blocks before an address, seen from the cells before it. */
  lemma LastFree(a: Layout, lo: int)
    requires Tiles(a, lo)
    ensures forall x :: x in FreeOf(a) ==> x.start < lo + Total(a)
    ensures a != [] && !a[|a| - 1].used ==>
      FreeOf(a) == FreeOf(a[..|a| - 1]) + [a[|a| - 1].block] && End(a[|a| - 1].block) == lo + Total(a)
    ensures a == [] || a[|a| - 1].used ==> forall x :: x in FreeOf(a) ==> End(x) < lo + Total(a)
  {
    forall x | x in FreeOf(a) ensures x.start < lo + Total(a) {
      Within(a, lo, x);
    }
    if a != [] {
      var k := |a| - 1;
      Split(a, k, lo);
      assert a[k + 1..] == [];
      if a[k].used {
        forall x | x in FreeOf(a) ensures End(x) < lo + Total(a) {
          Within(a[..k], lo, x);
        }
      }
    }
  }

  lemma FirstFree(b: Layout, lo: int)
    requires Tiles(b, lo)
    ensures forall x :: x in FreeOf(b) ==> x.start >= lo
    ensures b != [] && !b[0].used ==> FreeOf(b) == [b[0].block] + FreeOf(b[1..]) && b[0].block.start == lo
    ensures b == [] || b[0].used ==> forall x :: x in FreeOf(b) ==> x.start > lo
  {
    forall x | x in FreeOf(b) ensures x.start >= lo {
      Within(b, lo, x);
    }
    if b != [] && b[0].used {
      forall x | x in FreeOf(b) ensures x.start > lo {
        Within(b[1..], End(b[0].block), x);
      }
    }
  }

  /** The insertion point found in the free table is the one in the layout. */
  lemma BeforeIs(fa: seq<Block>, fb: seq<Block>, start: int)
    requires forall x :: x in fa ==> x.start < start
    requires forall x :: x in fb ==> x.start > start
    ensures Before(fa + fb, start) == |fa|
  {
    var i := Before(fa + fb, start);
    assert forall k :: 0 <= k < |fa| ==> (fa + fb)[k] == fa[k] && fa[k] in fa;
    assert fb != [] ==> (fa + fb)[|fa|] == fb[0] && fb[0] in fb;
  }

  /** Insert, on a free table split at the insertion point. */
  lemma InsertBetween(fa: seq<Block>, fb: seq<Block>, u: Block)
    requires forall x :: x in fa ==> x.start < u.start
    requires forall x :: x in fb ==> x.start > u.start
    ensures var left := fa != [] && End(fa[|fa| - 1]) == u.start;
      var right := fb != [] && fb[0].start == End(u);
      Insert(fa + fb, u) ==
        (if left then fa[..|fa| - 1] else fa) +
        [Block(if left then fa[|fa| - 1].start else u.start,
               u.size + (if left then fa[|fa| - 1].size else 0) + (if right then fb[0].size else 0))] +
        (if right then fb[1..] else fb)
  {
    BeforeIs(fa, fb, u.start);
    hide Before;
    Pieces(fa, fb);
    var f := fa + fb;
    assert TouchesLeft(f, |fa|, u) <==> fa != [] && End(fa[|fa| - 1]) == u.start;
    assert TouchesRight(f, |fa|, u) <==> fb != [] && fb[0].start == End(u);
    hide TouchesLeft, TouchesRight;
  }

  lemma Pieces<T>(a: seq<T>, b: seq<T>)
    ensures (a + b)[..|a|] == a && (a + b)[|a|..] == b
    ensures a != [] ==> (a + b)[|a| - 1] == a[|a| - 1] && (a + b)[..|a| - 1] == a[..|a| - 1]
    ensures b != [] ==> (a + b)[|a|] == b[0] && (a + b)[|a| + 1..] == b[1..]
  {
  }

  /** At most one cell, and that free. */
  predicate OneFree(l: Layout) {
    l == [] || (|l| == 1 && !l[0].used)
  }

  lemma OneFreeSums(l: Layout, lo: int)
    requires OneFree(l) && Tiles(l, lo)
    ensures Total(l) == if l == [] then 0 else l[0].block.size
    ensures FreeOf(l) == if l == [] then [] else [l[0].block]
    ensures UsedOf(l) == []
    ensures l != [] ==> l[0].block.start == lo
    ensures Total(l) >= 0
  {
    if l != [] {
      assert l == [l[0]];
      Single(l[0]);
    }
  }

  /** A used cell and the free cells around it become one free cell. */
  lemma MergeStretch(a0: Layout, before: Layout, u: Cell, after: Layout, b0: Layout, lo: int) returns (l': Layout, merged: Block)
    requires Tiles(a0 + before + [u] + after + b0, lo) && u.used && OneFree(before) && OneFree(after)
    ensures merged == Block(if before == [] then u.block.start else before[0].block.start,
      u.block.size + (if before == [] then 0 else before[0].block.size) + (if after == [] then 0 else after[0].block.size))
    ensures l' == a0 + [Cell(merged, false)] + b0
    ensures Tiles(l', lo) && Total(l') == Total(a0 + before + [u] + after + b0)
    ensures FreeOf(l') == FreeOf(a0) + [merged] + FreeOf(b0)
    ensures UsedOf(l') == UsedOf(a0) + UsedOf(b0)
  {
    hide FreeOf, UsedOf, Total, Tiles;
    var m := before + [u] + after;
    assert a0 + before + [u] + after + b0 == a0 + m + b0;
    Append(a0 + m, b0, lo);
    Append(a0, m, lo);
    var mid := lo + Total(a0);
    Append(before + [u], after, mid);
    Append(before, [u], mid);
    OneFreeSums(before, mid);
    StartOf([u], mid + Total(before));
    Single(u);
    OneFreeSums(after, End(u.block));
    merged := Block(mid, Total(before) + u.block.size + Total(after));
    Single(Cell(merged, false));
    Replace(a0, m, b0, [Cell(merged, false)], lo);
    l' := a0 + [Cell(merged, false)] + b0;
  }

  /** Freeing one used cell and merging it with its free neighbours: the cells. */
  lemma MergeCells(a: Layout, u: Cell, b: Layout, lo: int) returns (l': Layout, a0: Layout, b0: Layout, merged: Block)
    requires Tiles(a + [u] + b, lo) && u.used
    ensures var left := a != [] && !a[|a| - 1].used;
      var right := b != [] && !b[0].used;
      a0 == (if left then a[..|a| - 1] else a) && b0 == (if right then b[1..] else b) &&
      merged == Block(if left then a[|a| - 1].block.start else u.block.start,
                      u.block.size + (if left then a[|a| - 1].block.size else 0) + (if right then b[0].block.size else 0)) &&
      FreeOf(a) == FreeOf(a0) + (if left then [a[|a| - 1].block] else []) &&
      FreeOf(b) == (if right then [b[0].block] else []) + FreeOf(b0)
    ensures l' == a0 + [Cell(merged, false)] + b0
    ensures Tiles(l', lo) && Total(l') == Total(a + [u] + b)
    ensures FreeOf(l') == FreeOf(a0) + [merged] + FreeOf(b0)
    ensures UsedOf(l') == UsedOf(a) + UsedOf(b)
  {
    hide FreeOf, UsedOf, Total, Tiles;
    var left := a != [] && !a[|a| - 1].used;
    var right := b != [] && !b[0].used;
    a0 := if left then a[..|a| - 1] else a;
    b0 := if right then b[1..] else b;
    var before := if left then [a[|a| - 1]] else [];
    var after := if right then [b[0]] else [];
    assert a == a0 + before && b == after + b0;
    assert a + [u] + b == a0 + before + [u] + after + b0;
    l', merged := MergeStretch(a0, before, u, after, b0, lo);
    Append(a0, before, lo);
    Append(after, b0, lo);
    EmptySums();
    if left { Single(a[|a| - 1]); }
    if right { Single(b[0]); }
  }

  lemma EmptySums()
    ensures FreeOf([]) == [] && UsedOf([]) == [] && Total([]) == 0
  {
  }

  lemma PickTiles(a: Layout, u: Cell, b: Layout, lo: int) returns (start: int)
    requires Tiles(a + [u] + b, lo)
    ensures Tiles(a, lo) && Tiles(b, End(u.block)) && start == u.block.start == lo + Total(a) && u.block.size > 0
  {
    hide FreeOf, UsedOf, Total, Tiles;
    start := lo + Total(a);
    assert a + [u] + b == a + ([u] + b);
    Append(a, [u] + b, lo);
    StartOf([u] + b, start);
    Append([u], b, start);
    Single(u);
  }

  lemma MergeParts(a: Layout, u: Cell, b: Layout, lo: int) returns (l': Layout, merged: Block)
    requires Tiles(a + [u] + b, lo) && u.used
    ensures Tiles(l', lo) && Total(l') == Total(a + [u] + b)
    ensures FreeOf(l') == Insert(FreeOf(a) + FreeOf(b), u.block)
    ensures UsedOf(l') == UsedOf(a) + UsedOf(b)
    ensures l' == (if a != [] && !a[|a| - 1].used then a[..|a| - 1] else a)
      + [Cell(merged, false)] + (if b != [] && !b[0].used then b[1..] else b)
  {
    hide FreeOf, UsedOf, Total, Tiles, Insert;
    var start := PickTiles(a, u, b, lo);
    LastFree(a, lo);
    FirstFree(b, End(u.block));
    var a0, b0;
    l', a0, b0, merged := MergeCells(a, u, b, lo);
    InsertBetween(FreeOf(a), FreeOf(b), u.block);
    MergeTables(a, a0, b, b0, u.block);
  }

  lemma Merge(l: Layout, k: nat, lo: int) returns (l': Layout)
    requires k < |l| && Tiles(l, lo) && Apart(l) && l[k].used
    ensures l' != [] && Tiles(l', lo) && Total(l') == Total(l) && Apart(l')
    ensures FreeOf(l') == Insert(FreeOf(l), l[k].block)
    ensures UsedOf(l) == UsedOf(l[..k]) + [l[k].block] + UsedOf(l[k + 1..])
    ensures UsedOf(l') == UsedOf(l[..k]) + UsedOf(l[k + 1..])
    ensures l'[|l'| - 1].used ==> l[|l| - 1].used
  {
    hide FreeOf, UsedOf, Total, Tiles, Apart, Insert;
    Split(l, k, lo);
    assert FreeOf(l) == FreeOf(l[..k]) + FreeOf(l[k + 1..]);
    var merged;
    l', merged := MergeParts(l[..k], l[k], l[k + 1..], lo);
    ApartAround(l, k);
    MergeApart(l, k, k > 0 && !l[k - 1].used, k + 1 < |l| && !l[k + 1].used, Cell(merged, false));
  }

  lemma ApartAround(l: Layout, k: nat)
    requires k < |l|
    ensures l[..k] != [] ==> l[..k][k - 1] == l[k - 1]
    ensures l[k + 1..] != [] ==> l[k + 1..][0] == l[k + 1]
    ensures k > 0 ==> l[..k][..k - 1] == l[..k - 1]
    ensures k + 1 < |l| ==> l[k + 1..][1..] == l[k + 2..]
  {
  }

  /** The neighbours that merge are the ones the free table shows next to the insertion point. */
  lemma MergeTables(a: Layout, a0: Layout, b: Layout, b0: Layout, u: Block)
    requires a != [] && !a[|a| - 1].used ==>
      FreeOf(a) == FreeOf(a0) + [a[|a| - 1].block] && End(a[|a| - 1].block) == u.start
    requires a == [] || a[|a| - 1].used ==> a0 == a && forall x :: x in FreeOf(a) ==> End(x) < u.start
    requires b != [] && !b[0].used ==> FreeOf(b) == [b[0].block] + FreeOf(b0) && b[0].block.start == End(u)
    requires b == [] || b[0].used ==> b0 == b && forall x :: x in FreeOf(b) ==> x.start > End(u)
    ensures var fa, fb := FreeOf(a), FreeOf(b);
      (a != [] && !a[|a| - 1].used <==> fa != [] && End(fa[|fa| - 1]) == u.start) &&
      (b != [] && !b[0].used <==> fb != [] && fb[0].start == End(u)) &&
      (a != [] && !a[|a| - 1].used ==> fa[|fa| - 1] == a[|a| - 1].block && fa[..|fa| - 1] == FreeOf(a0)) &&
      (b != [] && !b[0].used ==> fb[0] == b[0].block && fb[1..] == FreeOf(b0))
  {
    hide FreeOf;
    var fa, fb := FreeOf(a), FreeOf(b);
    assert fa != [] ==> fa[|fa| - 1] in fa;
    assert fb != [] ==> fb[0] in fb;
  }

  lemma MergeApart(l: Layout, k: nat, left: bool, right: bool, c: Cell)
    requires k < |l| && Apart(l) && l[k].used
    requires left <==> k > 0 && !l[k - 1].used
    requires right <==> k + 1 < |l| && !l[k + 1].used
    ensures Apart(l[..if left then k - 1 else k] + [c] + l[if right then k + 2 else k + 1..])
  {
    var p := if left then k - 1 else k;
    var q := if right then k + 2 else k + 1;
    var l' := l[..p] + [c] + l[q..];
    forall i | 0 < i < |l'| ensures l'[i - 1].used || l'[i].used {
      if i < p {
        assert l'[i - 1] == l[i - 1] && l'[i] == l[i];
      } else if i == p {
        assert l'[p - 1] == l[p - 1];
      } else if i == p + 1 {
        assert l'[i] == l[q];
      } else {
        assert l'[i] == l[i - p - 1 + q] && l'[i - 1] == l[i - p - 2 + q];
      }
    }
  }

  lemma MemberOf<T>(s: seq<T>, i: nat, t: seq<T>)
    requires i < |s| && multiset(s) == multiset(t)
    ensures s[i] in t
  {
    assert s[i] in multiset(s);
  }

  lemma RemoveSame<T>(s: seq<T>, i: nat, a: seq<T>, b: seq<T>)
    requires i < |s| && multiset(a + [s[i]] + b) == multiset(s)
    ensures multiset(a + b) == multiset(Without(s, i)) && |a + b| == |s| - 1
  {
    Removed(s, i);
    Middle(a, s[i], b);
    MultisetSize(a + [s[i]] + b, s);
  }

  lemma ReleaseKeeps(h: Heap, start: int, lo: int, hi: int)
    requires Consistent(h, lo, hi)
    ensures Consistent(Release(h, start), lo, hi)
  {
    hide FreeOf, UsedOf, Total, Tiles, Apart, Insert, IndexOf;
    var l: Layout :| Describes(l, h, lo, hi) && Fits(l, h);
    var i := IndexOf(h.used, start);
    if i < |h.used| {
      MemberOf(h.used, i, UsedOf(l));
      var k := FindUsed(l, h.used[i]);
      var l' := Merge(l, k, lo);
      RemoveSame(h.used, i, UsedOf(l[..k]), UsedOf(l[k + 1..]));
      CountBound(l');
      assert Describes(l', Release(h, start), lo, hi);
      assert Fits(l', Release(h, start));
    }
  }

  lemma MultisetSize<T>(a: seq<T>, b: seq<T>)
    requires multiset(a) == multiset(b)
    ensures |a| == |b|
  {
    assert |multiset(a)| == |a| && |multiset(b)| == |b|;
  }

  /** The blocks come in order of address, and none touches the next. */
  ghost predicate Separate(free: seq<Block>) {
    forall i, j :: 0 <= i < j < |free| ==> End(free[i]) < free[j].start
  }

  /** The blocks lie in [lo, hi) and are not empty. */
  ghost predicate InRange(blocks: seq<Block>, lo: int, hi: int) {
    forall i :: 0 <= i < |blocks| ==> lo <= blocks[i].start && blocks[i].size > 0 && End(blocks[i]) <= hi
  }

  /** What a consistent pair of tables promises. */
  lemma ConsistentBounds(h: Heap, lo: int, hi: int)
    requires Consistent(h, lo, hi)
    ensures |h.free| <= |h.used| + 1 && |h.free| <= ZALLOC_NODES && |h.used| <= ZALLOC_NODES
    ensures Separate(h.free) && InRange(h.free, lo, hi) && InRange(h.used, lo, hi)
  {
    hide FreeOf, UsedOf, Total, Tiles, Apart;
    var l: Layout :| Describes(l, h, lo, hi) && Fits(l, h);
    CountBound(l);
    MultisetSize(UsedOf(l), h.used);
    FreeApart(l, lo);
    forall i | 0 <= i < |h.free| ensures lo <= h.free[i].start && h.free[i].size > 0 && End(h.free[i]) <= hi {
      assert h.free[i] in FreeOf(l);
      Within(l, lo, h.free[i]);
    }
    forall i | 0 <= i < |h.used| ensures lo <= h.used[i].start && h.used[i].size > 0 && End(h.used[i]) <= hi {
      MemberOf(h.used, i, UsedOf(l));
      Within(l, lo, h.used[i]);
    }
  }

  /** No free block touches the next one. */
  lemma {:induction false} FreeApart(l: Layout, lo: int)
    requires Tiles(l, lo) && Apart(l)
    ensures Separate(FreeOf(l))
    decreases |l|
  {
    if l != [] {
      var rest := l[1..];
      assert Apart(rest) by {
        forall i | 0 < i < |rest| ensures rest[i - 1].used || rest[i].used {
          assert rest[i] == l[i + 1] && rest[i - 1] == l[i];
        }
      }
      FreeApart(rest, End(l[0].block));
      FirstFree(rest, End(l[0].block));
      assert FreeOf(l) == (if l[0].used then [] else [l[0].block]) + FreeOf(rest);
      assert rest != [] ==> rest[0] == l[1];
      hide FreeOf, Tiles;
      if !l[0].used {
        assert forall j :: 0 <= j < |FreeOf(rest)| ==> FreeOf(rest)[j] in FreeOf(rest);
      }
    }
  }

  /** A used block of another cell is disjoint from the cell. */
  lemma OtherCell(l: Layout, k: nat, lo: int, c: Block)
    requires k < |l| && Tiles(l, lo)
    requires c in UsedOf(l[..k]) + UsedOf(l[k + 1..])
    ensures End(c) <= l[k].block.start || End(l[k].block) <= c.start
  {
    hide FreeOf, UsedOf, Total, Tiles;
    Split(l, k, lo);
    if c in UsedOf(l[..k]) {
      Within(l[..k], lo, c);
    } else {
      Within(l[k + 1..], End(l[k].block), c);
    }
  }

  lemma OtherMember<T>(s: seq<T>, i: nat, j: nat, a: seq<T>, b: seq<T>)
    requires i < |s| && j < |s| && i != j && multiset(a + [s[i]] + b) == multiset(s)
    ensures s[j] in a + b
  {
    RemoveSame(s, i, a, b);
    var j' := if j < i then j else j - 1;
    assert Without(s, i)[j'] == s[j];
    MemberOf(Without(s, i), j', a + b);
  }

  /** Any two blocks of the tables are disjoint. */
  lemma UsedDisjoint(h: Heap, i: nat, j: nat, lo: int, hi: int)
    requires Consistent(h, lo, hi) && i < |h.used| && j < |h.used| && i != j
    ensures End(h.used[i]) <= h.used[j].start || End(h.used[j]) <= h.used[i].start
  {
    hide FreeOf, UsedOf, Total, Tiles, Apart;
    var l: Layout :| Describes(l, h, lo, hi) && Fits(l, h);
    MemberOf(h.used, i, UsedOf(l));
    var k := FindUsed(l, h.used[i]);
    Split(l, k, lo);
    OtherMember(h.used, i, j, UsedOf(l[..k]), UsedOf(l[k + 1..]));
    OtherCell(l, k, lo, h.used[j]);
  }

  lemma FreeUsedDisjoint(h: Heap, i: nat, j: nat, lo: int, hi: int)
    requires Consistent(h, lo, hi) && i < |h.free| && j < |h.used|
    ensures End(h.free[i]) <= h.used[j].start || End(h.used[j]) <= h.free[i].start
  {
    hide FreeOf, UsedOf, Total, Tiles, Apart;
    var l: Layout :| Describes(l, h, lo, hi) && Fits(l, h);
    var k := FindFree(l, i);
    Split(l, k, lo);
    MemberOf(h.used, j, UsedOf(l));
    assert UsedOf(l) == UsedOf(l[..k]) + UsedOf(l[k + 1..]);
    OtherCell(l, k, lo, h.used[j]);
  }
}
