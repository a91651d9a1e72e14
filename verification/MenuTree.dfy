/** The menu entries of config/kconfig/menu.c, linked by next, list and parent, and the forest they stand for. */
module MenuTree {
  import opened Sequences

  /** struct menu: the links, whether the entry has a symbol, and whether it has a prompt text. */
  class Menu {
    var next: Menu?
    var list: Menu?
    var parent: Menu?
    const symbol: bool
    const titled: bool

    constructor (symbol: bool, titled: bool, parent: Menu?)
      ensures next == null && list == null && this.parent == parent
      ensures this.symbol == symbol && this.titled == titled
    {
      next, list := null, null;
      this.parent := parent;
      this.symbol, this.titled := symbol, titled;
    }
  }

  /** A list of entries, each with the entries below it. */
  datatype Forest = Nil | Cons(node: Menu, kids: Forest, rest: Forest)

  /** The order in which entries are declared: an entry, what is below it, what follows it. */
  ghost function Pre(f: Forest): seq<Menu> {
    match f
    case Nil => []
    case Cons(n, k, r) => [n] + Pre(k) + Pre(r)
  }

  ghost function Nodes(f: Forest): set<Menu> {
    set m | m in Pre(f)
  }

  ghost function Append(f: Forest, g: Forest): Forest {
    match f
    case Nil => g
    case Cons(n, k, r) => Cons(n, k, Append(r, g))
  }

  /** The links from head on spell out f up to tail, and every entry of the list has parent up. */
  ghost predicate Linked(f: Forest, head: Menu?, up: Menu?, tail: Menu?)
    reads Nodes(f)
  {
    match f
    case Nil => head == tail
    case Cons(n, k, r) => head == n && n.parent == up && Linked(k, n.list, n, null) && Linked(r, n.next, up, tail)
  }

  lemma {:induction false} PreAppend(f: Forest, g: Forest)
    ensures Pre(Append(f, g)) == Pre(f) + Pre(g)
  {
    match f
    case Nil => assert [] + Pre(g) == Pre(g);
    case Cons(n, k, r) =>
      PreAppend(r, g);
      Associates([n] + Pre(k), Pre(r), Pre(g));
  }

  lemma NodesAppend(f: Forest, g: Forest)
    ensures Nodes(Append(f, g)) == Nodes(f) + Nodes(g)
  {
    hide Append, Pre;
    PreAppend(f, g);
  }

  lemma AppendNil(f: Forest)
    ensures Append(f, Nil) == f && Append(Nil, f) == f
  {
  }

  lemma AppendAssoc(f: Forest, g: Forest, h: Forest)
    ensures Append(Append(f, g), h) == Append(f, Append(g, h))
  {
  }

  lemma LinkedAppend(f: Forest, g: Forest, head: Menu?, up: Menu?, mid: Menu?, tail: Menu?)
    requires Linked(f, head, up, mid) && Linked(g, mid, up, tail)
    ensures Linked(Append(f, g), head, up, tail)
  {
  }

  lemma DistinctParts(s: seq<Menu>, t: seq<Menu>)
    requires Distinct(s + t)
    ensures Distinct(s) && Distinct(t)
    ensures forall m :: !(m in s && m in t)
  {
    forall i, j | 0 <= i < j < |s| ensures s[i] != s[j] {
      assert (s + t)[i] == s[i] && (s + t)[j] == s[j];
    }
    forall i, j | 0 <= i < j < |t| ensures t[i] != t[j] {
      assert (s + t)[|s| + i] == t[i] && (s + t)[|s| + j] == t[j];
    }
    forall i, j | 0 <= i < |s| && 0 <= j < |t| ensures s[i] != t[j] {
      assert (s + t)[i] == s[i] && (s + t)[|s| + j] == t[j];
    }
  }

  lemma DistinctThree(n: Menu, s: seq<Menu>, t: seq<Menu>)
    requires Distinct([n] + s + t)
    ensures n !in s && n !in t && Distinct(s) && Distinct(t) && Distinct(s + t)
    ensures forall m :: !(m in s && m in t)
  {
    hide Distinct;
    Associates([n], s, t);
    DistinctParts([n], s + t);
    DistinctParts(s, t);
    assert n in [n];
  }

  /** Distinct entries: the parts of a forest do not overlap. */
  lemma DistinctForest(n: Menu, k: Forest, r: Forest)
    requires Distinct(Pre(Cons(n, k, r)))
    ensures n !in Nodes(k) && n !in Nodes(r) && Nodes(k) !! Nodes(r)
    ensures Distinct(Pre(k)) && Distinct(Pre(r)) && Distinct(Pre(k) + Pre(r))
  {
    hide Distinct;
    DistinctThree(n, Pre(k), Pre(r));
  }

  lemma DistinctAppend(f: Forest, g: Forest)
    requires Distinct(Pre(f) + Pre(g))
    ensures Nodes(f) !! Nodes(g) && Distinct(Pre(f)) && Distinct(Pre(g))
  {
    hide Pre, Distinct;
    DistinctParts(Pre(f), Pre(g));
  }

  lemma NodesBoth(f: Forest, g: Forest)
    ensures Nodes(f) + Nodes(g) == set m | m in Pre(f) + Pre(g)
  {
    hide Pre;
  }

  /** One more entry counted as done, after its inside and what follows it changed places. */
  lemma Advance(done: Forest, n: Menu, k: Forest, r: Forest, k': Forest, r': Forest)
    requires Pre(k') + Pre(r') == Pre(k) + Pre(r)
    ensures var done' := Append(done, Cons(n, k', Nil));
      Pre(done') == Pre(done) + [n] + Pre(k') &&
      Pre(done') + Pre(r') == Pre(done) + Pre(Cons(n, k, r))
  {
    PreAppend(done, Cons(n, k', Nil));
    assert Pre(Cons(n, k', Nil)) == [n] + Pre(k');
    Swapped(Pre(done), n, Pre(k), Pre(r), Pre(k'), Pre(r'));
  }

  lemma Swapped(d: seq<Menu>, n: Menu, k: seq<Menu>, r: seq<Menu>, k': seq<Menu>, r': seq<Menu>)
    requires k' + r' == k + r
    ensures d + ([n] + k') == d + [n] + k'
    ensures d + [n] + k' + r' == d + ([n] + k + r)
  {
    Associates([n], k, r);
    Associates([n], k', r');
    assert d + [n] + k' + r' == d + ([n] + k' + r');
  }

  /** A forest whose entries are being gone through: those done, and those still to do. */
  ghost predicate Parted(f: Forest, done: Forest, todo: Forest) {
    Distinct(Pre(f)) && Pre(done) + Pre(todo) == Pre(f)
  }

  lemma PartedFacts(f: Forest, done: Forest, todo: Forest)
    requires Parted(f, done, todo)
    ensures Nodes(done) !! Nodes(todo) && Nodes(done) + Nodes(todo) == Nodes(f)
    ensures Distinct(Pre(todo)) && |Pre(todo)| <= |Pre(f)|
    ensures todo.Cons? ==> Distinct(Pre(todo.kids)) && Distinct(Pre(todo.rest))
    ensures todo.Cons? ==> todo.node !in Nodes(todo.kids) && todo.node !in Nodes(todo.rest)
    ensures todo.Cons? ==> Nodes(todo.kids) !! Nodes(todo.rest) && Nodes(todo) == {todo.node} + Nodes(todo.kids) + Nodes(todo.rest)
    ensures todo.Cons? ==> |Pre(todo.kids)| + |Pre(todo.rest)| == |Pre(todo)| - 1
  {
    hide Distinct;
    DistinctAppend(done, todo);
    NodesBoth(done, todo);
    if todo.Cons? {
      DistinctForest(todo.node, todo.kids, todo.rest);
      NodesCons(todo.node, todo.kids, todo.rest);
    }
  }

  lemma NodesCons(n: Menu, k: Forest, r: Forest)
    ensures Nodes(Cons(n, k, r)) == {n} + Nodes(k) + Nodes(r)
  {
    assert Pre(Cons(n, k, r)) == [n] + Pre(k) + Pre(r);
  }

  /** One entry on, its inside and what follows it having changed places. */
  lemma PartedNext(f: Forest, done: Forest, todo: Forest, k': Forest, r': Forest)
    requires Parted(f, done, todo) && todo.Cons? && Pre(k') + Pre(r') == Pre(todo.kids) + Pre(todo.rest)
    ensures Parted(f, Append(done, Cons(todo.node, k', Nil)), r')
    ensures |Pre(r')| < |Pre(todo)|
  {
    hide Distinct;
    Advance(done, todo.node, todo.kids, todo.rest, k', r');
    assert |Pre(k')| + |Pre(r')| == |Pre(todo.kids)| + |Pre(todo.rest)|;
  }

  lemma LinkedNext(done: Forest, n: Menu, k: Forest, head: Menu?, up: Menu?)
    requires Linked(done, head, up, n) && n.parent == up && Linked(k, n.list, n, null)
    ensures Linked(Append(done, Cons(n, k, Nil)), head, up, n.next)
  {
    LinkedAppend(done, Cons(n, k, Nil), head, up, n, n.next);
  }

  lemma LinkedCons(n: Menu, k: Forest, r: Forest, up: Menu?, tail: Menu?)
    requires n.parent == up && Linked(k, n.list, n, null) && Linked(r, n.next, up, tail)
    ensures Linked(Cons(n, k, r), n, up, tail)
  {
  }

  lemma LinkedNil(head: Menu?, up: Menu?)
    ensures Linked(Nil, head, up, head)
  {
  }

  lemma LinkedHead(f: Forest, head: Menu?, up: Menu?, tail: Menu?)
    requires Linked(f, head, up, tail)
    ensures f.Nil? ==> head == tail
    ensures f.Cons? ==> f.node == head && f.node.parent == up
    ensures f.Cons? ==> Linked(f.kids, f.node.list, f.node, null) && Linked(f.rest, f.node.next, up, tail)
  {
  }

  // ----- What menu_finalize does to the forest, for any answers of its dependency tests.
  // It tests each pair of a symbol and a later entry at most once, so a function of the pair
  // covers all answers.

  type Answers = (Menu, Menu) -> bool

  /** Entry m with the entries k below it and r after it, finalized: what is then below and after it. */
  ghost function Final(below: Answers, m: Menu, k: Forest, r: Forest): (p: (Forest, Forest))
    ensures |Pre(p.0)| + |Pre(p.1)| == |Pre(k)| + |Pre(r)|
    decreases |Pre(k)| + |Pre(r)|, 1
  {
    if k.Cons? then
      assert Pre(k) == [k.node] + Pre(k.kids) + Pre(k.rest);
      (Hoist(FinalAll(below, k)), r)
    else if m.symbol then var p := Steal(below, m, r); (Hoist(p.0), p.1)
    else (Nil, r)
  }

  /** All entries of a list finalized, each after the ones before it. */
  ghost function FinalAll(below: Answers, k: Forest): (f: Forest)
    ensures |Pre(f)| == |Pre(k)|
    decreases |Pre(k)|, 0
  {
    match k
    case Nil => Nil
    case Cons(n, k1, r1) =>
      var p := Final(below, n, k1, r1);
      Cons(n, p.0, FinalAll(below, p.1))
  }

  /** The entries after symbol m that the tests put below it, finalized, and the entries left after it. */
  ghost function Steal(below: Answers, m: Menu, r: Forest): (p: (Forest, Forest))
    ensures |Pre(p.0)| + |Pre(p.1)| == |Pre(r)|
    decreases |Pre(r)|, 0
  {
    if r.Nil? || !below(m, r.node) then (Nil, r)
    else
      var p := Final(below, r.node, r.kids, r.rest);
      var q := Steal(below, m, p.1);
      (Cons(r.node, p.0, q.0), q.1)
  }

  /** Entries without a prompt text give the entries below them to the list they stand in. */
  ghost function Hoist(f: Forest): (g: Forest)
    ensures |Pre(g)| == |Pre(f)|
    decreases |Pre(f)|
  {
    match f
    case Nil => Nil
    case Cons(n, k, r) =>
      PreAppend(k, r);
      if k.Cons? && !n.titled then Cons(n, Nil, Hoist(Append(k, r))) else Cons(n, k, Hoist(r))
  }

  // ----- What finalizing keeps

  /** menu_finalize keeps the order of the entries, whatever the tests answer. */
  lemma {:induction false} FinalOrder(below: Answers, m: Menu, k: Forest, r: Forest)
    ensures var p := Final(below, m, k, r); Pre(p.0) + Pre(p.1) == Pre(k) + Pre(r)
    decreases |Pre(k)| + |Pre(r)|, 1
  {
    if k.Cons? {
      FinalAllOrder(below, k);
      HoistOrder(FinalAll(below, k));
    } else if m.symbol {
      StealOrder(below, m, r);
      HoistOrder(Steal(below, m, r).0);
    }
  }

  lemma {:induction false} FinalAllOrder(below: Answers, k: Forest)
    ensures Pre(FinalAll(below, k)) == Pre(k)
    decreases |Pre(k)|, 0
  {
    if k.Cons? {
      var p := Final(below, k.node, k.kids, k.rest);
      FinalOrder(below, k.node, k.kids, k.rest);
      FinalAllOrder(below, p.1);
      Associates([k.node], Pre(p.0), Pre(p.1));
      Associates([k.node], Pre(k.kids), Pre(k.rest));
    }
  }

  lemma {:induction false} StealOrder(below: Answers, m: Menu, r: Forest)
    ensures var p := Steal(below, m, r); Pre(p.0) + Pre(p.1) == Pre(r)
    decreases |Pre(r)|, 0
  {
    if r.Cons? && below(m, r.node) {
      var p := Final(below, r.node, r.kids, r.rest);
      FinalOrder(below, r.node, r.kids, r.rest);
      StealOrder(below, m, p.1);
      var q := Steal(below, m, p.1);
      Moved(r.node, Pre(p.0), Pre(p.1), Pre(q.0), Pre(q.1), Pre(r.kids), Pre(r.rest));
    }
  }

  lemma Moved(n: Menu, k: seq<Menu>, r: seq<Menu>, s: seq<Menu>, t: seq<Menu>, k0: seq<Menu>, r0: seq<Menu>)
    requires k + r == k0 + r0 && s + t == r
    ensures [n] + k + s + t == [n] + k0 + r0
  {
    Associates([n], k, s + t);
    Associates([n], k0, r0);
    assert [n] + k + s + t == [n] + k + (s + t);
  }

  lemma {:induction false} HoistOrder(f: Forest)
    ensures Pre(Hoist(f)) == Pre(f)
    decreases |Pre(f)|
  {
    if f.Cons? {
      PreAppend(f.kids, f.rest);
      if f.kids.Cons? && !f.node.titled {
        HoistOrder(Append(f.kids, f.rest));
        Associates([f.node], Pre(f.kids), Pre(f.rest));
        assert [f.node] + [] + Pre(Append(f.kids, f.rest)) == [f.node] + Pre(Append(f.kids, f.rest));
      } else {
        HoistOrder(f.rest);
      }
    }
  }

  /** Only entries with a prompt text have entries below them. */
  ghost predicate Tidied(f: Forest) {
    match f
    case Nil => true
    case Cons(n, k, r) => (k.Cons? ==> n.titled) && Tidied(k) && Tidied(r)
  }

  /** Below a finalized entry, only entries with a prompt text have entries below them. */
  lemma {:induction false} FinalTidied(below: Answers, m: Menu, k: Forest, r: Forest)
    ensures Tidied(Final(below, m, k, r).0)
    decreases |Pre(k)| + |Pre(r)|, 1
  {
    if k.Cons? {
      FinalAllTidied(below, k);
      HoistTidied(FinalAll(below, k));
    } else if m.symbol {
      StealTidied(below, m, r);
      HoistTidied(Steal(below, m, r).0);
    }
  }

  /** Every entry of the list is followed below by tidied entries. */
  ghost predicate KidsTidied(f: Forest) {
    match f
    case Nil => true
    case Cons(n, k, r) => Tidied(k) && KidsTidied(r)
  }

  lemma {:induction false} FinalAllTidied(below: Answers, k: Forest)
    ensures KidsTidied(FinalAll(below, k))
    decreases |Pre(k)|, 0
  {
    if k.Cons? {
      FinalTidied(below, k.node, k.kids, k.rest);
      FinalAllTidied(below, Final(below, k.node, k.kids, k.rest).1);
    }
  }

  lemma {:induction false} StealTidied(below: Answers, m: Menu, r: Forest)
    ensures KidsTidied(Steal(below, m, r).0)
    decreases |Pre(r)|, 0
  {
    if r.Cons? && below(m, r.node) {
      FinalTidied(below, r.node, r.kids, r.rest);
      StealTidied(below, m, Final(below, r.node, r.kids, r.rest).1);
    }
  }

  lemma {:induction false} HoistTidied(f: Forest)
    requires KidsTidied(f)
    ensures Tidied(Hoist(f))
    decreases |Pre(f)|
  {
    if f.Cons? {
      if f.kids.Cons? && !f.node.titled {
        PreAppend(f.kids, f.rest);
        TidiedKids(f.kids);
        KidsTidiedAppend(f.kids, f.rest);
        HoistTidied(Append(f.kids, f.rest));
      } else {
        HoistTidied(f.rest);
      }
    }
  }

  lemma TidiedKids(f: Forest)
    requires Tidied(f)
    ensures KidsTidied(f)
  {
  }

  lemma KidsTidiedAppend(f: Forest, g: Forest)
    requires KidsTidied(f) && KidsTidied(g)
    ensures KidsTidied(Append(f, g))
  {
  }

  /** t is what is left of the list f after some of its first entries. */
  ghost predicate IsTail(t: Forest, f: Forest) {
    t == f || (f.Cons? && IsTail(t, f.rest))
  }

  /** Entries move below m only from directly after it, only if m is a symbol without a list, and
      they stop at the first entry the tests keep out. What stays after m is untouched. */
  lemma {:induction false} FinalLeaves(below: Answers, m: Menu, k: Forest, r: Forest)
    ensures var left := Final(below, m, k, r).1;
      IsTail(left, r) &&
      (left != r ==> m.symbol && k.Nil?) &&
      (m.symbol && k.Nil? && left.Cons? ==> !below(m, left.node))
    decreases |Pre(k)| + |Pre(r)|, 1
  {
    if k.Nil? && m.symbol {
      StealLeaves(below, m, r);
    }
  }

  lemma {:induction false} StealLeaves(below: Answers, m: Menu, r: Forest)
    ensures var left := Steal(below, m, r).1; IsTail(left, r) && (left.Cons? ==> !below(m, left.node))
    decreases |Pre(r)|, 0
  {
    if r.Cons? && below(m, r.node) {
      var p := Final(below, r.node, r.kids, r.rest);
      FinalLeaves(below, r.node, r.kids, r.rest);
      StealLeaves(below, m, p.1);
      TailOfTail(Steal(below, m, p.1).1, p.1, r.rest);
    }
  }

  lemma {:induction false} TailOfTail(t: Forest, s: Forest, f: Forest)
    requires IsTail(t, s) && IsTail(s, f)
    ensures IsTail(t, f)
  {
    if s != f {
      TailOfTail(t, s, f.rest);
    }
  }

  /** A tidy menu in which the tests move nothing stays as it is. */
  lemma {:induction false} FinalFixed(below: Answers, m: Menu, k: Forest, r: Forest)
    requires Tidied(k) && forall x, y :: !below(x, y)
    ensures Final(below, m, k, r) == (k, r)
    decreases |Pre(k)| + |Pre(r)|, 1
  {
    if k.Cons? {
      FinalAllFixed(below, k);
      HoistFixed(k);
    } else {
      assert Steal(below, m, r) == (Nil, r);
    }
  }

  lemma {:induction false} FinalAllFixed(below: Answers, k: Forest)
    requires Tidied(k) && forall x, y :: !below(x, y)
    ensures FinalAll(below, k) == k
    decreases |Pre(k)|, 0
  {
    if k.Cons? {
      FinalFixed(below, k.node, k.kids, k.rest);
      FinalAllFixed(below, k.rest);
    }
  }

  lemma {:induction false} HoistFixed(f: Forest)
    requires Tidied(f)
    ensures Hoist(f) == f
  {
    if f.Cons? {
      HoistFixed(f.rest);
    }
  }
}
