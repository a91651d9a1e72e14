/** The pointer steps of menu_finalize. */
module MenuFinal {
  import opened Sequences
  import opened MenuTree

  /** menu_finalize(m): the links of m and of everything below or after it come to spell out Final. */
  method MenuFinalize(m: Menu, below: Answers, ghost k: Forest, ghost r: Forest, ghost up: Menu?)
      returns (ghost k': Forest, ghost r': Forest)
    requires Linked(Cons(m, k, r), m, up, null) && Distinct(Pre(Cons(m, k, r)))
    modifies Nodes(Cons(m, k, r))
    ensures (k', r') == Final(below, m, k, r)
    ensures Linked(Cons(m, k', r'), m, up, null)
    decreases |Pre(k)| + |Pre(r)|, 1
  {
    hide Distinct, Pre;
    DistinctForest(m, k, r);
    NodesCons(m, k, r);
    assert allocated(Nodes(r));
    k', r' := k, r;
    if m.list != null {
      k' := FinalizeList(m, below, k);
    } else if m.symbol {
      k', r' := StealNext(m, below, r, up);
    }
    Reordered(below, m, k, r, k', r');
    assert allocated(Nodes(r'));
    k' := HoistList(m, k');
  }

  lemma Reordered(below: Answers, m: Menu, k: Forest, r: Forest, k': Forest, r': Forest)
    requires Distinct(Pre(Cons(m, k, r)))
    requires (k', r') == (if k.Cons? then (FinalAll(below, k), r) else if m.symbol then Steal(below, m, r) else (k, r))
    ensures m !in Nodes(k') && m !in Nodes(r') && Nodes(k') !! Nodes(r') && Distinct(Pre(k'))
    ensures Nodes(Cons(m, k, r)) == {m} + Nodes(k') + Nodes(r')
  {
    hide Distinct, Steal, FinalAll;
    FinalAllOrder(below, k);
    StealOrder(below, m, r);
    assert Pre(k') + Pre(r') == Pre(k) + Pre(r);
    Associates([m], Pre(k), Pre(r));
    Associates([m], Pre(k'), Pre(r'));
    DistinctForest(m, k', r');
    NodesCons(m, k', r');
  }

  /** The loop that finalizes every entry of a list. */
  method FinalizeList(m: Menu, below: Answers, ghost k: Forest) returns (ghost k': Forest)
    requires Linked(k, m.list, m, null) && Distinct(Pre(k)) && m !in Nodes(k)
    modifies Nodes(k)
    ensures k' == FinalAll(below, k)
    ensures Linked(k', m.list, m, null)
    decreases |Pre(k)|, 0
  {
    hide Linked, Distinct, Pre, Final, Parted, Append;
    ghost var done, todo := Nil, k;
    var menu := m.list;
    PartedNone(k);
    AppendNil(FinalAll(below, k));
    LinkedNil(menu, m);
    while menu != null
      invariant Linked(done, m.list, m, menu) && Linked(todo, menu, m, null)
      invariant Parted(k, done, todo)
      invariant Append(done, FinalAll(below, todo)) == FinalAll(below, k)
      decreases |Pre(todo)|
    {
      PartedFacts(k, done, todo);
      LinkedHead(todo, menu, m, null);
      assert allocated(Nodes(done));
      ghost var kk, rr := MenuFinalize(menu, below, todo.kids, todo.rest, m);
      LinkedHead(Cons(menu, kk, rr), menu, m, null);
      FinalOrder(below, menu, todo.kids, todo.rest);
      PartedNext(k, done, todo, kk, rr);
      LinkedNext(done, menu, kk, m.list, m);
      AppendStep(done, menu, kk, FinalAll(below, rr));
      done, todo := Append(done, Cons(menu, kk, Nil)), rr;
      menu := menu.next;
    }
    LinkedHead(todo, menu, m, null);
    AppendNil(done);
    k' := done;
  }

  lemma PartedNone(f: Forest)
    requires Distinct(Pre(f))
    ensures Parted(f, Nil, f)
  {
  }

  lemma AppendStep(done: Forest, n: Menu, k: Forest, r: Forest)
    ensures Append(Append(done, Cons(n, k, Nil)), r) == Append(done, Cons(n, k, r))
  {
    AppendAssoc(done, Cons(n, k, Nil), r);
  }

  /** The loop over the entries after a symbol without a list, and the move below it. */
  method StealNext(m: Menu, below: Answers, ghost r: Forest, ghost up: Menu?)
      returns (ghost k': Forest, ghost r': Forest)
    requires m.list == null && Linked(r, m.next, up, null) && Distinct(Pre(r)) && m !in Nodes(r)
    modifies m`list, m`next, Nodes(r)
    ensures (k', r') == Steal(below, m, r)
    ensures Linked(k', m.list, m, null) && Linked(r', m.next, up, null)
    decreases |Pre(r)|, 0, 1
  {
    hide Distinct, Pre, Final, Parted, Append;
    var last: Menu?;
    last, k', r' := StealLoop(m, below, r, up);
    if last != null {
      ghost var front, kids := CutLast(k', last, m.next, m);
      LastAlone(r, front, last, kids, r');
      m.list := m.next;
      m.next := last.next;
      last.next := null;
      LinkedAppend(front, Cons(last, kids, Nil), m.list, m, last, null);
    }
  }

  method StealLoop(m: Menu, below: Answers, ghost r: Forest, ghost up: Menu?)
      returns (last: Menu?, ghost done: Forest, ghost todo: Forest)
    requires m.list == null && Linked(r, m.next, up, null) && Distinct(Pre(r)) && m !in Nodes(r)
    modifies Nodes(r)
    ensures (done, todo) == Steal(below, m, r) && Parted(r, done, todo)
    ensures if last == null then done == Nil && Linked(todo, m.next, up, null)
            else EndsWith(done, last) && Linked(done, m.next, m, last.next) && Linked(todo, last.next, up, null)
    decreases |Pre(r)|, 0, 0
  {
    hide Linked, Distinct, Pre, Final, Parted, Append, EndsWith;
    done, todo, last := Nil, r, null;
    var menu := m.next;
    PartedNone(r);
    AppendNil(Steal(below, m, r).0);
    LinkedNil(menu, m);
    while menu != null
      invariant Linked(done, m.next, m, menu) && Linked(todo, menu, up, null)
      invariant Parted(r, done, todo)
      invariant if last == null then done == Nil else EndsWith(done, last) && last.next == menu
      invariant Append(done, Steal(below, m, todo).0) == Steal(below, m, r).0
      invariant Steal(below, m, todo).1 == Steal(below, m, r).1
      decreases |Pre(todo)|
    {
      if !below(m, menu) {
        break;
      }
      PartedFacts(r, done, todo);
      LinkedHead(todo, menu, up, null);
      assert allocated(Nodes(done));
      ghost var kk, rr := MenuFinalize(menu, below, todo.kids, todo.rest, up);
      LinkedHead(Cons(menu, kk, rr), menu, up, null);
      FinalOrder(below, menu, todo.kids, todo.rest);
      PartedNext(r, done, todo, kk, rr);
      PartedFacts(r, Append(done, Cons(menu, kk, Nil)), rr);
      AppendStep(done, menu, kk, Steal(below, m, rr).0);
      EndsWithNew(done, menu, kk);
      LastAlone(r, done, menu, kk, rr);
      menu.parent := m;
      LinkedNext(done, menu, kk, m.next, m);
      done, todo := Append(done, Cons(menu, kk, Nil)), rr;
      last := menu;
      menu := menu.next;
    }
    LinkedHead(todo, menu, up, null);
    LinkedHead(done, m.next, m, menu);
    AppendNil(done);
  }

  /** The last entry of a list. */
  ghost predicate EndsWith(f: Forest, last: Menu) {
    f.Cons? && if f.rest.Nil? then f.node == last else EndsWith(f.rest, last)
  }

  lemma EndsWithNew(f: Forest, n: Menu, k: Forest)
    ensures EndsWith(Append(f, Cons(n, k, Nil)), n) && Append(f, Cons(n, k, Nil)).Cons?
  {
  }

  /** A list split before its last entry. */
  lemma CutLast(f: Forest, last: Menu, head: Menu?, up: Menu?) returns (front: Forest, kids: Forest)
    requires EndsWith(f, last) && Linked(f, head, up, last.next)
    ensures f == Append(front, Cons(last, kids, Nil))
    ensures Linked(front, head, up, last) && last.parent == up && Linked(kids, last.list, last, null)
  {
    if f.rest.Nil? {
      front, kids := Nil, f.kids;
    } else {
      front, kids := CutLast(f.rest, last, f.node.next, up);
      front := Cons(f.node, f.kids, front);
    }
  }

  lemma LastAlone(f: Forest, front: Forest, last: Menu, kids: Forest, todo: Forest)
    requires Parted(f, Append(front, Cons(last, kids, Nil)), todo)
    ensures last !in Nodes(front) && last !in Nodes(kids) && last !in Nodes(todo) && last in Nodes(f)
    ensures Nodes(front) <= Nodes(f) && Nodes(kids) <= Nodes(f) && Nodes(todo) <= Nodes(f)
  {
    hide Distinct;
    PreAppend(front, Cons(last, kids, Nil));
    assert Pre(Cons(last, kids, Nil)) == [last] + Pre(kids);
    Around(Pre(front), last, Pre(kids), Pre(todo));
    forall m | m in Pre(front) || m == last || m in Pre(kids) || m in Pre(todo) ensures m in Pre(f) {
      assert m in Pre(front) + ([last] + Pre(kids)) + Pre(todo);
    }
  }

  lemma Around(s: seq<Menu>, n: Menu, t: seq<Menu>, u: seq<Menu>)
    requires Distinct(s + ([n] + t) + u)
    ensures n !in s && n !in t && n !in u
  {
    hide Distinct;
    assert s + ([n] + t) + u == s + ([n] + (t + u));
    DistinctParts(s, [n] + (t + u));
    DistinctParts([n], t + u);
    assert n in [n];
  }

  /** The last loop of menu_finalize: entries without a prompt text give up what is below them. */
  method HoistList(m: Menu, ghost f: Forest) returns (ghost g: Forest)
    requires Linked(f, m.list, m, null) && Distinct(Pre(f)) && m !in Nodes(f)
    modifies Nodes(f)
    ensures g == Hoist(f) && Linked(g, m.list, m, null)
  {
    hide Linked, Distinct, Pre, Parted, Append;
    ghost var done, todo := Nil, f;
    var menu := m.list;
    PartedNone(f);
    AppendNil(Hoist(f));
    LinkedNil(menu, m);
    while menu != null
      invariant Linked(done, m.list, m, menu) && Linked(todo, menu, m, null)
      invariant Parted(f, done, todo)
      invariant Append(done, Hoist(todo)) == Hoist(f)
      decreases |Pre(todo)|
    {
      PartedFacts(f, done, todo);
      LinkedHead(todo, menu, m, null);
      ghost var kk, rr := todo.kids, todo.rest;
      if menu.list != null && !menu.titled {
        assert allocated(Nodes(done)) && allocated(Nodes(rr));
        HoistEntry(menu, m, kk, rr);
        PreAppend(kk, rr);
        PreNil();
        kk, rr := Nil, Append(kk, rr);
      }
      PartedNext(f, done, todo, kk, rr);
      LinkedNext(done, menu, kk, m.list, m);
      AppendStep(done, menu, kk, Hoist(rr));
      done, todo := Append(done, Cons(menu, kk, Nil)), rr;
      menu := menu.next;
    }
    LinkedHead(todo, menu, m, null);
    AppendNil(done);
    g := done;
  }

  lemma AppendOne(f: Forest, r: Forest)
    requires f.Cons? && f.rest.Nil?
    ensures Append(f, r) == Cons(f.node, f.kids, r)
  {
  }

  lemma PreNil()
    ensures Pre(Nil) == [] && forall s: seq<Menu> :: [] + s == s
  {
  }

  /** The entries k below menu get the parent m and move between menu and the entries after it. */
  method HoistEntry(menu: Menu, m: Menu, ghost k: Forest, ghost r: Forest)
    requires menu.list != null && Linked(k, menu.list, menu, null) && Linked(r, menu.next, m, null)
    requires Distinct(Pre(k)) && menu !in Nodes(k) && menu !in Nodes(r) && Nodes(k) !! Nodes(r)
    modifies menu`next, menu`list, Nodes(k)
    ensures menu.list == null && Linked(Append(k, r), menu.next, m, null)
  {
    hide Linked, Distinct, Pre, Parted, Append;
    var last := menu.list;
    ghost var done, todo := Nil, k;
    PartedNone(k);
    AppendNil(k);
    LinkedNil(last, m);
    LinkedHead(k, last, menu, null);
    while true
      invariant todo.Cons? && Linked(done, menu.list, m, last) && Linked(todo, last, menu, null)
      invariant Linked(r, menu.next, m, null)
      invariant Parted(k, done, todo)
      invariant Append(done, todo) == k
      decreases |Pre(todo)|
    {
      PartedFacts(k, done, todo);
      LinkedHead(todo, last, menu, null);
      last.parent := m;
      LinkedHead(todo.rest, last.next, menu, null);
      if last.next == null {
        break;
      }
      PartedNext(k, done, todo, todo.kids, todo.rest);
      LinkedNext(done, last, todo.kids, menu.list, m);
      AppendStep(done, last, todo.kids, todo.rest);
      done, todo := Append(done, Cons(last, todo.kids, Nil)), todo.rest;
      last := last.next;
    }
    last.next := menu.next;
    LinkedCons(last, todo.kids, r, m, null);
    LinkedAppend(done, Cons(last, todo.kids, r), menu.list, m, last, null);
    AppendOne(todo, r);
    AppendAssoc(done, todo, r);
    NodesAppend(k, r);
    menu.next := menu.list;
    menu.list := null;
  }
}
