/** Exactly where menu_finalize puts every entry, at every depth: each symbol declared without a list
    gets the longest run of entries accepted for it, and then the untitled entries give up what is
    below them. */
module MenuExact {
  import opened MenuTree

  ghost function Length(f: Forest): nat {
    if f.Nil? then 0 else 1 + Length(f.rest)
  }

  ghost function Take(f: Forest, i: nat): Forest
    requires i <= Length(f)
  {
    if i == 0 then Nil else Cons(f.node, f.kids, Take(f.rest, i - 1))
  }

  ghost function Drop(f: Forest, i: nat): Forest
    requires i <= Length(f)
  {
    if i == 0 then f else Drop(f.rest, i - 1)
  }

  /** The first entry of r, if any, is not to move below m. */
  ghost predicate KeptOut(below: Answers, m: Menu, r: Forest) {
    r.Cons? ==> !below(m, r.node)
  }

  ghost predicate AllAccepted(below: Answers, m: Menu, f: Forest) {
    match f
    case Nil => true
    case Cons(n, _, r) => below(m, n) && AllAccepted(below, m, r)
  }

  /** h is the list f, followed by the entries after, with every entry grouped. */
  ghost predicate Grouped(below: Answers, f: Forest, after: Forest, h: Forest)
    decreases h, 1
  {
    if f.Nil? then h.Nil?
    else h.Cons? && h.node == f.node && exists i: nat :: GroupedHead(below, f, after, h, i)
  }

  /** Of the entries after the first one of f, the run of the next i moves below it. Only a symbol
      declared without a list gets a run: grouped, it is a list of entries accepted for the symbol,
      and the entry behind it is none of these. Other entries keep their list. */
  ghost predicate GroupedHead(below: Answers, f: Forest, after: Forest, h: Forest, i: nat)
    requires f.Cons? && h.Cons?
    decreases h, 0
  {
    && i <= Length(f.rest) && Grouped(below, Drop(f.rest, i), after, h.rest)
    && if f.kids.Cons? || !f.node.symbol then i == 0 && Grouped(below, f.kids, Nil, h.kids)
       else Run(below, f.node, Take(f.rest, i), Append(Drop(f.rest, i), after), h.kids)
  }

  /** The entries s, grouped to h, are what is to be below the symbol m when the entries after follow them. */
  ghost predicate Run(below: Answers, m: Menu, s: Forest, after: Forest, h: Forest)
    decreases h, 2
  {
    Grouped(below, s, after, h) && AllAccepted(below, m, h) && KeptOut(below, m, after)
  }

  /** A grouped forest in which the untitled entries have given up, level by level, what was below them. */
  ghost function Dissolve(h: Forest): (g: Forest)
    ensures |Pre(g)| == |Pre(h)|
  {
    match h
    case Nil => Nil
    case Cons(n, k, r) => Cons(n, Hoist(Dissolve(k)), Dissolve(r))
  }

  lemma {:induction false} Cut(s: Forest, t: Forest)
    ensures Length(s) <= Length(Append(s, t))
    ensures Take(Append(s, t), Length(s)) == s && Drop(Append(s, t), Length(s)) == t
  {
    if s.Cons? { Cut(s.rest, t); }
  }

  lemma {:induction false} Joined(f: Forest, i: nat)
    requires i <= Length(f)
    ensures Append(Take(f, i), Drop(f, i)) == f
  {
    if i > 0 { Joined(f.rest, i - 1); }
  }

  // ----- menu_finalize does this

  /** What Steal moves is a run. */
  lemma {:induction false} StealRun(below: Answers, m: Menu, r: Forest) returns (s: Forest, h: Forest)
    ensures var p := Steal(below, m, r); r == Append(s, p.1) && p.0 == Dissolve(h) && Run(below, m, s, p.1, h)
    decreases |Pre(r)|, 0
  {
    s, h := Nil, Nil;
    if r.Cons? && below(m, r.node) {
      var p := Final(below, r.node, r.kids, r.rest);
      var q := Steal(below, m, p.1);
      var s', h' := StealRun(below, m, p.1);
      s, h := FinalRun(below, r.node, r.kids, r.rest, s', q.1, h');
      s := Cons(r.node, r.kids, s);
    }
  }

  /** The entry m finalized, before the entries s', grouped to h', and those after. */
  lemma {:induction false} FinalRun(below: Answers, m: Menu, k: Forest, r: Forest, s': Forest, after: Forest, h': Forest)
    returns (x: Forest, h: Forest)
    requires Final(below, m, k, r).1 == Append(s', after) && Grouped(below, s', after, h')
    ensures r == Append(x, after) && Grouped(below, Cons(m, k, x), after, h)
    ensures h.Cons? && h.node == m && h.rest == h' && Final(below, m, k, r).0 == Hoist(Dissolve(h.kids))
    decreases |Pre(k)| + |Pre(r)|, 1
  {
    if k.Cons? {
      x := s';
      var hk := FinalListRun(below, k);
      h := Cons(m, hk, h');
      assert GroupedHead(below, Cons(m, k, x), after, h, 0);
    } else if !m.symbol {
      x, h := s', Cons(m, Nil, h');
      assert GroupedHead(below, Cons(m, k, x), after, h, 0);
    } else {
      var u, hk := StealRun(below, m, r);
      x, h := Append(u, s'), Cons(m, hk, h');
      AppendAssoc(u, s', after);
      Cut(u, s');
      assert GroupedHead(below, Cons(m, k, x), after, h, Length(u));
    }
  }

  lemma {:induction false} FinalListRun(below: Answers, k: Forest) returns (h: Forest)
    ensures Grouped(below, k, Nil, h) && FinalAll(below, k) == Dissolve(h)
    decreases |Pre(k)|, 0
  {
    h := Nil;
    if k.Cons? {
      var p := Final(below, k.node, k.kids, k.rest);
      var h' := FinalListRun(below, p.1);
      AppendNil(p.1);
      var x;
      x, h := FinalRun(below, k.node, k.kids, k.rest, p.1, Nil, h');
      AppendNil(x);
    }
  }

  // ----- and there is one way only to do it

  /** Of two beginnings of one list the shorter one begins the longer one. */
  lemma {:induction false} Beginning(f1: Forest, a1: Forest, f2: Forest, a2: Forest) returns (u: Forest)
    requires Append(f1, a1) == Append(f2, a2) && Length(f1) <= Length(f2)
    ensures f2 == Append(f1, u) && a1 == Append(u, a2)
  {
    if f1.Nil? {
      u := f2;
    } else {
      u := Beginning(f1.rest, a1, f2.rest, a2);
    }
  }

  lemma {:induction false} AcceptedAppend(below: Answers, m: Menu, f: Forest, g: Forest)
    requires AllAccepted(below, m, Append(f, g))
    ensures AllAccepted(below, m, g)
  {
    if f.Cons? {
      AcceptedAppend(below, m, f.rest, g);
    }
  }

  /** A list that begins another one, the same entries following, is grouped to its beginning. */
  lemma {:induction false} GroupedBegins(below: Answers, f: Forest, u: Forest, after: Forest, h1: Forest, h2: Forest)
    returns (h: Forest)
    requires Grouped(below, f, Append(u, after), h1) && Grouped(below, Append(f, u), after, h2)
    ensures h2 == Append(h1, h) && Grouped(below, u, after, h)
    decreases |Pre(h1)| + |Pre(h2)|, 0
  {
    if f.Nil? {
      h := h2;
      return;
    }
    var i1: nat :| GroupedHead(below, f, Append(u, after), h1, i1);
    var i2: nat :| GroupedHead(below, Append(f, u), after, h2, i2);
    var s1, t1, s2, t2 := Take(f.rest, i1), Drop(f.rest, i1), Take(Append(f.rest, u), i2), Drop(Append(f.rest, u), i2);
    Joined(f.rest, i1);
    Joined(Append(f.rest, u), i2);
    AppendAssoc(s1, t1, u);
    AppendAssoc(t1, u, after);
    if f.kids.Cons? || !f.node.symbol {
      SameList(below, f.kids, h1.kids, h2.kids);
    } else {
      SameRun(below, f.node, s1, Append(t1, u), s2, t2, after, h1.kids, h2.kids);
    }
    h := GroupedBegins(below, t1, u, after, h1.rest, h2.rest);
  }

  lemma {:induction false} SameList(below: Answers, f: Forest, h1: Forest, h2: Forest)
    requires Grouped(below, f, Nil, h1) && Grouped(below, f, Nil, h2)
    ensures h1 == h2
    decreases |Pre(h1)| + |Pre(h2)|, 1
  {
    AppendNil(f);
    var h := GroupedBegins(below, f, Nil, Nil, h1, h2);
    AppendNil(h1);
  }

  /** Two runs of the same entries for the same symbol are the same. */
  lemma {:induction false} SameRun(below: Answers, m: Menu, s1: Forest, t1: Forest, s2: Forest, t2: Forest, after: Forest,
                                   h1: Forest, h2: Forest)
    requires Append(s1, t1) == Append(s2, t2)
    requires Run(below, m, s1, Append(t1, after), h1) && Run(below, m, s2, Append(t2, after), h2)
    ensures s1 == s2 && t1 == t2 && h1 == h2
    decreases |Pre(h1)| + |Pre(h2)|, 1
  {
    if Length(s1) <= Length(s2) {
      var u := Beginning(s1, t1, s2, t2);
      AppendAssoc(u, t2, after);
      var h := GroupedBegins(below, s1, u, Append(t2, after), h1, h2);
      AcceptedAppend(below, m, h1, h);
      AppendNil(s1);
      AppendNil(h1);
    } else {
      var u := Beginning(s2, t2, s1, t1);
      AppendAssoc(u, t1, after);
      var h := GroupedBegins(below, s2, u, Append(t1, after), h2, h1);
      AcceptedAppend(below, m, h2, h);
      AppendNil(s2);
    }
  }

  /** Every list has one grouping, and menu_finalize leaves that, dissolved. */
  lemma FinalExactly(below: Answers, k: Forest, h: Forest)
    requires Grouped(below, k, Nil, h)
    ensures FinalAll(below, k) == Dissolve(h)
  {
    var h' := FinalListRun(below, k);
    SameList(below, k, h, h');
  }

  /** The same of one entry: what is then below it and after it. */
  lemma FinalExactlyOne(below: Answers, m: Menu, k: Forest, x: Forest, t: Forest, h: Forest)
    requires Grouped(below, Cons(m, k, x), t, h) && h.rest.Nil?
    ensures Final(below, m, k, Append(x, t)) == (Hoist(Dissolve(h.kids)), t)
  {
    var p := Final(below, m, k, Append(x, t));
    var x', h' := FinalRun(below, m, k, Append(x, t), Nil, p.1, Nil);
    if Length(x) <= Length(x') {
      var u := Beginning(x, t, x', p.1);
      var g := GroupedBegins(below, Cons(m, k, x), u, p.1, h, h');
    } else {
      var u := Beginning(x', p.1, x, t);
      var g := GroupedBegins(below, Cons(m, k, x'), u, t, h', h);
      AppendNil(x');
    }
  }

  /** The entry around all others. */
  lemma FinalOutermost(below: Answers, m: Menu, k: Forest)
    ensures Final(below, m, k, Nil) == (Hoist(FinalAll(below, k)), Nil)
  {
  }

  // ----- What hoisting leaves where it was

  /** Somewhere in f is the entry n, with exactly k below it. */
  ghost predicate Under(f: Forest, n: Menu, k: Forest) {
    f.Cons? && ((f.node == n && f.kids == k) || Under(f.kids, n, k) || Under(f.rest, n, k))
  }

  lemma {:induction false} UnderAppend(f: Forest, g: Forest, n: Menu, k: Forest)
    ensures Under(Append(f, g), n, k) <==> Under(f, n, k) || Under(g, n, k)
  {
    if f.Cons? { UnderAppend(f.rest, g, n, k); }
  }

  lemma {:induction false} UnderTidied(f: Forest, n: Menu, k: Forest)
    requires Tidied(f)
    ensures n.titled || (Under(f, n, k) <==> k.Nil? && n in Pre(f))
  {
    if f.Cons? {
      UnderTidied(f.kids, n, k);
      UnderTidied(f.rest, n, k);
    }
  }

  /** Titled entries keep exactly what was below them, the others keep nothing. */
  lemma {:induction false} HoistUnder(f: Forest, n: Menu, k: Forest)
    requires KidsTidied(f)
    ensures Under(Hoist(f), n, k) <==> if n.titled then Under(f, n, k) else k.Nil? && n in Pre(f)
    decreases |Pre(f)|
  {
    if f.Cons? {
      PreAppend(f.kids, f.rest);
      UnderTidied(f.kids, n, k);
      if f.kids.Cons? && !f.node.titled {
        TidiedKids(f.kids);
        KidsTidiedAppend(f.kids, f.rest);
        HoistUnder(Append(f.kids, f.rest), n, k);
        UnderAppend(f.kids, f.rest, n, k);
      } else {
        HoistUnder(f.rest, n, k);
      }
    }
  }
}
