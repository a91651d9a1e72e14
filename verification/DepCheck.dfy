/** The search for recursive dependencies: sym_check_deps, sym_check_expr_deps and the loop
    of conf_parse that drives them. */
module DepCheck {
  import opened Options
  import opened Expr
  import opened ExprCompare

  datatype PropKind = PUnknown | PPrompt | PComment | PMenu | PDefault | PChoice | PSelect | PRange

  datatype Property = Property(kind: PropKind, visible: Option<Expr>, expr: Option<Expr>)

  datatype Entry = Entry(isChoice: bool, revDep: Option<Expr>, props: seq<Property>)

  /** The configuration symbols; a symbol outside the table (a constant) has no dependencies. */
  type Table = map<Sym, Entry>

  function ExprSyms(e: Option<Expr>): set<Sym>
    decreases SizeOpt(e)
  {
    match e
    case None => {}
    case Some(Symbol(s)) => {s}
    case Some(Compare(_, l, r)) => {l, r}
    case Some(Not(x)) => ExprSyms(Some(x))
    case Some(Binary(_, l, r)) => ExprSyms(Some(l)) + ExprSyms(Some(r))
  }

  /** What one property makes its symbol depend on. */
  function PropSyms(isChoice: bool, p: Property): set<Sym> {
    if p.kind == PChoice then {}
    else ExprSyms(p.visible) + if p.kind == PDefault && !isChoice then ExprSyms(p.expr) else {}
  }

  function PropsSyms(isChoice: bool, props: seq<Property>): set<Sym> {
    if props == [] then {}
    else PropsSyms(isChoice, props[..|props| - 1]) + PropSyms(isChoice, props[|props| - 1])
  }

  /** The edges of the dependency graph. */
  function Deps(t: Table, s: Sym): set<Sym> {
    if s in t then ExprSyms(t[s].revDep) + PropsSyms(t[s].isChoice, t[s].props) else {}
  }

  /** A property makes its symbol depend on d: unless it lists choice values, by its visibility, and
      by its value if it is a default of a symbol that is no choice. */
  predicate PropMentions(isChoice: bool, p: Property, d: Sym) {
    p.kind != PChoice && (ContainsSymbol(p.visible, d) || (p.kind == PDefault && !isChoice && ContainsSymbol(p.expr, d)))
  }

  /** The edges are exactly the symbols that the formulas searched contain, for expr_contains_symbol. */
  lemma DepsExactly(t: Table, s: Sym, d: Sym)
    ensures d in Deps(t, s) <==>
      s in t && (ContainsSymbol(t[s].revDep, d) ||
        exists i :: 0 <= i < |t[s].props| && PropMentions(t[s].isChoice, t[s].props[i], d))
  {
    if s in t {
      SymsContained(t[s].revDep, d);
      PropsMention(t[s].isChoice, t[s].props, d);
    }
  }

  lemma {:induction false} SymsContained(e: Option<Expr>, d: Sym)
    ensures d in ExprSyms(e) <==> ContainsSymbol(e, d)
    decreases SizeOpt(e)
  {
    match e
    case None =>
    case Some(Symbol(_)) =>
    case Some(Compare(_, _, _)) =>
    case Some(Not(x)) => SymsContained(Some(x), d);
    case Some(Binary(_, l, r)) => SymsContained(Some(l), d); SymsContained(Some(r), d);
  }

  lemma {:induction false} PropsMention(isChoice: bool, props: seq<Property>, d: Sym)
    ensures d in PropsSyms(isChoice, props) <==> exists i :: 0 <= i < |props| && PropMentions(isChoice, props[i], d)
  {
    if props != [] {
      var n := |props| - 1;
      SymsContained(props[n].visible, d);
      SymsContained(props[n].expr, d);
      PropsMention(isChoice, props[..n], d);
      if i :| 0 <= i < n && PropMentions(isChoice, props[..n][i], d) {
        assert PropMentions(isChoice, props[i], d);
      }
      if i :| 0 <= i < |props| && PropMentions(isChoice, props[i], d) && i < n {
        assert PropMentions(isChoice, props[..n][i], d);
      }
    }
  }

  ghost predicate IsPath(t: Table, p: seq<Sym>) {
    forall i :: 0 < i < |p| ==> p[i] in Deps(t, p[i - 1])
  }

  ghost predicate Repeats(p: seq<Sym>) {
    exists i, j :: 0 <= i < j < |p| && p[i] == p[j]
  }

  /** A path from s runs into a cycle. */
  ghost predicate Recursive(t: Table, s: Sym) {
    exists p :: |p| > 0 && p[0] == s && IsPath(t, p) && Repeats(p)
  }

  ghost predicate HasCycle(t: Table) {
    exists p :: |p| > 1 && IsPath(t, p) && p[0] == p[|p| - 1]
  }

  lemma RecursiveUp(t: Table, s: Sym, d: Sym)
    requires d in Deps(t, s) && Recursive(t, d)
    ensures Recursive(t, s)
  {
    hide Deps;
    var p :| |p| > 0 && p[0] == d && IsPath(t, p) && Repeats(p);
    var i, j :| 0 <= i < j < |p| && p[i] == p[j];
    var q := [s] + p;
    assert q[i + 1] == q[j + 1];
    assert IsPath(t, q);
  }

  lemma RecursiveDown(t: Table, s: Sym)
    requires Recursive(t, s)
    ensures exists d :: d in Deps(t, s) && Recursive(t, d)
  {
    hide Deps;
    var p :| |p| > 0 && p[0] == s && IsPath(t, p) && Repeats(p);
    var i, j :| 0 <= i < j < |p| && p[i] == p[j];
    var d := p[1];
    assert d in Deps(t, s);
    if i > 0 {
      var q := p[1..];
      assert q[i - 1] == q[j - 1];
      assert q[0] == d && IsPath(t, q) && Repeats(q);
    } else {
      var q := p[1..j + 1] + [d];
      assert q[0] == d == q[|q| - 1] && Repeats(q);
      CloseCycle(t, p, j, q);
    }
  }

  lemma CloseCycle(t: Table, p: seq<Sym>, j: nat, q: seq<Sym>)
    requires IsPath(t, p) && 0 < j < |p| && p[0] == p[j]
    requires q == p[1..j + 1] + [p[1]]
    ensures IsPath(t, q)
  {
    hide Deps;
    forall i | 0 < i < |q| ensures q[i] in Deps(t, q[i - 1]) {
      assert q[i - 1] == p[i];
      if i < j {
        assert q[i] == p[i + 1];
      } else {
        assert q[i] == p[1] && p[i] == p[0];
      }
    }
  }

  /** The graph has a cycle exactly when some symbol of the table runs into one. */
  lemma CycleIsRecursive(t: Table)
    ensures HasCycle(t) <==> exists s :: s in t && Recursive(t, s)
  {
    if HasCycle(t) {
      var p :| |p| > 1 && IsPath(t, p) && p[0] == p[|p| - 1];
      assert Repeats(p);
      assert p[1] in Deps(t, p[0]);
      assert p[0] in t && Recursive(t, p[0]);
    }
    if s :| s in t && Recursive(t, s) {
      RecursiveCycle(t, s);
    }
  }

  lemma RecursiveCycle(t: Table, s: Sym)
    requires Recursive(t, s)
    ensures HasCycle(t)
  {
    hide Deps;
    var p :| |p| > 0 && p[0] == s && IsPath(t, p) && Repeats(p);
    var i, j :| 0 <= i < j < |p| && p[i] == p[j];
    var q := p[i..j + 1];
    forall k | 0 < k < |q| ensures q[k] in Deps(t, q[k - 1]) {
      assert q[k] == p[i + k] && q[k - 1] == p[i + k - 1];
    }
    assert q[0] == q[|q| - 1];
  }

  lemma PushPath(t: Table, stack: seq<Sym>, s: Sym)
    requires IsPath(t, stack)
    requires stack != [] ==> s in Deps(t, stack[|stack| - 1])
    ensures IsPath(t, stack + [s])
    ensures (set x | x in stack + [s]) == (set x | x in stack) + {s}
  {
    hide Deps;
  }

  /** A dependency that is still being checked closes a cycle. */
  lemma StackCycle(t: Table, stack: seq<Sym>, s: Sym)
    requires IsPath(t, stack) && s in stack
    requires s in Deps(t, stack[|stack| - 1])
    ensures Recursive(t, s)
  {
    hide Deps;
    var i :| 0 <= i < |stack| && stack[i] == s;
    var p := stack[i..] + [s];
    assert p[0] == p[|p| - 1] && Repeats(p);
    assert IsPath(t, p);
  }

  class DepChecker {
    const table: Table

    /** The symbols with SYMBOL_CHECK, SYMBOL_CHECKED and SYMBOL_CHECK_DONE set. */
    var check: set<Sym>
    var checked: set<Sym>
    var done: set<Sym>

    /** Warnings printed so far. */
    var warnings: nat

    constructor (t: Table)
      ensures table == t && check == {} && checked == {} && done == {} && warnings == 0
    {
      table := t;
      check, checked, done, warnings := {}, {}, {}, 0;
    }

    /** The symbols being checked form a path. */
    ghost predicate OnStack(stack: seq<Sym>)
      reads this
    {
      IsPath(table, stack) && check == set s | s in stack
    }

    ghost predicate DoneSafe()
      reads this
    {
      forall d :: d in done ==> !Recursive(table, d)
    }

    /** sym_check_expr_deps: finds a recursion exactly when a symbol of e runs into a cycle,
        provided no symbol was marked as done that does. */
    method CheckExprDeps(e: Option<Expr>, ghost stack: seq<Sym>) returns (r: Option<Sym>)
      requires OnStack(stack)
      requires stack != [] && ExprSyms(e) <= Deps(table, stack[|stack| - 1])
      modifies this
      ensures check == old(check) && done == old(done) && old(checked) <= checked
      ensures warnings == old(warnings) + if r.Some? then 1 else 0
      ensures r.Some? ==> Recursive(table, r.value) && exists s :: s in ExprSyms(e) && Recursive(table, s)
      ensures r.None? && DoneSafe() ==>
        (forall s :: s in ExprSyms(e) ==> !Recursive(table, s)) &&
        (forall s :: s in checked && s !in old(checked) ==> !Recursive(table, s))
      decreases table.Keys - check, 1, SizeOpt(e)
    {
      match e
      case None =>
        r := None;
      case Some(Binary(_, left, right)) =>
        r := CheckExprDeps(Some(left), stack);
        if r.None? {
          r := CheckExprDeps(Some(right), stack);
        }
      case Some(Not(x)) =>
        r := CheckExprDeps(Some(x), stack);
      case Some(Compare(_, l, rhs)) =>
        r := CheckDeps(l, stack);
        if r.None? {
          r := CheckDeps(rhs, stack);
        }
      case Some(Symbol(s)) =>
        r := CheckDeps(s, stack);
    }

    /** sym_check_deps: depth-first search from s. */
    method CheckDeps(s: Sym, ghost stack: seq<Sym>) returns (r: Option<Sym>)
      requires OnStack(stack)
      requires stack != [] ==> s in Deps(table, stack[|stack| - 1])
      modifies this
      ensures check == old(check) && done == old(done) && old(checked) <= checked
      ensures warnings == old(warnings) + if r.Some? then 1 else 0
      ensures r.Some? ==> Recursive(table, r.value) && Recursive(table, s)
      ensures s in done + check + checked
      ensures r.None? && DoneSafe() ==>
        !Recursive(table, s) &&
        forall c :: c in checked && c !in old(checked) ==> !Recursive(table, c)
      decreases table.Keys - check, 0
    {
      if s in done {
        return None;
      }
      if s in check {
        warnings := warnings + 1;
        StackCycle(table, stack, s);
        return Some(s);
      }
      check := check + {s};
      checked := checked + {s};
      r := None;
      if s in table {
        ghost var stack' := stack + [s];
        PushPath(table, stack, s);
        assert s in table.Keys - old(check) && s !in table.Keys - check;
        r := CheckEntry(s, table[s], stack');
      }
      check := check - {s};
      hide Deps;
      if r.None? && DoneSafe() && Recursive(table, s) {
        RecursiveDown(table, s);
      }
      if r.Some? {
        ghost var d :| d in Deps(table, s) && Recursive(table, d);
        RecursiveUp(table, s, d);
      }
    }

    /** The body of sym_check_deps: the reverse dependencies, then the properties in order. */
    method CheckEntry(s: Sym, entry: Entry, ghost stack: seq<Sym>) returns (r: Option<Sym>)
      requires s in table && entry == table[s]
      requires OnStack(stack) && stack != [] && stack[|stack| - 1] == s
      modifies this
      ensures check == old(check) && done == old(done) && old(checked) <= checked
      ensures warnings == old(warnings) + if r.Some? then 1 else 0
      ensures r.Some? ==> Recursive(table, r.value) && exists d :: d in Deps(table, s) && Recursive(table, d)
      ensures r.None? && DoneSafe() ==>
        (forall d :: d in Deps(table, s) ==> !Recursive(table, d)) &&
        forall c :: c in checked && c !in old(checked) ==> !Recursive(table, c)
      decreases table.Keys - check, 2
    {
      hide Recursive, ExprSyms, PropsSyms;
      r := CheckExprDeps(entry.revDep, stack);
      PropsNone(entry.isChoice, entry.props);
      var i := 0;
      while i < |entry.props| && r.None?
        invariant i <= |entry.props|
        invariant check == old(check) && done == old(done) && old(checked) <= checked
        invariant warnings == old(warnings) + if r.Some? then 1 else 0
        invariant r.Some? ==> Recursive(table, r.value) && exists d :: d in Deps(table, s) && Recursive(table, d)
        invariant r.None? && DoneSafe() ==>
          (forall d :: d in ExprSyms(entry.revDep) + PropsSyms(entry.isChoice, entry.props[..i]) ==> !Recursive(table, d)) &&
          forall c :: c in checked && c !in old(checked) ==> !Recursive(table, c)
      {
        var prop := entry.props[i];
        PropsSymsPrefix(entry.isChoice, entry.props, i);
        i := i + 1;
        if prop.kind == PChoice {
          continue;
        }
        r := CheckExprDeps(prop.visible, stack);
        if r.Some? || prop.kind != PDefault || entry.isChoice {
          continue;
        }
        r := CheckExprDeps(prop.expr, stack);
      }
      assert entry.props[..|entry.props|] == entry.props;
    }

    /** The loop of conf_parse over all symbols: something is reported exactly when one of them
        runs into a cycle; over the whole table, exactly when the dependency graph has a cycle. */
    method CheckAll(order: seq<Sym>)
      requires check == {} && checked == {} && done == {} && warnings == 0
      modifies this
      ensures check == {} && forall s :: s in order ==> s in checked
      ensures warnings > 0 <==> exists s :: s in order && Recursive(table, s)
      ensures (set s | s in order) == table.Keys ==> (warnings > 0 <==> HasCycle(table))
    {
      var i := 0;
      while i < |order|
        invariant i <= |order|
        invariant check == {} && done <= checked && forall s :: s in order[..i] ==> s in checked
        invariant warnings == 0 ==> DoneSafe() && forall c :: c in checked ==> !Recursive(table, c)
        invariant warnings == 0 ==> forall s :: s in order[..i] ==> !Recursive(table, s)
        invariant warnings > 0 ==> exists s :: s in order && Recursive(table, s)
      {
        var s := order[i];
        var r: Option<Sym> := None;
        assert OnStack([]);
        if s !in checked {
          r := CheckDeps(s, []);
        }
        if r.None? {
          done := done + {s};
        }
        assert order[..i + 1] == order[..i] + [s];
        i := i + 1;
      }
      assert order[..|order|] == order;
      CycleIsRecursive(table);
      if (set s | s in order) == table.Keys {
        assert forall s :: s in order <==> s in (set s | s in order);
      }
    }
  }

  lemma PropsNone(isChoice: bool, props: seq<Property>)
    ensures PropsSyms(isChoice, props[..0]) == {} && ExprSyms(None) == {}
  {
  }

  lemma PropsSymsPrefix(isChoice: bool, props: seq<Property>, i: nat)
    requires i < |props|
    ensures PropsSyms(isChoice, props[..i + 1]) == PropsSyms(isChoice, props[..i]) + PropSyms(isChoice, props[i])
    ensures PropsSyms(isChoice, props[..i + 1]) <= PropsSyms(isChoice, props)
    decreases |props|
  {
    assert props[..i + 1][..i] == props[..i];
    if i + 1 < |props| {
      var front := props[..|props| - 1];
      assert front[..i + 1] == props[..i + 1] && front[..i] == props[..i];
      PropsSymsPrefix(isChoice, front, i);
    } else {
      assert props[..i + 1] == props;
    }
  }
}
