/** Comparison pushing and symbol dependence: expr_trans_compare, expr_trans_bool,
    expr_contains_symbol, expr_depends_symbol. */
module ExprCompare {
  import opened Options
  import opened Tristate
  import opened Expr
  import opened ExprTransform
  import opened ExprPath

  /** The formula meant to say "e rel sym". Testing a && or || against m leaves it as it is. */
  function TransCompare(e: Option<Expr>, rel: Rel, sym: Sym): Expr
    requires IsConst(sym)
    decreases SizeOpt(e)
  {
    match e
    case None => if rel == Unequal then Not(Symbol(sym)) else Symbol(sym)
    case Some(Symbol(s)) => Compare(rel, s, sym)
    case Some(Not(x)) => TransCompare(Some(x), Flip(rel), sym)
    case Some(Compare(_, _, _)) =>
      if sym == M then Symbol(if rel == Equal then N else Y)
      else if (rel == Equal) == (sym == Y) then e.value
      else Not(e.value)
    case Some(Binary(op, l, r)) =>
      var l' := TransCompare(Some(l), Equal, sym);
      var r' := TransCompare(Some(r), Equal, sym);
      var both := if sym == Y then Binary(op, l', r')
                  else if sym == N then Binary(Dual(op), l', r')
                  else e.value;
      if rel == Unequal then Not(both) else both
  }

  /** Every symbol used as a truth value is boolean, tristate, y, m or n. */
  predicate TruthLeaves(e: Expr) {
    match e
    case Symbol(s) => !s.Other? && !s.Quoted?
    case Compare(_, _, _) => true
    case Not(x) => TruthLeaves(x)
    case Binary(_, l, r) => TruthLeaves(l) && TruthLeaves(r)
  }

  /** No operand of ! has the value m. */
  predicate NotsTwoValued(e: Expr, env: Env) {
    match e
    case Symbol(_) => true
    case Compare(_, _, _) => true
    case Not(x) => Eval(x, env) != Mod && NotsTwoValued(x, env)
    case Binary(_, l, r) => NotsTwoValued(l, env) && NotsTwoValued(r, env)
  }

  /** The pushed-down test against y or n never says m, whatever the input. */
  lemma {:induction false} TransCompareTwoValued(e: Option<Expr>, rel: Rel, sym: Sym, env: Env)
    requires sym == Y || sym == N
    ensures Eval(TransCompare(e, rel, sym), env) != Mod
    decreases SizeOpt(e)
  {
    match e
    case None =>
    case Some(Symbol(_)) =>
    case Some(Compare(_, _, _)) =>
    case Some(Not(x)) => TransCompareTwoValued(Some(x), Flip(rel), sym, env);
    case Some(Binary(_, l, r)) =>
      TransCompareTwoValued(Some(l), Equal, sym, env);
      TransCompareTwoValued(Some(r), Equal, sym, env);
  }

  lemma {:induction false} TransCompareExact(e: Option<Expr>, rel: Rel, sym: Sym, env: Env)
    requires sym == Y || sym == N
    requires e.Some? ==> TruthLeaves(e.value) && NotsTwoValued(e.value, env)
    ensures Eval(TransCompare(e, rel, sym), env) == Test(rel, EvalOpt(e, env) == SymTri(sym, env))
    decreases SizeOpt(e)
  {
    match e
    case None =>
    case Some(Symbol(_)) =>
    case Some(Compare(_, _, _)) =>
    case Some(Not(x)) => TransCompareExact(Some(x), Flip(rel), sym, env);
    case Some(Binary(_, l, r)) =>
      TransCompareExact(Some(l), Equal, sym, env);
      TransCompareExact(Some(r), Equal, sym, env);
  }

  /** Where exactness stops: a ! over an exactly tested operand is tested exactly if and only if
      the operand is not m. */
  lemma TransCompareNot(x: Expr, rel: Rel, sym: Sym, env: Env)
    requires sym == Y || sym == N
    requires TruthLeaves(x) && NotsTwoValued(x, env)
    ensures Eval(TransCompare(Some(Not(x)), rel, sym), env) == Test(rel, Eval(Not(x), env) == SymTri(sym, env))
       <==> Eval(x, env) != Mod
  {
    TransCompareExact(Some(x), Flip(rel), sym, env);
  }

  /** The test of a symbol or a comparison against m is exact. */
  lemma TransCompareModLiteral(e: Expr, rel: Rel, env: Env)
    requires e.Symbol? || e.Compare?
    requires TruthLeaves(e)
    ensures Eval(TransCompare(Some(e), rel, M), env) == Test(rel, Eval(e, env) == Mod)
  {
  }

  /** The same for the test against m, which && and || get right only when they are n. */
  lemma TransCompareMod(op: Op, l: Expr, r: Expr, rel: Rel, env: Env)
    ensures Eval(TransCompare(Some(Binary(op, l, r)), rel, M), env)
         == Test(rel, Eval(Binary(op, l, r), env) == Mod)
       <==> Eval(Binary(op, l, r), env) == No
  {
    var e := Binary(op, l, r);
    assert TransCompare(Some(e), rel, M) == if rel == Unequal then Not(e) else e;
  }

  /** FOO!=n becomes FOO, for a tristate FOO. */
  function TransBool(e: Expr): Expr {
    match e
    case Symbol(_) => e
    case Compare(rel, l, r) => if rel == Unequal && l.Tris? && r == N then Symbol(l) else e
    case Not(x) => Not(TransBool(x))
    case Binary(op, l, r) => Binary(op, TransBool(l), TransBool(r))
  }

  /** No FOO!=n of a tristate FOO lies below a !. */
  predicate NoTestUnderNot(e: Expr) {
    match e
    case Symbol(_) => true
    case Compare(_, _, _) => true
    case Not(x) => TransBool(x) == x
    case Binary(_, l, r) => NoTestUnderNot(l) && NoTestUnderNot(r)
  }

  /** The value can only drop from y to m. */
  lemma {:induction false} TransBoolKeepsNotNo(e: Expr, env: Env)
    requires NoTestUnderNot(e)
    ensures Eval(TransBool(e), env) == Eval(e, env)
         || (Eval(e, env) == Yes && Eval(TransBool(e), env) == Mod)
  {
    if e.Binary? {
      TransBoolKeepsNotNo(e.left, env);
      TransBoolKeepsNotNo(e.right, env);
    }
  }

  /** Normal forms have no such test below a !, and the simplest formula with one becomes m where
      it was n. */
  lemma TransBoolCondition(e: Expr, name: string)
    ensures IsNnf(e) ==> NoTestUnderNot(e)
    ensures var bad := Not(Compare(Unequal, Tris(name), N));
            var env := Env({}, map[name := Mod], map[]);
            Eval(bad, env) == No && Eval(TransBool(bad), env) == Mod
  {
    if IsNnf(e) {
      NnfNoTestUnderNot(e);
    }
  }

  lemma {:induction false} NnfNoTestUnderNot(e: Expr)
    requires IsNnf(e)
    ensures NoTestUnderNot(e)
  {
    if e.Binary? {
      NnfNoTestUnderNot(e.left);
      NnfNoTestUnderNot(e.right);
    }
  }

  /** No FOO!=n of a tristate FOO occurs at all. */
  predicate TestFree(e: Expr) {
    match e
    case Symbol(_) => true
    case Compare(rel, l, r) => !(rel == Unequal && l.Tris? && r == N)
    case Not(x) => TestFree(x)
    case Binary(_, l, r) => TestFree(l) && TestFree(r)
  }

  /** Every such test is replaced, and nothing is changed but these. */
  lemma {:induction false} TransBoolTests(e: Expr)
    ensures TestFree(TransBool(e))
    ensures TransBool(e) == e <==> TestFree(e)
  {
    match e
    case Symbol(_) =>
    case Compare(_, _, _) =>
    case Not(x) => TransBoolTests(x);
    case Binary(_, l, r) => TransBoolTests(l); TransBoolTests(r);
  }

  predicate ContainsSymbol(e: Option<Expr>, s: Sym)
    decreases SizeOpt(e)
  {
    match e
    case None => false
    case Some(Symbol(t)) => t == s
    case Some(Compare(_, l, r)) => l == s || r == s
    case Some(Not(x)) => ContainsSymbol(Some(x), s)
    case Some(Binary(_, l, r)) => ContainsSymbol(Some(l), s) || ContainsSymbol(Some(r), s)
  }

  predicate DependsSymbol(e: Option<Expr>, s: Sym)
    decreases SizeOpt(e)
  {
    match e
    case None => false
    case Some(Symbol(t)) => t == s
    case Some(Compare(Equal, l, r)) => l == s && (r == Y || r == M)
    case Some(Compare(Unequal, l, r)) => l == s && r == N
    case Some(Not(x)) => false
    case Some(Binary(op, l, r)) => op == AndOp && (DependsSymbol(Some(l), s) || DependsSymbol(Some(r), s))
  }

  /** A formula that depends on s is n whenever s is n. */
  lemma {:induction false} DependsForces(e: Option<Expr>, s: Sym, env: Env)
    requires DependsSymbol(e, s)
    requires !s.Other? && !s.Quoted?
    requires EvalOpt(e, env) != No
    ensures SymTri(s, env) != No
    decreases SizeOpt(e)
  {
    match e
    case Some(Symbol(_)) =>
    case Some(Compare(_, _, _)) =>
    case Some(Binary(_, l, r)) =>
      if DependsSymbol(Some(l), s) {
        DependsForces(Some(l), s, env);
      } else {
        DependsForces(Some(r), s, env);
      }
  }

  /** A symbol that only ever has the value no does not satisfy e. */
  ghost predicate Forces(e: Expr, s: Sym) {
    forall env: Env :: Eval(e, env) != No ==> SymTri(s, env) != No
  }

  /** Of the comparisons of a boolean or tristate symbol with y, m or n, exactly those count that
      are n whenever the symbol is n. */
  lemma DependsLiteral(rel: Rel, s: Sym, c: Sym)
    requires (s.Bool? || s.Tris?) && IsConst(c)
    ensures DependsSymbol(Some(Compare(rel, s, c)), s) <==> Forces(Compare(rel, s, c), s)
  {
    var e := Compare(rel, s, c);
    if !DependsSymbol(Some(e), s) {
      var env := Env({}, map[], map[]);
      assert SymTri(s, env) == No && Eval(e, env) == Yes;
    } else {
      forall env: Env | Eval(e, env) != No ensures SymTri(s, env) != No {
        DependsForces(Some(e), s, env);
      }
    }
  }

  /** The operand of e as a && at p depends on s. */
  predicate DependsAt(e: Expr, p: Path, s: Sym) {
    IsTip(ShapeOf(AndOp, e), p) && DependsSymbol(Some(Get(AndOp, e, p)), s)
  }

  /** A formula depends on a symbol if and only if an operand of it as a && does, and that is the
      symbol itself or a comparison. */
  lemma {:induction false} DependsOperand(e: Expr, s: Sym)
    ensures DependsSymbol(Some(e), s) <==> exists p :: DependsAt(e, p, s)
    ensures !HasOp(e, AndOp) && DependsSymbol(Some(e), s) ==> e == Symbol(s) || (e.Compare? && e.lhs == s)
    ensures DependsSymbol(Some(Symbol(s)), s)
  {
    if HasOp(e, AndOp) {
      DependsOperand(e.left, s);
      DependsOperand(e.right, s);
      if p :| DependsAt(e.left, p, s) {
        assert ([false] + p)[1..] == p;
        assert DependsAt(e, [false] + p, s);
      }
      if p :| DependsAt(e.right, p, s) {
        assert ([true] + p)[1..] == p;
        assert DependsAt(e, [true] + p, s);
      }
      if p :| DependsAt(e, p, s) {
        assert DependsAt(if p[0] then e.right else e.left, p[1..], s);
      }
    } else {
      assert DependsSymbol(Some(e), s) ==> DependsAt(e, [], s);
    }
  }

  ghost predicate AlwaysForces(s: Sym) {
    forall e, env :: DependsSymbol(e, s) && EvalOpt(e, env) != No ==> SymTri(s, env) != No
  }

  /** The conclusion holds of exactly the symbols used as truth values: a string symbol may be set
      to "y", and a quoted constant differs from "n" without being one. */
  lemma DependsForcesExactly(s: Sym)
    ensures AlwaysForces(s) <==> !s.Other? && !s.Quoted?
  {
    if !s.Other? && !s.Quoted? {
      forall e, env | DependsSymbol(e, s) && EvalOpt(e, env) != No ensures SymTri(s, env) != No {
        DependsForces(e, s, env);
      }
    } else if s.Other? {
      var e, env := Some(Compare(Equal, s, Y)), Env({}, map[], map[s.name := TriText(Yes)]);
      assert DependsSymbol(e, s) && EvalOpt(e, env) == Yes && SymTri(s, env) == No;
    } else {
      var e, env := Some(Compare(Unequal, s, N)), Env({}, map[], map[]);
      assert DependsSymbol(e, s) && EvalOpt(e, env) == Yes && SymTri(s, env) == No;
    }
  }

  /** A formula's value depends only on the symbols it contains. */
  lemma {:induction false} ContainsDecides(e: Option<Expr>, env1: Env, env2: Env)
    requires forall s :: ContainsSymbol(e, s) ==> SymTri(s, env1) == SymTri(s, env2) && SymText(s, env1) == SymText(s, env2)
    ensures EvalOpt(e, env1) == EvalOpt(e, env2)
    decreases SizeOpt(e)
  {
    match e
    case None =>
    case Some(Symbol(t)) => assert ContainsSymbol(e, t);
    case Some(Compare(_, l, r)) => assert ContainsSymbol(e, l) && ContainsSymbol(e, r);
    case Some(Not(x)) => ContainsDecides(Some(x), env1, env2);
    case Some(Binary(_, l, r)) =>
      ContainsDecides(Some(l), env1, env2);
      ContainsDecides(Some(r), env1, env2);
  }
}
