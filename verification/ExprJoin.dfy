/** The rewrite rules of expr_join_or and expr_join_and for two different operands. */
module ExprJoin {
  import opened Options
  import opened Expr
  import opened ExprTransform

  /** The symbol a literal is about. */
  function HeadSym(e: Expr): Sym
    requires e.Symbol? || e.Compare?
  {
    if e.Symbol? then e.sym else e.lhs
  }

  /** The one boolean or tristate symbol both operands are about, if the rules apply at all.
      A comparison below ! is admitted on the first operand only. */
  function CommonSym(e1: Expr, e2: Expr): Option<Sym> {
    if e1.Binary? || e2.Binary? then None
    else if e1.Not? && (e1.arg.Binary? || e1.arg.Not?) then None
    else if e2.Not? && !e2.arg.Symbol? then None
    else
      var sym1 := HeadSym(if e1.Not? then e1.arg else e1);
      var sym2 := HeadSym(if e2.Not? then e2.arg else e2);
      if sym1 != sym2 || !(sym1.Bool? || sym1.Tris?) then None else Some(sym1)
  }

  /** Both compare with rel, one with a and the other with b. */
  predicate Pair(rel: Rel, e1: Expr, e2: Expr, a: Sym, b: Sym) {
    e1.Compare? && e2.Compare? && e1.rel == rel && e2.rel == rel &&
    ((e1.rhs == a && e2.rhs == b) || (e1.rhs == b && e2.rhs == a))
  }

  /** One is the bare symbol, the other compares it by rel with c. */
  predicate WithSymbol(rel: Rel, e1: Expr, e2: Expr, c: Sym) {
    (e1.Symbol? && e2.Compare? && e2.rel == rel && e2.rhs == c) ||
    (e2.Symbol? && e1.Compare? && e1.rel == rel && e1.rhs == c)
  }

  /** One of the bits of SYMBOL_CONST is set. */
  predicate ConstFlag(s: Sym) {
    IsConst(s) || s.Quoted?
  }

  function JoinOrRule(e1: Expr, e2: Expr): Option<Expr> {
    match CommonSym(e1, e2)
    case None => None
    case Some(s) =>
      if s.Tris? && Pair(Equal, e1, e2, Y, M) then Some(Compare(Unequal, s, N))
      else if s.Tris? && Pair(Equal, e1, e2, Y, N) then Some(Compare(Unequal, s, M))
      else if s.Tris? && Pair(Equal, e1, e2, M, N) then Some(Compare(Unequal, s, Y))
      else if s.Bool? && ((e1.Not? && e1.arg.Symbol? && e2.Symbol?) || (e2.Not? && e2.arg.Symbol? && e1.Symbol?)) then
        Some(Symbol(Y))
      else None
  }

  /** (a='b') && (a!='c') is n or (a='b'), for constants b and c. */
  function JoinEqualUnequal(s: Sym, same: Expr, other: Expr): Option<Expr>
    requires same.Compare? && other.Compare?
  {
    if ConstFlag(same.rhs) && ConstFlag(other.rhs) then
      Some(if same.rhs != other.rhs then Compare(Equal, s, same.rhs) else Symbol(N))
    else None
  }

  function JoinAndRule(e1: Expr, e2: Expr): Option<Expr> {
    match CommonSym(e1, e2)
    case None => None
    case Some(s) =>
      if WithSymbol(Equal, e1, e2, Y) then Some(Compare(Equal, s, Y))
      else if WithSymbol(Unequal, e1, e2, N) then Some(Symbol(s))
      else if !s.Tris? then None
      else if e1.Compare? && e2.Compare? && e1.rel == Equal && e2.rel == Unequal then JoinEqualUnequal(s, e1, e2)
      else if e1.Compare? && e2.Compare? && e1.rel == Unequal && e2.rel == Equal then JoinEqualUnequal(s, e2, e1)
      else if Pair(Unequal, e1, e2, Y, N) then Some(Compare(Equal, s, M))
      else if Pair(Unequal, e1, e2, Y, M) then Some(Compare(Equal, s, N))
      else if Pair(Unequal, e1, e2, M, N) then Some(Compare(Equal, s, Y))
      else None
  }

  function JoinRule(op: Op, e1: Expr, e2: Expr): (r: Option<Expr>)
    ensures r.Some? ==> Size(r.value) == 1
  {
    if op == OrOp then JoinOrRule(e1, e2) else JoinAndRule(e1, e2)
  }

  /** Every rule is exact for all three values. */
  lemma JoinRuleValue(op: Op, e1: Expr, e2: Expr, env: Env)
    requires JoinRule(op, e1, e2).Some?
    ensures Eval(JoinRule(op, e1, e2).value, env) == Apply(op, Eval(e1, env), Eval(e2, env))
  {
    if op == OrOp {
      JoinOrValue(e1, e2, env);
    } else {
      JoinAndValue(e1, e2, env);
    }
  }

  /** No rule leaves negation normal form. */
  lemma JoinRuleNnf(op: Op, e1: Expr, e2: Expr)
    requires JoinRule(op, e1, e2).Some? && IsNnf(e1) && IsNnf(e2)
    ensures IsNnf(JoinRule(op, e1, e2).value)
  {
    var s := CommonSym(e1, e2).value;
    assert WithSymbol(Equal, e1, e2, Y) ==> s.Tris?;
  }

  lemma JoinOrValue(e1: Expr, e2: Expr, env: Env)
    requires JoinOrRule(e1, e2).Some?
    ensures Eval(JoinOrRule(e1, e2).value, env) == Apply(OrOp, Eval(e1, env), Eval(e2, env))
  {
    var s := CommonSym(e1, e2).value;
    assert SymText(s, env) == TriText(SymTri(s, env));
  }

  lemma JoinAndValue(e1: Expr, e2: Expr, env: Env)
    requires JoinAndRule(e1, e2).Some?
    ensures Eval(JoinAndRule(e1, e2).value, env) == Apply(AndOp, Eval(e1, env), Eval(e2, env))
  {
    var s := CommonSym(e1, e2).value;
    assert SymText(s, env) == TriText(SymTri(s, env));
  }

  /** The third of the constants y, m and n. */
  function Third(c: Sym, d: Sym): Sym {
    if c != Y && d != Y then Y else if c != M && d != M then M else N
  }

  /** Two comparisons of a tristate symbol with constants are joined whenever they are both = under
      ||, or not both = under &&, and so is the symbol itself with =y and !=n, in either order. */
  lemma JoinTristate(s: Sym, c: Sym, d: Sym)
    requires s.Tris? && IsConst(c) && IsConst(d) && c != d
    ensures JoinRule(OrOp, Compare(Equal, s, c), Compare(Equal, s, d)) == Some(Compare(Unequal, s, Third(c, d)))
    ensures JoinRule(AndOp, Compare(Unequal, s, c), Compare(Unequal, s, d)) == Some(Compare(Equal, s, Third(c, d)))
    ensures JoinRule(AndOp, Compare(Equal, s, c), Compare(Unequal, s, d)) == Some(Compare(Equal, s, c))
    ensures JoinRule(AndOp, Compare(Unequal, s, d), Compare(Equal, s, c)) == Some(Compare(Equal, s, c))
    ensures JoinRule(AndOp, Compare(Equal, s, c), Compare(Unequal, s, c)) == Some(Symbol(N))
    ensures JoinRule(AndOp, Compare(Unequal, s, c), Compare(Equal, s, c)) == Some(Symbol(N))
    ensures JoinRule(AndOp, Symbol(s), Compare(Equal, s, Y)) == Some(Compare(Equal, s, Y))
    ensures JoinRule(AndOp, Compare(Equal, s, Y), Symbol(s)) == Some(Compare(Equal, s, Y))
    ensures JoinRule(AndOp, Symbol(s), Compare(Unequal, s, N)) == Some(Symbol(s))
    ensures JoinRule(AndOp, Compare(Unequal, s, N), Symbol(s)) == Some(Symbol(s))
  {
  }

  /** A boolean symbol and its negation are joined under ||. */
  lemma JoinBoolean(s: Sym)
    requires s.Bool?
    ensures JoinRule(OrOp, Symbol(s), Not(Symbol(s))) == JoinRule(OrOp, Not(Symbol(s)), Symbol(s)) == Some(Symbol(Y))
  {
  }
}
