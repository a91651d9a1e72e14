/** Negation normal form: expr_transform. */
module ExprTransform {
  import opened Tristate
  import opened Expr

  /** Termination weight: ! doubles its operand. */
  function Weight(e: Expr): (w: nat)
    ensures w >= 1
  {
    match e
    case Symbol(_) => 1
    case Compare(_, _, _) => 2
    case Not(x) => 2 * Weight(x)
    case Binary(_, l, r) => 1 + Weight(l) + Weight(r)
  }

  predicate IsConst(s: Sym) {
    s == Y || s == M || s == N
  }

  function Flip(rel: Rel): Rel {
    if rel == Equal then Unequal else Equal
  }

  function FlipConst(s: Sym): Sym
    requires IsConst(s)
  {
    match s
    case Y => N
    case M => M
    case N => Y
  }

  /** A comparison of a boolean symbol with y, m or n becomes the symbol, its negation or a constant. */
  function TransformCompare(e: Expr): (r: Expr)
    requires e.Compare?
    ensures Weight(r) <= 2
  {
    if !e.lhs.Bool? then e
    else if e.rel == Equal then
      match e.rhs
      case N => Not(Symbol(e.lhs))
      case M => Symbol(N)
      case Y => Symbol(e.lhs)
      case _ => e
    else
      match e.rhs
      case N => Symbol(e.lhs)
      case M => Symbol(Y)
      case Y => Not(Symbol(e.lhs))
      case _ => e
  }

  function Transform(e: Expr): (r: Expr)
    ensures Weight(r) <= Weight(e)
    decreases Weight(e)
  {
    match e
    case Symbol(_) => e
    case Compare(_, _, _) => TransformCompare(e)
    case Binary(op, l, r) => Binary(op, Transform(l), Transform(r))
    case Not(x) =>
      match Transform(x)
      case Not(y) => Transform(y)
      case Compare(rel, l, r) => Compare(Flip(rel), l, r)
      case Binary(op, l, r) =>
        assert Weight(Not(l)) == 2 * Weight(l) && Weight(Not(r)) == 2 * Weight(r);
        Transform(Binary(Dual(op), Not(l), Not(r)))
      case Symbol(s) => if IsConst(s) then Symbol(FlipConst(s)) else Not(Symbol(s))
  }

  /** Negation normal form: ! only on symbols other than y, m, n, and no boolean symbol
      compared with one of these. */
  predicate IsNnf(e: Expr) {
    match e
    case Symbol(_) => true
    case Compare(_, l, r) => !(l.Bool? && IsConst(r))
    case Not(x) => x.Symbol? && !IsConst(x.sym)
    case Binary(_, l, r) => IsNnf(l) && IsNnf(r)
  }

  /** The reference definition: push the sign down in one pass. */
  function Nnf(e: Expr, positive: bool): Expr {
    match e
    case Symbol(s) =>
      if positive then e else if IsConst(s) then Symbol(FlipConst(s)) else Not(e)
    case Compare(rel, l, r) => TransformCompare(Compare(if positive then rel else Flip(rel), l, r))
    case Not(x) => Nnf(x, !positive)
    case Binary(op, l, r) => Binary(if positive then op else Dual(op), Nnf(l, positive), Nnf(r, positive))
  }

  lemma {:induction false} NnfNormal(e: Expr, positive: bool)
    ensures IsNnf(Nnf(e, positive))
  {
    match e
    case Symbol(_) =>
    case Compare(_, _, _) =>
    case Not(x) => NnfNormal(x, !positive);
    case Binary(_, l, r) => NnfNormal(l, positive); NnfNormal(r, positive);
  }

  /** Exact for all three values, because a boolean symbol is never m. */
  lemma {:induction false} NnfValue(e: Expr, positive: bool, env: Env)
    ensures Eval(Nnf(e, positive), env) == if positive then Eval(e, env) else Complement(Eval(e, env))
  {
    match e
    case Symbol(_) =>
    case Compare(_, _, _) =>
    case Not(x) => NnfValue(x, !positive, env);
    case Binary(op, l, r) =>
      NnfValue(l, positive, env);
      NnfValue(r, positive, env);
  }

  lemma {:induction false} NnfTwice(e: Expr, first: bool, second: bool)
    ensures Nnf(Nnf(e, first), second) == Nnf(e, first == second)
  {
    match e
    case Symbol(_) =>
    case Compare(_, _, _) =>
    case Not(x) => NnfTwice(x, !first, second);
    case Binary(op, l, r) => NnfTwice(l, first, second); NnfTwice(r, first, second);
  }

  /** The repeated rewriting of expr_transform computes the one-pass normal form. */
  lemma {:induction false} TransformIsNnf(e: Expr)
    ensures Transform(e) == Nnf(e, true)
    decreases Weight(e)
  {
    match e
    case Symbol(_) =>
    case Compare(_, _, _) =>
    case Binary(op, l, r) => TransformIsNnf(l); TransformIsNnf(r);
    case Not(x) =>
      TransformIsNnf(x);
      NnfNormal(x, true);
      NnfTwice(x, true, false);
      match Transform(x)
      case Not(y) => TransformIsNnf(y);
      case Compare(rel, l, r) =>
      case Symbol(s) =>
      case Binary(op, l, r) =>
        assert Weight(Not(l)) == 2 * Weight(l) && Weight(Not(r)) == 2 * Weight(r);
        TransformIsNnf(Binary(Dual(op), Not(l), Not(r)));
  }

  lemma {:induction false} TransformValue(e: Expr, env: Env)
    ensures Eval(Transform(e), env) == Eval(e, env)
  {
    TransformIsNnf(e);
    NnfValue(e, true, env);
  }

  /** The results are the negation normal forms, and these are left alone. */
  lemma {:induction false} TransformFixpoint(e: Expr)
    ensures IsNnf(Transform(e))
    ensures IsNnf(e) <==> Transform(e) == e
  {
    TransformIsNnf(e);
    NnfNormal(e, true);
    if IsNnf(e) {
      NnfUnchanged(e);
    }
  }

  lemma {:induction false} NnfUnchanged(e: Expr)
    requires IsNnf(e)
    ensures Nnf(e, true) == e
  {
    match e
    case Symbol(_) =>
    case Compare(_, _, _) =>
    case Not(x) =>
    case Binary(_, l, r) => NnfUnchanged(l); NnfUnchanged(r);
  }
}
