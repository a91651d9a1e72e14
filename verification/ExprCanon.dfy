/** What expr_eq decides: equality up to the order and grouping of && and || operands. */
module ExprCanon {
  import opened Expr
  import opened ExprYn

  /** A formula with the operands of every && and || kept as a multiset. */
  datatype Key =
    | SymKey(sym: Sym)
    | CompareKey(rel: Rel, lhs: Sym, rhs: Sym)
    | NotKey(arg: Key)
    | OpKey(op: Op, operands: multiset<Key>)

  ghost function Canon(e: Expr): Key
    decreases e, 0
  {
    match e
    case Symbol(s) => SymKey(s)
    case Compare(rel, l, r) => CompareKey(rel, l, r)
    case Not(x) => NotKey(Canon(x))
    case Binary(op, l, r) => OpKey(op, Ops(op, l) + Ops(op, r))
  }

  /** The operands of e seen as an op-formula, neutral constants left out. */
  ghost function Ops(op: Op, e: Expr): multiset<Key>
    decreases e, 1
  {
    if HasOp(e, op) then Ops(op, e.left) + Ops(op, e.right)
    else if e == Symbol(Neutral(op)) then multiset{}
    else multiset{Canon(e)}
  }

  /** SYMBOL_YES or SYMBOL_NO is set: the constants y and n and every quoted constant. */
  predicate YesNoFlag(s: Sym) {
    s == Y || s == N || s.Quoted?
  }

  predicate Flagged(e: Expr) {
    e.Symbol? && YesNoFlag(e.sym)
  }

  /** No && or || has y, n or a quoted constant as an operand. */
  predicate Tidy(e: Expr) {
    match e
    case Symbol(_) => true
    case Compare(_, _, _) => true
    case Not(x) => Tidy(x)
    case Binary(_, l, r) => Tidy(l) && Tidy(r) && !Flagged(l) && !Flagged(r)
  }

  /** The operands of e seen as an op-formula are tidy; neutral ones may mark removed operands. */
  predicate Clean(op: Op, e: Expr) {
    if HasOp(e, op) then Clean(op, e.left) && Clean(op, e.right)
    else e == Symbol(Neutral(op)) || (Tidy(e) && !Flagged(e))
  }

  lemma {:induction false} TidyIsClean(op: Op, e: Expr)
    requires Tidy(e) && !Flagged(e)
    ensures Clean(op, e)
  {
    if HasOp(e, op) {
      TidyIsClean(op, e.left);
      TidyIsClean(op, e.right);
    }
  }

  lemma {:induction false} TidyIsReduced(e: Expr)
    requires Tidy(e)
    ensures EliminateYn(e) == e
  {
    if e.Binary? {
      TidyIsReduced(e.left);
      TidyIsReduced(e.right);
    }
  }

  /** Constant elimination keeps the operands of a clean formula, and collapses it to the
      neutral constant exactly when none is left. */
  lemma {:induction false} CleanEliminate(op: Op, e: Expr)
    requires Clean(op, e)
    ensures Ops(op, EliminateYn(e)) == Ops(op, e)
    ensures EliminateYn(e) == Symbol(Neutral(op)) <==> Ops(op, e) == multiset{}
    ensures EliminateYn(e) != Symbol(Absorbing(op))
  {
    if HasOp(e, op) {
      CleanEliminate(op, e.left);
      CleanEliminate(op, e.right);
    } else if e != Symbol(Neutral(op)) {
      TidyIsReduced(e);
      assert Canon(e) in Ops(op, e);
    }
  }

  lemma {:induction false} CleanStays(op: Op, e: Expr)
    requires Clean(op, e)
    ensures Clean(op, EliminateYn(e))
  {
    if HasOp(e, op) {
      CleanStays(op, e.left);
      CleanStays(op, e.right);
    } else {
      if e != Symbol(Neutral(op)) {
        TidyIsReduced(e);
      }
    }
  }
}
