/** Constant elimination: expr_eliminate_yn and expr_is_yes. */
module ExprYn {
  import opened Options
  import opened Expr

  predicate IsYes(e: Option<Expr>) {
    e == None || e.value == Symbol(Y)
  }

  predicate IsYn(e: Expr) {
    e == Symbol(Y) || e == Symbol(N)
  }

  function EliminateYn(e: Expr): Expr {
    match e
    case Binary(op, l, r) =>
      var l' := EliminateYn(l);
      var r' := EliminateYn(r);
      if l' == Symbol(Absorbing(op)) then Symbol(Absorbing(op))
      else if l' == Symbol(Neutral(op)) then r'
      else if r' == Symbol(Absorbing(op)) then Symbol(Absorbing(op))
      else if r' == Symbol(Neutral(op)) then l'
      else Binary(op, l', r')
    case _ => e
  }

  /** No operand of a && or || (reached without crossing a !) is the constant y or n. */
  predicate Reduced(e: Expr) {
    e.Binary? ==> !IsYn(e.left) && !IsYn(e.right) && Reduced(e.left) && Reduced(e.right)
  }

  lemma {:induction false} EliminateYnValue(e: Expr, env: Env)
    ensures Eval(EliminateYn(e), env) == Eval(e, env)
  {
    if e.Binary? {
      EliminateYnValue(e.left, env);
      EliminateYnValue(e.right, env);
    }
  }

  /** The result holds no more constants, and the input is shrunk exactly when it held one. */
  lemma {:induction false} EliminateYnReduces(e: Expr)
    ensures Reduced(EliminateYn(e))
    ensures Reduced(e) <==> EliminateYn(e) == e
    ensures !Reduced(e) ==> Size(EliminateYn(e)) < Size(e)
  {
    if e.Binary? {
      EliminateYnReduces(e.left);
      EliminateYnReduces(e.right);
    }
  }
}
