/** When duplicate elimination keeps every answer, and which forms of a formula it keeps. */
module ExprExact {
  import opened Options
  import opened Tristate
  import opened Expr
  import opened ExprYn
  import opened ExprTransform
  import opened ExprCanon
  import opened ExprPath
  import opened ExprJoin
  import opened ExprCancel
  import opened ExprDups

  // ----- Contradictions

  /** Some operand of the chain is itself a && or ||. */
  predicate Nested(op: Op, e: Expr) {
    if HasOp(e, op) then Nested(op, e.left) || Nested(op, e.right) else e.Binary?
  }

  ghost predicate Attains(e: Expr, s: Sym) {
    exists env: Env :: Eval(e, env) == SymTri(s, env)
  }

  /** Every && with a || among its operands can be y, and every || with a && among them can be n,
      unless its value is n or y anyway. */
  ghost predicate Sharp(e: Expr, env: Env)
    decreases e, 1
  {
    e.Binary? ==> SharpChain(e.op, e, env) && SharpOperands(e.op, e, env)
  }

  ghost predicate SharpChain(op: Op, e: Expr, env: Env) {
    Nested(op, e) ==> Attains(e, Neutral(op)) || Eval(e, env) != Mod
  }

  ghost predicate SharpOperands(op: Op, e: Expr, env: Env)
    decreases e, if HasOp(e, op) then 0 else 2
  {
    if HasOp(e, op) then SharpOperands(op, e.left, env) && SharpOperands(op, e.right, env) else Sharp(e, env)
  }

  /** Where e is sharp, so is e', and has the same value. */
  ghost predicate KeepsSharp(e: Expr, e': Expr) {
    forall env: Env :: Sharp(e, env) ==> Sharp(e', env) && Eval(e', env) == Eval(e, env)
  }

  lemma SharpStays(e: Expr)
    ensures KeepsSharp(e, e)
  {
  }

  lemma SharpTwice(e: Expr, e': Expr, e'': Expr)
    requires KeepsSharp(e, e') && KeepsSharp(e', e'')
    ensures KeepsSharp(e, e'')
  {
    hide Sharp;
  }

  lemma SharpFromOperands(op: Op, e: Expr, env: Env)
    requires SharpOperands(op, e, env) && (HasOp(e, op) ==> SharpChain(op, e, env))
    ensures Sharp(e, env)
  {
  }

  lemma {:induction false} GetSharp(op: Op, e: Expr, p: Path, env: Env)
    requires IsTip(ShapeOf(op, e), p) && SharpOperands(op, e, env)
    ensures Sharp(Get(op, e, p), env)
  {
    if p != [] {
      GetSharp(op, if p[0] then e.right else e.left, p[1..], env);
    }
  }

  lemma {:induction false} GetNested(op: Op, e: Expr, p: Path)
    requires IsTip(ShapeOf(op, e), p) && Get(op, e, p).Binary?
    ensures Nested(op, e)
  {
    if p != [] {
      GetNested(op, if p[0] then e.right else e.left, p[1..]);
    }
  }

  /** Putting in a sharp operand. */
  lemma {:induction false} PutSharp(op: Op, e: Expr, p: Path, x: Expr, env: Env)
    requires IsTip(ShapeOf(op, e), p) && !HasOp(x, op) && SharpOperands(op, e, env) && Sharp(x, env)
    ensures SharpOperands(op, Put(op, e, p, x), env)
    ensures Nested(op, Put(op, e, p, x)) ==> Nested(op, e) || x.Binary?
  {
    if p != [] {
      PutSharp(op, if p[0] then e.right else e.left, p[1..], x, env);
    }
  }

  lemma RefinedAttains(e: Expr, e': Expr, op: Op)
    requires RefinedBy(e, e') && Attains(e, Neutral(op))
    ensures Attains(e', Neutral(op))
  {
    var env: Env :| Eval(e, env) == SymTri(Neutral(op), env);
    assert Refines(Eval(e, env), Eval(e', env));
  }

  lemma SameRefines(e: Expr, e': Expr)
    requires SameValue(e, e')
    ensures RefinedBy(e, e')
  {
    forall env: Env ensures Refines(Eval(e, env), Eval(e', env)) {
      assert Eval(e, env) == Eval(e', env);
    }
  }

  /** Rewriting an operand that is a && or ||. */
  lemma SharpOperand(op: Op, e: Expr, p: Path, x: Expr)
    requires HasOp(e, op) && IsTip(ShapeOf(op, e), p) && Get(op, e, p).Binary? && !HasOp(x, op)
    requires RefinedBy(e, Put(op, e, p, x)) && KeepsSharp(Get(op, e, p), x)
    requires HasOp(Put(op, e, p, x), op)
    ensures KeepsSharp(e, Put(op, e, p, x))
  {
    hide Put, Get, ShapeOf, Nested, SharpOperands;
    var e' := Put(op, e, p, x);
    GetNested(op, e, p);
    if Attains(e, Neutral(op)) { RefinedAttains(e, e', op); }
    forall env: Env | Sharp(e, env) ensures Sharp(e', env) && Eval(e', env) == Eval(e, env) {
      GetSharp(op, e, p, env);
      PutSharp(op, e, p, x, env);
      PutSame(op, e, p, x, env);
      SharpFromOperands(op, e', env);
    }
  }

  /** Joining two operands. */
  lemma SharpJoin(op: Op, e: Expr, p: Path, q: Path, x: Expr)
    requires HasOp(e, op) && IsTip(ShapeOf(op, e), p) && IsTip(ShapeOf(op, e), q) && !HasOp(x, op)
    requires x == Get(op, e, p) || !x.Binary?
    requires ShapeOf(op, Put(op, e, p, Symbol(Neutral(op)))) == ShapeOf(op, e)
    requires SameValue(e, Put(op, Put(op, e, p, Symbol(Neutral(op))), q, x))
    ensures KeepsSharp(e, Put(op, Put(op, e, p, Symbol(Neutral(op))), q, x))
  {
    hide Put, Get, ShapeOf, Nested, SharpOperands;
    var n := Symbol(Neutral(op));
    var e1 := Put(op, e, p, n);
    var e2 := Put(op, e1, q, x);
    SameRefines(e, e2);
    if Attains(e, Neutral(op)) { RefinedAttains(e, e2, op); }
    if x.Binary? { GetNested(op, e, p); }
    forall env: Env | Sharp(e, env) ensures Sharp(e2, env) && Eval(e2, env) == Eval(e, env) {
      GetSharp(op, e, p, env);
      PutSharp(op, e, p, n, env);
      PutSharp(op, e1, q, x, env);
      assert Eval(e2, env) == Eval(e, env);
      SharpFromOperands(op, e2, env);
    }
  }

  /** Where an operand that is a && or || is absorbed by the rest, the formula never has the other
      answer; so where it is sharp, it was absorbed already. */
  lemma SharpAbsorbed(op: Op, e: Expr, p: Path)
    requires HasOp(e, op) && IsTip(ShapeOf(op, e), p) && Get(op, e, p).Binary?
    requires var e' := Put(op, e, p, Symbol(Absorbing(op)));
      RefinedBy(e, e') && forall env: Env :: Eval(e', env) == Eval(e, env) <==> Eval(e, env) != Mod
    ensures KeepsSharp(e, Put(op, e, p, Symbol(Absorbing(op))))
  {
    hide Put, Get, ShapeOf, Nested, SharpOperands;
    var e' := Put(op, e, p, Symbol(Absorbing(op)));
    NeverNeutral(op, e, p);
    GetNested(op, e, p);
    forall env: Env | Sharp(e, env) ensures Sharp(e', env) && Eval(e', env) == Eval(e, env) {
      PutSharp(op, e, p, Symbol(Absorbing(op)), env);
      assert Eval(e', env) == Eval(e, env);
      SharpFromOperands(op, e', env);
    }
  }

  lemma NeverNeutral(op: Op, e: Expr, p: Path)
    requires At(ShapeOf(op, e), p) && RefinedBy(e, Put(op, e, p, Symbol(Absorbing(op))))
    ensures !Attains(e, Neutral(op))
  {
    hide Put, ShapeOf;
    if Attains(e, Neutral(op)) {
      var env: Env :| Eval(e, env) == SymTri(Neutral(op), env);
      PutValue(op, e, p, Symbol(Absorbing(op)), env);
      assert Refines(Eval(e, env), Eval(Put(op, e, p, Symbol(Absorbing(op))), env));
      AbsorbingLaw(op, Eval(Put(op, e, p, Symbol(Neutral(op))), env), env);
    }
  }

  lemma AbsorbingLaw(op: Op, v: Tri, env: Env)
    ensures Apply(op, Eval(Symbol(Absorbing(op)), env), v) != SymTri(Neutral(op), env)
    ensures SymTri(Neutral(op), env) != Mod
  {
  }

  lemma {:induction false} NestedEliminate(op: Op, e: Expr)
    requires Nested(op, EliminateYn(e))
    ensures Nested(op, e)
  {
    if HasOp(e, op) {
      if Nested(op, EliminateYn(e.left)) {
        NestedEliminate(op, e.left);
      } else {
        NestedEliminate(op, e.right);
      }
    }
  }

  lemma {:induction false} SharpOperandsEliminate(op: Op, e: Expr, env: Env)
    requires SharpOperands(op, e, env)
    ensures SharpOperands(op, EliminateYn(e), env)
    decreases e, if HasOp(e, op) then 0 else 2
  {
    if HasOp(e, op) {
      SharpOperandsEliminate(op, e.left, env);
      SharpOperandsEliminate(op, e.right, env);
    } else {
      SharpEliminateAt(e, env);
    }
  }

  lemma {:induction false} SharpEliminateAt(e: Expr, env: Env)
    requires Sharp(e, env)
    ensures Sharp(EliminateYn(e), env)
    decreases e, 1
  {
    if e.Binary? {
      var e' := EliminateYn(e);
      SharpOperandsEliminate(e.op, e, env);
      EliminateYnSame(e);
      SameRefines(e, e');
      if Nested(e.op, e') {
        NestedEliminate(e.op, e);
        if Attains(e, Neutral(e.op)) { RefinedAttains(e, e', e.op); }
      }
      assert Eval(e', env) == Eval(e, env);
      SharpFromOperands(e.op, e', env);
    }
  }

  lemma SharpEliminate(e: Expr)
    ensures KeepsSharp(e, EliminateYn(e))
  {
    EliminateYnSame(e);
    forall env: Env | Sharp(e, env) ensures Sharp(EliminateYn(e), env) && Eval(EliminateYn(e), env) == Eval(e, env) {
      SharpEliminateAt(e, env);
    }
  }

  // ----- Forms

  /** No quoted constant is used as a truth value. */
  predicate Plain(e: Expr) {
    match e
    case Symbol(s) => !s.Quoted?
    case Compare(_, _, _) => true
    case Not(x) => Plain(x)
    case Binary(_, l, r) => Plain(l) && Plain(r)
  }

  /** A normal form without constants among the operands of && and ||. */
  predicate Regular(e: Expr) {
    IsNnf(e) && Plain(e) && Reduced(e)
  }

  predicate KeepsForm(e: Expr, e': Expr) {
    (IsNnf(e) ==> IsNnf(e')) && (Plain(e) ==> Plain(e'))
  }

  lemma FormStays(e: Expr)
    ensures KeepsForm(e, e)
  {
  }

  lemma FormTwice(e: Expr, e': Expr, e'': Expr)
    requires KeepsForm(e, e') && KeepsForm(e', e'')
    ensures KeepsForm(e, e'')
  {
  }

  lemma {:induction false} PutPlain(op: Op, e: Expr, p: Path, x: Expr)
    requires At(ShapeOf(op, e), p) && Plain(e)
    ensures Plain(Get(op, e, p))
    ensures Plain(x) ==> Plain(Put(op, e, p, x))
  {
    if p != [] {
      PutPlain(op, if p[0] then e.right else e.left, p[1..], x);
    }
  }

  /** Rewriting one operand keeps the form of the whole formula. */
  lemma FormPut(op: Op, e: Expr, p: Path, x: Expr)
    requires At(ShapeOf(op, e), p) && KeepsForm(Get(op, e, p), x)
    ensures KeepsForm(e, Put(op, e, p, x))
  {
    if IsNnf(e) { PutNnf(op, e, p, x); }
    if Plain(e) { PutPlain(op, e, p, x); }
  }

  lemma FormConstant(e: Expr, s: Sym)
    requires s == Y || s == N
    ensures KeepsForm(e, Symbol(s))
  {
  }

  /** What is joined has the form its operands have. */
  predicate JoinsForm(e1: Expr, e2: Expr, x: Expr) {
    (IsNnf(e1) && IsNnf(e2) ==> IsNnf(x)) && (Plain(e1) && Plain(e2) ==> Plain(x))
  }

  lemma FormJoin(op: Op, e: Expr, p: Path, q: Path, x: Expr)
    requires IsTip(ShapeOf(op, e), p) && IsTip(ShapeOf(op, e), q)
    requires JoinsForm(Get(op, e, p), Get(op, e, q), x)
    requires ShapeOf(op, Put(op, e, p, Symbol(Neutral(op)))) == ShapeOf(op, e)
    ensures KeepsForm(e, Put(op, Put(op, e, p, Symbol(Neutral(op))), q, x))
  {
    var n := Symbol(Neutral(op));
    if IsNnf(e) {
      PutNnf(op, e, p, n);
      PutNnf(op, e, q, x);
      PutNnf(op, Put(op, e, p, n), q, x);
    }
    if Plain(e) {
      PutPlain(op, e, p, n);
      PutPlain(op, e, q, x);
      PutPlain(op, Put(op, e, p, n), q, x);
    }
  }

  lemma FormJoined(op: Op, e1: Expr, e2: Expr)
    requires JoinRule(op, e1, e2).Some?
    ensures JoinsForm(e1, e2, JoinRule(op, e1, e2).value)
  {
    if IsNnf(e1) && IsNnf(e2) {
      JoinRuleNnf(op, e1, e2);
    }
    JoinRulePlain(op, e1, e2);
  }

  lemma JoinRulePlain(op: Op, e1: Expr, e2: Expr)
    requires JoinRule(op, e1, e2).Some?
    ensures Plain(JoinRule(op, e1, e2).value)
  {
    var s := CommonSym(e1, e2).value;
    assert !s.Quoted?;
  }

  lemma {:induction false} FormEliminate(e: Expr)
    ensures KeepsForm(e, EliminateYn(e))
  {
    if IsNnf(e) { EliminateYnNnf(e); }
    if Plain(e) { PlainEliminate(e); }
  }

  lemma {:induction false} PlainEliminate(e: Expr)
    requires Plain(e)
    ensures Plain(EliminateYn(e))
  {
    if e.Binary? {
      PlainEliminate(e.left);
      PlainEliminate(e.right);
    }
  }

  lemma {:induction false} RegularTidy(e: Expr)
    requires Regular(e)
    ensures Tidy(e)
  {
    if e.Binary? {
      RegularTidy(e.left);
      RegularTidy(e.right);
    }
  }

  // ----- Formulas with nothing to eliminate

  lemma {:induction false} GetRegular(op: Op, e: Expr, p: Path)
    requires At(ShapeOf(op, e), p) && Regular(e)
    ensures Regular(Get(op, e, p)) && Tidy(Get(op, e, p))
    ensures HasOp(e, op) ==> !Flagged(Get(op, e, p))
  {
    if p != [] {
      GetRegular(op, if p[0] then e.right else e.left, p[1..]);
    }
    RegularTidy(Get(op, e, p));
  }

  lemma {:induction false} NegationRegular(e: Expr)
    requires Regular(e)
    ensures Regular(Nnf(e, false))
    ensures IsYn(Nnf(e, false)) ==> IsYn(e)
  {
    if e.Binary? {
      NegationRegular(e.left);
      NegationRegular(e.right);
    }
  }

  /** The negation of a tidy chain is found in q exactly if that contradicts x. */
  lemma ContradictionFound(op: Op, x: Expr, q: Expr, factor: Option<Expr>, left: Expr)
    requires x.Binary? && Regular(x) && Tidy(q) && !Flagged(q)
    requires var n := Transform(Not(x));
      factor.None? ==> left == n
    requires var n := Transform(Not(x));
      factor.Some? && Clean(op, n) && Clean(op, q) ==> (left == Symbol(Neutral(op)) <==> Ops(op, n) <= Ops(op, q))
    requires left == Symbol(Neutral(op))
    ensures !NoContradiction(op, x, q)
  {
    hide Nnf, Transform, Ops;
    var n := Transform(Not(x));
    TransformIsNnf(Not(x));
    NegationBinary(x);
    NegationOf(x);
    NegationRegular(x);
    RegularTidy(n);
    TidyIsClean(op, n);
    TidyIsClean(op, q);
    CleanEliminate(op, n);
    TidyIsReduced(n);
  }

  lemma NegationOf(x: Expr)
    ensures Nnf(Not(x), true) == Nnf(x, false)
  {
  }

  lemma DupFreeInside(x: Expr)
    requires x.Binary? && DupFree(x)
    ensures DupFreeBetween(x.op, x, [], [])
  {
    hide NoJoin, Get, ShapeOf, IsTip, Size;
  }

  lemma ContradictionFreeInside(x: Expr)
    requires x.Binary? && ContradictionFree(x)
    ensures ContradictionFreeBetween(x.op, x, [], [])
  {
    hide NoContradiction, Get, ShapeOf, IsTip, At, Size;
  }

  /** What holds between all operands holds between some of them. */
  lemma DupFreeBelow(op: Op, e: Expr, p: Path, q: Path)
    ensures DupFreeBetween(op, e, p, q) ==> DupFreeBetween(op, e, p + [false], q) && DupFreeBetween(op, e, p + [true], q)
    ensures DupFreeBetween(op, e, p, q) ==> DupFreeBetween(op, e, p, q + [false]) && DupFreeBetween(op, e, p, q + [true])
  {
    hide NoJoin, DupFree, Get, ShapeOf, IsTip;
    assert p <= p + [false] && p <= p + [true] && q <= q + [false] && q <= q + [true];
  }

  lemma ContradictionFreeBelow(op: Op, e: Expr, p: Path, q: Path)
    ensures ContradictionFreeBetween(op, e, p, q) ==>
      ContradictionFreeBetween(op, e, p + [false], q) && ContradictionFreeBetween(op, e, p + [true], q)
    ensures ContradictionFreeBetween(op, e, p, q) ==>
      ContradictionFreeBetween(op, e, p, q + [false]) && ContradictionFreeBetween(op, e, p, q + [true])
  {
    hide NoContradiction, ContradictionFree, Get, ShapeOf, IsTip, At;
    assert p <= p + [false] && p <= p + [true] && q <= q + [false] && q <= q + [true];
  }

  /** Two operands of a formula free of duplicates. */
  lemma DupFreePair(op: Op, e: Expr, p: Path, q: Path)
    requires IsTip(ShapeOf(op, e), p) && IsTip(ShapeOf(op, e), q) && p != q
    ensures var x := Get(op, e, p);
      DupFreeBetween(op, e, p, q) ==> NoJoin(op, x, Get(op, e, q)) && (x.Binary? ==> DupFreeBetween(x.op, x, [], []))
    ensures Regular(e) ==> Regular(Get(op, e, p)) && Tidy(Get(op, e, p)) && Tidy(Get(op, e, q))
  {
    hide NoJoin, Regular, Tidy, DupFree, DupFreeBetween;
    var x := Get(op, e, p);
    if DupFreeBetween(op, e, p, q) {
      DupFreeAt(op, e, p, q);
      if x.Binary? { DupFreeInside(x); }
    }
    if Regular(e) {
      GetRegular(op, e, p);
      GetRegular(op, e, q);
    }
  }

  lemma DupFreeAt(op: Op, e: Expr, p: Path, q: Path)
    requires IsTip(ShapeOf(op, e), p) && IsTip(ShapeOf(op, e), q) && p != q && DupFreeBetween(op, e, p, q)
    ensures NoJoin(op, Get(op, e, p), Get(op, e, q)) && DupFree(Get(op, e, p))
  {
    hide NoJoin, DupFree;
  }

  lemma ContradictionFreePair(op: Op, e: Expr, p: Path, q: Path)
    requires IsTip(ShapeOf(op, e), p) && At(ShapeOf(op, e), q) && p != q
    ensures ContradictionFreeBetween(op, e, p, q) ==>
      NoContradiction(op, Get(op, e, p), Get(op, e, q)) && ContradictionFree(Get(op, e, p))
  {
    hide NoContradiction, ContradictionFree;
  }

  lemma OperandOf(op: Op, e: Expr, p: Path, q: Path)
    requires HasOp(e, op) && IsTip(ShapeOf(op, e), p) && At(ShapeOf(op, e), q) && Get(op, e, p).Binary?
    ensures var x := Get(op, e, p); ContradictionFree(x) ==> ContradictionFreeBetween(x.op, x, [], [])
    ensures Regular(e) ==> Regular(Get(op, e, p)) && Tidy(Get(op, e, q)) && !Flagged(Get(op, e, q))
  {
    hide Regular, ContradictionFree, ContradictionFreeBetween, Tidy;
    var x := Get(op, e, p);
    if ContradictionFree(x) { ContradictionFreeInside(x); }
    if Regular(e) {
      GetRegular(op, e, p);
      GetRegular(op, e, q);
    }
  }

  /** What both passes found nothing in. */
  lemma NothingLeft(x: Expr)
    requires x.Binary? ==> DupFreeBetween(x.op, x, [], []) && ContradictionFreeBetween(x.op, x, [], [])
    ensures DupFree(x) && ContradictionFree(x)
  {
    hide DupFreeBetween, ContradictionFreeBetween;
    DupFreeOperand(x);
    if x.Binary? { ContradictionFreeOperand(x); }
  }
}
