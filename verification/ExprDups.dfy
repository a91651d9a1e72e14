/** What duplicate elimination establishes, and why its two rewrites are sound. */
module ExprDups {
  import opened Options
  import opened Tristate
  import opened Expr
  import opened ExprYn
  import opened ExprTransform
  import opened ExprCanon
  import opened ExprPath
  import opened ExprJoin
  import opened ExprCancel

  /** Nothing joins these two operands. */
  ghost predicate NoJoin(op: Op, e1: Expr, e2: Expr) {
    JoinRule(op, e1, e2).None? && (Tidy(e1) && Tidy(e2) ==> Canon(e1) != Canon(e2))
  }

  /** No two different operands at the top of e join, nor inside any of these operands. */
  ghost predicate DupFree(e: Expr)
    decreases Size(e)
  {
    e.Binary? ==>
      forall i, j :: IsTip(ShapeOf(e.op, e), i) && IsTip(ShapeOf(e.op, e), j) && i != j ==>
        NoJoin(e.op, Get(e.op, e, i), Get(e.op, e, j)) && DupFree(Get(e.op, e, i))
  }

  ghost predicate DupFreeBetween(op: Op, e: Expr, p1: Path, p2: Path) {
    forall i, j :: IsTip(ShapeOf(op, e), i) && IsTip(ShapeOf(op, e), j) && i != j && p1 <= i && p2 <= j ==>
      NoJoin(op, Get(op, e, i), Get(op, e, j)) && DupFree(Get(op, e, i))
  }

  /** x does not contradict q: not all operands of its negation are operands of q. */
  ghost predicate NoContradiction(op: Op, x: Expr, q: Expr) {
    var n := Transform(Not(x));
    x.Binary? && Clean(op, n) && Clean(op, q) && Ops(op, n) != multiset{} ==> !(Ops(op, n) <= Ops(op, q))
  }

  /** No operand at the top of e contradicts another position there, nor inside any of these operands. */
  ghost predicate ContradictionFree(e: Expr)
    decreases Size(e)
  {
    e.Binary? ==>
      forall i, q :: IsTip(ShapeOf(e.op, e), i) && At(ShapeOf(e.op, e), q) && i != q ==>
        NoContradiction(e.op, Get(e.op, e, i), Get(e.op, e, q)) && ContradictionFree(Get(e.op, e, i))
  }

  ghost predicate ContradictionFreeBetween(op: Op, e: Expr, p1: Path, p2: Path) {
    forall i, q :: IsTip(ShapeOf(op, e), i) && At(ShapeOf(op, e), q) && i != q && p1 <= i && p2 <= q ==>
      NoContradiction(op, Get(op, e, i), Get(op, e, q)) && ContradictionFree(Get(op, e, i))
  }

  /** A position below a fork lies below one of its branches. */
  lemma {:induction false} ForkBranch(s: Shape, p: Path, q: Path)
    requires At(s, p) && At(s, q) && p <= q && Below(s, p).Fork?
    ensures q == p || p + [false] <= q || p + [true] <= q
    ensures IsTip(s, q) ==> q != p
  {
    if q != p {
      if q[|p|] {
        assert p + [true] <= q;
      } else {
        assert p + [false] <= q;
      }
    }
  }

  /** Below a tip there is only the tip. */
  lemma {:induction false} TipOnly(s: Shape, p: Path, q: Path)
    requires IsTip(s, p) && At(s, q) && p <= q
    ensures q == p
  {
    if p != [] {
      TipOnly(if p[0] then s.right else s.left, p[1..], q[1..]);
      assert q == [q[0]] + q[1..] && p == [p[0]] + p[1..];
    }
  }

  lemma DupFreeFork(op: Op, e: Expr, p: Path, q: Path)
    requires At(ShapeOf(op, e), p) && Below(ShapeOf(op, e), p).Fork?
    ensures DupFreeBetween(op, e, p + [false], q) && DupFreeBetween(op, e, p + [true], q) ==> DupFreeBetween(op, e, p, q)
    ensures DupFreeBetween(op, e, q, p + [false]) && DupFreeBetween(op, e, q, p + [true]) ==> DupFreeBetween(op, e, q, p)
  {
    forall i | IsTip(ShapeOf(op, e), i) && p <= i ensures p + [false] <= i || p + [true] <= i {
      ForkBranch(ShapeOf(op, e), p, i);
    }
  }

  lemma DupFreeTips(op: Op, e: Expr, p: Path, q: Path)
    requires IsTip(ShapeOf(op, e), p) && IsTip(ShapeOf(op, e), q)
    requires p != q ==> NoJoin(op, Get(op, e, p), Get(op, e, q)) && DupFree(Get(op, e, p))
    ensures DupFreeBetween(op, e, p, q)
  {
    forall i | IsTip(ShapeOf(op, e), i) && p <= i ensures i == p { TipOnly(ShapeOf(op, e), p, i); }
    forall j | IsTip(ShapeOf(op, e), j) && q <= j ensures j == q { TipOnly(ShapeOf(op, e), q, j); }
  }

  /** What the pass over a whole formula found, about the formula itself. */
  lemma DupFreeWhole(x: Expr)
    requires x.Binary? && DupFreeBetween(x.op, x, [], [])
    ensures DupFree(x)
  {
    hide NoJoin, Get, ShapeOf, IsTip, Size;
  }

  lemma DupFreeOperand(x: Expr)
    requires x.Binary? ==> DupFreeBetween(x.op, x, [], [])
    ensures DupFree(x)
  {
    hide NoJoin, Get, ShapeOf, IsTip, Size, DupFreeBetween;
    if x.Binary? {
      DupFreeWhole(x);
    }
  }

  lemma ContradictionFreeOperand(x: Expr)
    requires x.Binary?
    ensures ContradictionFreeBetween(x.op, x, [], []) ==> ContradictionFree(x)
  {
    hide NoContradiction, Get, ShapeOf, IsTip, At, Size;
  }

  /** The negation of a chain is a chain. */
  lemma NegationBinary(x: Expr)
    requires x.Binary?
    ensures Transform(Not(x)).Binary?
  {
    hide Nnf, Transform;
    TransformIsNnf(Not(x));
    NnfBinary(x);
  }

  lemma NnfBinary(x: Expr)
    requires x.Binary?
    ensures Nnf(Not(x), true).Binary?
  {
  }

  /** If something is left of the negation of x, x does not contradict q. */
  lemma NothingContradicts(op: Op, x: Expr, q: Expr, factor: Option<Expr>, left: Expr)
    requires x.Binary?
    requires var n := Transform(Not(x));
      factor.None? ==> left == n && OpsCollected(op, None, n, q, None)
    requires var n := Transform(Not(x));
      factor.Some? && Clean(op, n) && Clean(op, q) ==> (left == Symbol(Neutral(op)) <==> Ops(op, n) <= Ops(op, q))
    requires left != Symbol(Neutral(op))
    ensures NoContradiction(op, x, q)
  {
    hide Clean, Ops, Transform;
    var n := Transform(Not(x));
    if factor.None? && Clean(op, n) && Clean(op, q) && Ops(op, n) <= Ops(op, q) {
      CommonAll(Ops(op, n), Ops(op, q));
    }
  }

  lemma CommonAll<T>(a: multiset<T>, b: multiset<T>)
    requires a <= b
    ensures a * b == a
  {
  }

  lemma ContradictionFreeFork(op: Op, e: Expr, p: Path, q: Path)
    requires At(ShapeOf(op, e), p) && Below(ShapeOf(op, e), p).Fork?
    requires ContradictionFreeBetween(op, e, p + [false], q) && ContradictionFreeBetween(op, e, p + [true], q)
    ensures ContradictionFreeBetween(op, e, p, q)
  {
    forall i | IsTip(ShapeOf(op, e), i) && p <= i ensures p + [false] <= i || p + [true] <= i {
      ForkBranch(ShapeOf(op, e), p, i);
    }
  }

  /** An operand against all positions at or below q. */
  lemma ContradictionFreeTip(op: Op, e: Expr, p: Path, q: Path)
    requires IsTip(ShapeOf(op, e), p) && At(ShapeOf(op, e), q)
    requires Below(ShapeOf(op, e), q).Fork? ==>
      ContradictionFreeBetween(op, e, p, q + [false]) && ContradictionFreeBetween(op, e, p, q + [true])
    requires p != q ==> NoContradiction(op, Get(op, e, p), Get(op, e, q)) && ContradictionFree(Get(op, e, p))
    ensures ContradictionFreeBetween(op, e, p, q)
  {
    var s := ShapeOf(op, e);
    forall i, j | IsTip(s, i) && At(s, j) && i != j && p <= i && q <= j
      ensures NoContradiction(op, Get(op, e, i), Get(op, e, j)) && ContradictionFree(Get(op, e, i))
    {
      TipOnly(s, p, i);
      if Below(s, q).Fork? {
        ForkBranch(s, q, j);
      } else {
        TipOnly(s, q, j);
      }
    }
  }

  /** A formula with an operand x and a position q that is (something) op !x is the absorbing
      constant or m, so replacing x by the absorbing constant only adds information. */
  lemma ContradictionSound(op: Op, e: Expr, p: Path, q: Path, factor: Expr, n: Expr, rest: Expr)
    requires IsTip(ShapeOf(op, e), p) && At(ShapeOf(op, e), q)
    requires n == Transform(Not(Get(op, e, p)))
    requires Splits(op, n, Symbol(Neutral(op)), factor) && Splits(op, Get(op, e, q), rest, factor)
    ensures RefinedBy(e, Put(op, e, p, Symbol(Absorbing(op))))
    ensures forall env: Env ::
      Eval(Put(op, e, p, Symbol(Absorbing(op))), env) == Eval(e, env) <==> Eval(e, env) != Mod
  {
    hide Put, Get, ShapeOf, Transform, Splits;
    var e' := Put(op, e, p, Symbol(Absorbing(op)));
    forall env: Env
      ensures Refines(Eval(e, env), Eval(e', env))
      ensures Eval(e', env) == Eval(e, env) <==> Eval(e, env) != Mod
    {
      ContradictionAt(op, e, p, q, factor, n, rest, env);
    }
  }

  lemma ContradictionAt(op: Op, e: Expr, p: Path, q: Path, factor: Expr, n: Expr, rest: Expr, env: Env)
    requires IsTip(ShapeOf(op, e), p) && At(ShapeOf(op, e), q)
    requires n == Transform(Not(Get(op, e, p)))
    requires Splits(op, n, Symbol(Neutral(op)), factor) && Splits(op, Get(op, e, q), rest, factor)
    ensures var e' := Put(op, e, p, Symbol(Absorbing(op)));
      Refines(Eval(e, env), Eval(e', env)) && (Eval(e', env) == Eval(e, env) <==> Eval(e, env) != Mod)
  {
    hide Put, Get, ShapeOf, Transform;
    TransformValue(Not(Get(op, e, p)), env);
    GetBounds(op, e, p, env);
    GetBounds(op, e, q, env);
    PutValue(op, e, p, Symbol(Absorbing(op)), env);
    assert Eval(n, env) == Apply(op, Eval(Symbol(Neutral(op)), env), Eval(factor, env));
    assert Eval(Get(op, e, q), env) == Apply(op, Eval(rest, env), Eval(factor, env));
  }

  /** Under an assignment that gives no operand of e the value m, refinement is equality. */
  predicate TwoValued(e: Expr, env: Env) {
    match e
    case Symbol(s) => SymTri(s, env) != Mod
    case Compare(_, _, _) => true
    case Not(x) => TwoValued(x, env)
    case Binary(_, l, r) => TwoValued(l, env) && TwoValued(r, env)
  }

  lemma {:induction false} TwoValuedExact(e: Expr, e': Expr, env: Env)
    requires RefinedBy(e, e') && TwoValued(e, env)
    ensures Eval(e', env) == Eval(e, env)
  {
    TwoValuedNeverMod(e, env);
    assert Refines(Eval(e, env), Eval(e', env));
  }

  lemma {:induction false} TwoValuedNeverMod(e: Expr, env: Env)
    requires TwoValued(e, env)
    ensures Eval(e, env) != Mod
  {
    match e
    case Symbol(_) =>
    case Compare(_, _, _) =>
    case Not(x) => TwoValuedNeverMod(x, env);
    case Binary(_, l, r) => TwoValuedNeverMod(l, env); TwoValuedNeverMod(r, env);
  }

  lemma PutSameEverywhere(op: Op, e: Expr, p: Path, x: Expr)
    requires At(ShapeOf(op, e), p) && SameValue(Get(op, e, p), x)
    ensures SameValue(e, Put(op, e, p, x))
  {
    forall env: Env ensures Eval(e, env) == Eval(Put(op, e, p, x), env) {
      assert Eval(Get(op, e, p), env) == Eval(x, env);
      PutSame(op, e, p, x, env);
    }
  }

  lemma PutRefinesEverywhere(op: Op, e: Expr, p: Path, x: Expr)
    requires At(ShapeOf(op, e), p) && RefinedBy(Get(op, e, p), x)
    ensures RefinedBy(e, Put(op, e, p, x))
  {
    forall env: Env ensures Refines(Eval(e, env), Eval(Put(op, e, p, x), env)) {
      assert Refines(Eval(Get(op, e, p), env), Eval(x, env));
      PutRefines(op, e, p, x, env);
    }
  }

  lemma RefinedByTwice(e: Expr, e': Expr, e'': Expr)
    requires RefinedBy(e, e') && RefinedBy(e', e'')
    ensures RefinedBy(e, e'')
  {
    forall env: Env ensures Refines(Eval(e, env), Eval(e'', env)) {
      assert Refines(Eval(e, env), Eval(e', env)) && Refines(Eval(e', env), Eval(e'', env));
    }
  }

  lemma {:induction false} EliminateYnNnf(e: Expr)
    requires IsNnf(e)
    ensures IsNnf(EliminateYn(e))
  {
    if e.Binary? {
      EliminateYnNnf(e.left);
      EliminateYnNnf(e.right);
    }
  }

  /** Putting back an operand that was rewritten on its own. */
  lemma PutOperand(op: Op, e: Expr, p: Path, x: Expr)
    requires IsTip(ShapeOf(op, e), p) && !HasOp(x, op) && Size(x) <= Size(Get(op, e, p))
    ensures ShapeOf(op, Put(op, e, p, x)) == ShapeOf(op, e) && Size(Put(op, e, p, x)) <= Size(e)
    ensures Get(op, Put(op, e, p, x), p) == x
    ensures !Reduced(x) ==> !Reduced(Put(op, e, p, x))
    ensures x == Get(op, e, p) ==> Put(op, e, p, x) == e
  {
    GetPut(op, e, p, x, p);
    PutGet(op, e, p);
    if !Reduced(x) {
      PutUnreduced(op, e, p, x);
    }
  }

  /** Replacing an operand whose negation is found at q by the absorbing constant. */
  lemma PutAbsorbing(op: Op, e: Expr, p: Path, q: Path, factor: Expr, n: Expr, rest: Expr)
    requires IsTip(ShapeOf(op, e), p) && At(ShapeOf(op, e), q) && p != []
    requires n == Transform(Not(Get(op, e, p)))
    requires Splits(op, n, Symbol(Neutral(op)), factor) && Splits(op, Get(op, e, q), rest, factor)
    ensures var e' := Put(op, e, p, Symbol(Absorbing(op)));
      ShapeOf(op, e') == ShapeOf(op, e) && RefinedBy(e, e') && Size(e') <= Size(e) && !Reduced(e') &&
      forall env: Env :: Eval(e', env) == Eval(e, env) <==> Eval(e, env) != Mod
  {
    PutOperand(op, e, p, Symbol(Absorbing(op)));
    PutUnreduced(op, e, p, Symbol(Absorbing(op)));
    ContradictionSound(op, e, p, q, factor, n, rest);
  }

  /** Joining two operands, with everything the loop needs to know about it. */
  lemma JoinSound(op: Op, e: Expr, p: Path, q: Path, x: Expr)
    requires IsTip(ShapeOf(op, e), p) && IsTip(ShapeOf(op, e), q) && p != q
    requires !HasOp(x, op) && Size(x) <= Size(Get(op, e, p))
    requires forall env: Env :: Eval(x, env) == Apply(op, Eval(Get(op, e, p), env), Eval(Get(op, e, q), env))
    ensures ShapeOf(op, Put(op, e, p, Symbol(Neutral(op)))) == ShapeOf(op, e)
    ensures var e' := Put(op, Put(op, e, p, Symbol(Neutral(op))), q, x);
      ShapeOf(op, e') == ShapeOf(op, e) && SameValue(e, e') && Size(e') <= Size(e) && !Reduced(e')
  {
    var n := Symbol(Neutral(op));
    var e1 := Put(op, e, p, n);
    GetPut(op, e, p, n, q);
    var e2 := Put(op, e1, q, x);
    PutShape(op, e1, q, x);
    JoinUnreduced(op, e, p, q, x);
    forall env: Env ensures Eval(e, env) == Eval(e2, env) {
      assert Eval(x, env) == Apply(op, Eval(Get(op, e, p), env), Eval(Get(op, e, q), env));
      PutJoin(op, e, p, q, x, env);
    }
  }

  lemma JoinUnreduced(op: Op, e: Expr, p: Path, q: Path, x: Expr)
    requires IsTip(ShapeOf(op, e), p) && IsTip(ShapeOf(op, e), q) && p != q
    requires !HasOp(x, op)
    requires ShapeOf(op, Put(op, e, p, Symbol(Neutral(op)))) == ShapeOf(op, e)
    ensures !Reduced(Put(op, Put(op, e, p, Symbol(Neutral(op))), q, x))
  {
    var n := Symbol(Neutral(op));
    var e1 := Put(op, e, p, n);
    GetPut(op, e, p, n, p);
    GetPut(op, e1, q, x, p);
    var e2 := Put(op, e1, q, x);
    PutGet(op, e2, p);
    TipsDiffer(ShapeOf(op, e), p, q);
    PutUnreduced(op, e2, p, n);
  }

  lemma TipsDiffer(s: Shape, p: Path, q: Path)
    requires IsTip(s, p) && IsTip(s, q) && p != q
    ensures p != [] && q != []
  {
    if p == [] { TipOnly(s, p, q); }
    if q == [] { TipOnly(s, q, p); }
  }
}
