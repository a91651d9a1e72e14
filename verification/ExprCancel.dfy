/** What cancelling common operands means, for expr_eliminate_eq and expr_extract_eq. */
module ExprCancel {
  import opened Options
  import opened Tristate
  import opened Expr
  import opened ExprYn
  import opened ExprCanon

  /** e is e' op c. */
  ghost predicate Splits(op: Op, e: Expr, e': Expr, c: Expr) {
    forall env: Env :: Eval(e, env) == Apply(op, Eval(e', env), Eval(c, env))
  }

  /** Removed factors, innermost first. */
  type Layers = seq<(Op, Expr)>

  ghost function Restore(layers: Layers, v: Tri, env: Env): Tri {
    if layers == [] then v
    else Restore(layers[1..], Apply(layers[0].0, v, Eval(layers[0].1, env)), env)
  }

  /** e is what remains of it, with the removed factors put back. */
  ghost predicate Restores(layers: Layers, e: Expr, e': Expr) {
    forall env: Env :: Eval(e, env) == Restore(layers, Eval(e', env), env)
  }

  lemma {:induction false} RestoreMonotone(layers: Layers, v: Tri, w: Tri, env: Env)
    requires Rank(v) <= Rank(w)
    ensures Rank(Restore(layers, v, env)) <= Rank(Restore(layers, w, env))
  {
    if layers != [] {
      var c := Eval(layers[0].1, env);
      RestoreMonotone(layers[1..], Apply(layers[0].0, v, c), Apply(layers[0].0, w, c), env);
    }
  }

  lemma RestoresOne(op: Op, c: Expr, e: Expr, e': Expr)
    requires Splits(op, e, e', c)
    ensures Restores([(op, c)], e, e')
  {
    forall env: Env ensures Eval(e, env) == Restore([(op, c)], Eval(e', env), env) {
      assert Restore([(op, c)], Eval(e', env), env) == Restore([], Apply(op, Eval(e', env), Eval(c, env)), env);
    }
  }

  lemma RestoresTwo(op: Op, c: Expr, layers: Layers, e: Expr, e': Expr, e'': Expr)
    requires Restores(layers, e, e') && Splits(op, e', e'', c)
    ensures Restores([(op, c)] + layers, e, e'')
  {
    forall env: Env ensures Eval(e, env) == Restore([(op, c)] + layers, Eval(e'', env), env) {
      assert ([(op, c)] + layers)[1..] == layers;
    }
  }

  lemma RestoresSame(layers: Layers, e: Expr, e': Expr, e'': Expr)
    requires Restores(layers, e, e') && SameValue(e', e'')
    ensures Restores(layers, e, e'')
  {
  }

  lemma SplitsNeutral(op: Op, e: Expr)
    ensures Splits(op, e, e, Symbol(Neutral(op)))
  {
  }

  lemma SplitsAll(op: Op, e: Expr, c: Expr)
    requires SameValue(e, c)
    ensures Splits(op, e, Symbol(Neutral(op)), c)
  {
  }

  lemma SplitsBoth(op: Op, l: Expr, r: Expr, l': Expr, r': Expr, c: Expr, d: Expr)
    requires Splits(op, l, l', c) && Splits(op, r, r', d)
    ensures Splits(op, Binary(op, l, r), Binary(op, l', r'), Binary(op, c, d))
  {
    forall env: Env
      ensures Eval(Binary(op, l, r), env) == Apply(op, Eval(Binary(op, l', r'), env), Eval(Binary(op, c, d), env))
    {
      assert Eval(l, env) == Apply(op, Eval(l', env), Eval(c, env));
      assert Eval(r, env) == Apply(op, Eval(r', env), Eval(d, env));
    }
  }

  lemma SplitsTwice(op: Op, e: Expr, e': Expr, e'': Expr, c: Expr, d: Expr)
    requires Splits(op, e, e', c) && Splits(op, e', e'', d)
    ensures Splits(op, e, e'', Binary(op, c, d))
  {
    forall env: Env ensures Eval(e, env) == Apply(op, Eval(e'', env), Eval(Binary(op, c, d), env)) {
      assert Eval(e, env) == Apply(op, Eval(e', env), Eval(c, env));
      assert Eval(e', env) == Apply(op, Eval(e'', env), Eval(d, env));
    }
  }

  lemma EliminateYnSame(e: Expr)
    ensures SameValue(e, EliminateYn(e))
  {
    forall env: Env ensures Eval(e, env) == Eval(EliminateYn(e), env) {
      EliminateYnValue(e, env);
    }
  }

  /** Between clean formulas, exactly the common operands are gone from both sides. */
  ghost predicate OpsCancelled(op: Op, e1: Expr, e2: Expr, e1': Expr, e2': Expr) {
    Clean(op, e1) && Clean(op, e2) ==>
      Clean(op, e1') && Clean(op, e2') &&
      Ops(op, e1') == Ops(op, e1) - Ops(op, e2) &&
      Ops(op, e2') == Ops(op, e2) - Ops(op, e1)
  }

  lemma DifferenceInSteps<T>(l: multiset<T>, r: multiset<T>, e: multiset<T>)
    ensures (l - e) + (r - (e - l)) == (l + r) - e
    ensures (e - l) - r == e - (l + r)
  {
  }

  lemma OpsCancelledFork(op: Op, l: Expr, r: Expr, e: Expr, l': Expr, r': Expr, e': Expr, e'': Expr)
    requires OpsCancelled(op, l, e, l', e') || OpsCancelled(op, e, l, e', l')
    requires OpsCancelled(op, r, e', r', e'') || OpsCancelled(op, e', r, e'', r')
    ensures OpsCancelled(op, Binary(op, l, r), e, Binary(op, l', r'), e'')
    ensures OpsCancelled(op, e, Binary(op, l, r), e'', Binary(op, l', r'))
  {
    hide Canon, Clean, Ops;
    OpsBinary(op, l, r);
    OpsBinary(op, l', r');
    DifferenceInSteps(Ops(op, l), Ops(op, r), Ops(op, e));
  }

  lemma OpsBinary(op: Op, l: Expr, r: Expr)
    ensures Ops(op, Binary(op, l, r)) == Ops(op, l) + Ops(op, r)
    ensures Clean(op, Binary(op, l, r)) <==> Clean(op, l) && Clean(op, r)
  {
  }

  /** Two tips of clean formulas, as operand multisets. */
  lemma CleanTips(op: Op, e1: Expr, e2: Expr, same: bool)
    requires !HasOp(e1, op) && !HasOp(e2, op)
    requires Clean(op, e1) && Clean(op, e2)
    requires same <==> Canon(e1) == Canon(e2)
    ensures Ops(op, Symbol(Neutral(op))) == multiset{} && Clean(op, Symbol(Neutral(op)))
    ensures same ==> Ops(op, e1) == Ops(op, e2)
    ensures !same ==> Ops(op, e1) - Ops(op, e2) == Ops(op, e1) && Ops(op, e2) - Ops(op, e1) == Ops(op, e2)
    ensures !same ==> Ops(op, e1) * Ops(op, e2) == multiset{}
  {
    if e1 == Symbol(Neutral(op)) || e2 == Symbol(Neutral(op)) {
      NeutralTip(op, e1, e2);
    } else {
      assert Ops(op, e1) == multiset{Canon(e1)} && Ops(op, e2) == multiset{Canon(e2)};
      OneDifference(Canon(e1), Canon(e2));
      OneDifference(Canon(e2), Canon(e1));
    }
  }

  lemma NeutralTip(op: Op, e1: Expr, e2: Expr)
    requires !HasOp(e1, op) && !HasOp(e2, op)
    requires e1 == Symbol(Neutral(op)) || e2 == Symbol(Neutral(op))
    ensures Canon(e1) == Canon(e2) ==> e1 == e2
    ensures Ops(op, e1) == multiset{} || Ops(op, e2) == multiset{}
  {
  }

  lemma OpsCancelledTips(op: Op, e1: Expr, e2: Expr, same: bool)
    requires !HasOp(e1, op) && !HasOp(e2, op)
    requires Tidy(e1) && Tidy(e2) ==> (same <==> Canon(e1) == Canon(e2))
    ensures same ==> OpsCancelled(op, e1, e2, Symbol(Neutral(op)), Symbol(Neutral(op)))
    ensures !same ==> OpsCancelled(op, e1, e2, e1, e2)
  {
    if Clean(op, e1) && Clean(op, e2) {
      CleanTips(op, e1, e2, same);
    }
  }

  /** A flag is a neutral tip or none of a clean formula. */
  lemma FlaggedStays(op: Op, e: Expr)
    requires Flagged(e)
    ensures OpsCancelled(op, e, e, e, e)
  {
  }

  lemma OneDifference<T>(a: T, b: T)
    ensures multiset{a} - multiset{b} == if a == b then multiset{} else multiset{a}
    ensures multiset{a} * multiset{b} == if a == b then multiset{a} else multiset{}
  {
  }

  /** The value of a collected formula, nothing collected counting as neutral. */
  ghost function EvalAcc(op: Op, acc: Option<Expr>, env: Env): Tri {
    Eval(if acc.Some? then acc.value else Symbol(Neutral(op)), env)
  }

  /** acc' is acc op c. */
  ghost predicate Collects(op: Op, acc: Option<Expr>, acc': Option<Expr>, c: Expr) {
    forall env: Env :: EvalAcc(op, acc', env) == Apply(op, EvalAcc(op, acc, env), Eval(c, env))
  }

  lemma CollectsTwice(op: Op, acc: Option<Expr>, acc': Option<Expr>, acc'': Option<Expr>, c: Expr, d: Expr)
    requires Collects(op, acc, acc', c) && Collects(op, acc', acc'', d)
    ensures Collects(op, acc, acc'', Binary(op, c, d))
  {
    forall env: Env
      ensures EvalAcc(op, acc'', env) == Apply(op, EvalAcc(op, acc, env), Eval(Binary(op, c, d), env))
    {
      assert EvalAcc(op, acc', env) == Apply(op, EvalAcc(op, acc, env), Eval(c, env));
      assert EvalAcc(op, acc'', env) == Apply(op, EvalAcc(op, acc', env), Eval(d, env));
    }
  }

  lemma CollectsTips(op: Op, acc: Option<Expr>, e: Expr)
    ensures Collects(op, acc, acc, Symbol(Neutral(op)))
    ensures Collects(op, acc, Some(if acc.Some? then Binary(op, acc.value, e) else e), e)
  {
  }

  lemma SplitsReduced(op: Op, e: Expr, e': Expr, c: Expr, factor: Expr)
    requires Splits(op, e, e', c) && Collects(op, None, Some(factor), c)
    ensures Splits(op, e, EliminateYn(e'), factor)
  {
    forall env: Env ensures Eval(e, env) == Apply(op, Eval(EliminateYn(e'), env), Eval(factor, env)) {
      EliminateYnValue(e', env);
      assert EvalAcc(op, Some(factor), env) == Apply(op, EvalAcc(op, None, env), Eval(c, env));
    }
  }

  ghost function AccOps(op: Op, acc: Option<Expr>): multiset<Key> {
    if acc.Some? then Ops(op, acc.value) else multiset{}
  }

  /** Between clean formulas, exactly the common operands were collected. */
  ghost predicate OpsCollected(op: Op, acc: Option<Expr>, e1: Expr, e2: Expr, acc': Option<Expr>) {
    Clean(op, e1) && Clean(op, e2) ==> AccOps(op, acc') == AccOps(op, acc) + Ops(op, e1) * Ops(op, e2)
  }

  lemma IntersectionInSteps<T>(l: multiset<T>, r: multiset<T>, e: multiset<T>)
    ensures l * e + r * (e - l) == (l + r) * e
    ensures l * e == e * l && r * (e - l) == (e - l) * r && (l + r) * e == e * (l + r)
  {
  }

  lemma OpsCollectedFork(op: Op, l: Expr, r: Expr, e: Expr, l': Expr, e': Expr,
                         acc: Option<Expr>, acc': Option<Expr>, acc'': Option<Expr>)
    requires OpsCancelled(op, l, e, l', e') || OpsCancelled(op, e, l, e', l')
    requires OpsCollected(op, acc, l, e, acc') || OpsCollected(op, acc, e, l, acc')
    requires OpsCollected(op, acc', r, e', acc'') || OpsCollected(op, acc', e', r, acc'')
    ensures OpsCollected(op, acc, Binary(op, l, r), e, acc'')
    ensures OpsCollected(op, acc, e, Binary(op, l, r), acc'')
  {
    IntersectionInSteps(Ops(op, l), Ops(op, r), Ops(op, e));
  }

  lemma OpsCollectedTips(op: Op, acc: Option<Expr>, e1: Expr, e2: Expr, same: bool)
    requires !HasOp(e1, op) && !HasOp(e2, op)
    requires Tidy(e1) && Tidy(e2) ==> (same <==> Canon(e1) == Canon(e2))
    ensures same ==> OpsCollected(op, acc, e1, e2, Some(if acc.Some? then Binary(op, acc.value, e1) else e1))
    ensures !same ==> OpsCollected(op, acc, e1, e2, acc)
  {
    if Clean(op, e1) && Clean(op, e2) {
      CleanTips(op, e1, e2, same);
    }
  }

  lemma DifferenceEmpty<T>(a: multiset<T>, b: multiset<T>)
    ensures a - b == multiset{} <==> a <= b
  {
    if a - b == multiset{} {
      forall k ensures a[k] <= b[k] {
        assert (a - b)[k] == 0;
      }
    }
  }

  lemma DifferencesEqual<T>(a: multiset<T>, b: multiset<T>)
    ensures a - b == b - a <==> a == b
    ensures a - b == multiset{} && b - a == multiset{} <==> a == b
  {
    if a - b == b - a {
      forall k ensures a[k] == b[k] {
        assert (a - b)[k] == (b - a)[k];
      }
    }
  }

  /** What is left after cancelling collapses to one common symbol exactly when nothing is left. */
  lemma CancelDecides(op: Op, e1: Expr, e2: Expr, a: Expr, b: Expr)
    requires HasOp(e1, op) && HasOp(e2, op) && Tidy(e1) && Tidy(e2)
    requires OpsCancelled(op, e1, e2, a, b)
    ensures EliminateYn(a).Symbol? && EliminateYn(b) == EliminateYn(a) <==> Canon(e1) == Canon(e2)
  {
    TidyIsClean(op, e1);
    TidyIsClean(op, e2);
    CleanEliminate(op, a);
    CleanEliminate(op, b);
    assert Canon(e1) == OpKey(op, Ops(op, e1)) && Canon(e2) == OpKey(op, Ops(op, e2));
    DifferencesEqual(Ops(op, e1), Ops(op, e2));
  }

  /** Whatever the formulas are: as many operands are gone from one as from the other, and a clean
      one only loses operands. */
  ghost predicate Balanced(op: Op, e1: Expr, e2: Expr, e1': Expr, e2': Expr) {
    && |Ops(op, e1)| + |Ops(op, e2')| == |Ops(op, e2)| + |Ops(op, e1')|
    && (Clean(op, e1) ==> Clean(op, e1') && Ops(op, e1') <= Ops(op, e1))
    && (Clean(op, e2) ==> Clean(op, e2') && Ops(op, e2') <= Ops(op, e2))
  }

  lemma BalancedFork(op: Op, l: Expr, r: Expr, e: Expr, l': Expr, r': Expr, e': Expr, e'': Expr)
    requires Balanced(op, l, e, l', e') || Balanced(op, e, l, e', l')
    requires Balanced(op, r, e', r', e'') || Balanced(op, e', r, e'', r')
    ensures Balanced(op, Binary(op, l, r), e, Binary(op, l', r'), e'')
    ensures Balanced(op, e, Binary(op, l, r), e'', Binary(op, l', r'))
  {
    hide Canon, Clean, Ops;
    OpsBinary(op, l, r);
    OpsBinary(op, l', r');
  }

  lemma BalancedTips(op: Op, e1: Expr, e2: Expr)
    requires !HasOp(e1, op) && !HasOp(e2, op)
    ensures Balanced(op, e1, e2, e1, e2)
    ensures e1 != Symbol(Neutral(op)) && e2 != Symbol(Neutral(op)) ==>
      Balanced(op, e1, e2, Symbol(Neutral(op)), Symbol(Neutral(op)))
  {
    hide Canon, Tidy;
  }

  /** What one round of cancelling does. */
  ghost predicate CancelStep(op: Op, e1: Expr, e2: Expr, e1': Expr, e2': Expr) {
    && OpsCancelled(op, e1, e2, e1', e2') && Balanced(op, e1, e2, e1', e2')
    && Size(e2') <= Size(e2) && (HasOp(e1, op) ==> HasOp(e1', op)) && (HasOp(e2, op) ==> HasOp(e2', op))
  }

  /** Cancelling e1 against e2 leaves y of e2: it was y, or all its && operands are && operands of e1. */
  ghost predicate Cancels(e1: Expr, e2: Expr) {
    e2 == Symbol(Y) || (HasOp(e1, AndOp) && Ops(AndOp, e2) <= Ops(AndOp, e1))
  }

  /** So a formula other than y cancels against itself exactly if it is a &&: the code does not
      recognise two equal || tests. */
  lemma CancelsItself(e: Expr)
    ensures Cancels(e, e) <==> e == Symbol(Y) || HasOp(e, AndOp)
  {
  }

  lemma {:induction false} FlaggedNotIn(op: Op, e: Expr, s: Sym)
    requires Tidy(e) && !Flagged(e) && YesNoFlag(s)
    ensures SymKey(s) !in Ops(op, e)
  {
    if HasOp(e, op) {
      FlaggedNotIn(op, e.left, s);
      FlaggedNotIn(op, e.right, s);
    }
  }

  lemma FlaggedCancels(e1: Expr, e2: Expr)
    requires Tidy(e1) && Tidy(e2) && (Flagged(e1) || Flagged(e2))
    ensures EliminateYn(e2) == Symbol(Y) <==> Cancels(e1, e2)
  {
    TidyIsReduced(e2);
    if HasOp(e1, AndOp) && e2 != Symbol(Y) {
      FlaggedNotIn(AndOp, e1, e2.sym);
      assert SymKey(e2.sym) in Ops(AndOp, e2);
    }
  }

  /** One round on the && operands of e1 removes e2 as a whole exactly if it cancels. */
  lemma AndCancels(e1: Expr, e2: Expr, e1': Expr, e2': Expr)
    requires Tidy(e1) && Tidy(e2) && HasOp(e1, AndOp) && !Flagged(e2) && CancelStep(AndOp, e1, e2, e1', e2')
    ensures Clean(AndOp, e2')
    ensures EliminateYn(e2') == Symbol(Y) <==> Cancels(e1, e2)
  {
    TidyIsClean(AndOp, e1);
    TidyIsClean(AndOp, e2);
    CleanEliminate(AndOp, e2');
    DifferenceEmpty(Ops(AndOp, e2), Ops(AndOp, e1));
  }

  /** No round on || operands leaves y. */
  lemma OrNotYes(e1: Expr, e2: Expr, e1': Expr, e2': Expr)
    requires Tidy(e2) && !Flagged(e2) && CancelStep(OrOp, e1, e2, e1', e2')
    ensures Clean(OrOp, e2') && EliminateYn(e2') != Symbol(Y)
  {
    TidyIsClean(OrOp, e2);
    CleanEliminate(OrOp, e2');
  }

  /** A formula that is no && takes away one operand of a && at most. */
  lemma AndRemains(e1: Expr, e2: Expr, e1': Expr, e2': Expr)
    requires !HasOp(e1, AndOp) && Tidy(e2) && HasOp(e2, AndOp) && CancelStep(AndOp, e1, e2, e1', e2')
    ensures EliminateYn(e2') != Symbol(Y)
  {
    TidyIsClean(AndOp, e2);
    CleanEliminate(AndOp, e2');
    SomeOperand(AndOp, e2.left);
    SomeOperand(AndOp, e2.right);
    assert |Ops(AndOp, e1)| <= 1;
  }

  lemma {:induction false} SomeOperand(op: Op, e: Expr)
    requires Tidy(e) && !Flagged(e)
    ensures |Ops(op, e)| >= 1
  {
    if HasOp(e, op) {
      SomeOperand(op, e.left);
    }
  }

  /** Both rounds of expr_eliminate_eq together. */
  lemma CancelledToYes(e1: Expr, e2: Expr, a: Expr, b: Expr, a': Expr, b': Expr)
    requires Tidy(e1) && Tidy(e2) && !Flagged(e1) && !Flagged(e2)
    requires if e1.Binary? then CancelStep(e1.op, e1, e2, a, b) else a == e1 && b == e2
    requires if b.Binary? && !HasOp(a, b.op) then CancelStep(b.op, a, b, a', b') else a' == a && b' == b
    ensures EliminateYn(b') == Symbol(Y) <==> Cancels(e1, e2)
  {
    hide Ops, Canon, OpsCancelled, Balanced, EliminateYn;
    if HasOp(e1, AndOp) {
      AndCancels(e1, e2, a, b);
      if HasOp(b, OrOp) {
        SecondOr(e1, e2, a, b, a', b');
      }
    } else {
      if e1.Binary? { OrNotYes(e1, e2, a, b); } else { TidyIsReduced(e2); }
      if b.Binary? && !HasOp(a, b.op) {
        if b.op == OrOp { OrNotYes(a, b, a', b'); } else { AndRemains(a, b, a', b'); }
      }
    }
  }

  lemma SecondOr(e1: Expr, e2: Expr, a: Expr, b: Expr, a': Expr, b': Expr)
    requires Clean(AndOp, b) && HasOp(b, OrOp) && CancelStep(OrOp, a, b, a', b')
    requires EliminateYn(b) == Symbol(Y) <==> Cancels(e1, e2)
    ensures EliminateYn(b') != Symbol(Y) && !Cancels(e1, e2)
  {
    hide OpsCancelled, Balanced;
    OrNotYes(a, b, a', b');
    TidyIsReduced(b);
  }
}
