/** Comparison, cancellation and duplicate elimination: the functions of expr.c that rewrite
    formulas through struct expr ** and count their rewrites in the global trans_count. */
module ExprEngine {
  import opened Options
  import opened Expr
  import opened ExprYn
  import opened ExprTransform
  import opened ExprCanon
  import opened ExprPath
  import opened ExprJoin
  import opened ExprCancel
  import opened ExprDups
  import opened ExprExact

  class Engine {
    /** trans_count: rewrites made since it was last reset. */
    var transCount: nat

    /** expr_eq: a positive answer is sound; on tidy formulas the answer is whether they are
        equal up to order and grouping of operands. The rewrite count is left alone. */
    method ExprEq(e1: Expr, e2: Expr) returns (r: bool)
      modifies this
      ensures transCount == old(transCount)
      ensures r ==> SameValue(e1, e2)
      ensures e1.Symbol? || e2.Symbol? ==> (r <==> e1 == e2)
      ensures Tidy(e1) && Tidy(e2) ==> (r <==> Canon(e1) == Canon(e2))
      decreases Size(e1) + Size(e2), 2
    {
      match (e1, e2)
      case (Compare(rel1, l1, r1), Compare(rel2, l2, r2)) =>
        r := rel1 == rel2 && l1 == l2 && r1 == r2;
      case (Symbol(s1), Symbol(s2)) =>
        r := s1 == s2;
      case (Not(x1), Not(x2)) =>
        r := ExprEq(x1, x2);
      case (Binary(op1, _, _), Binary(op2, _, _)) =>
        if op1 != op2 {
          return false;
        }
        var oldCount := transCount;
        var e1', e2', layers := EliminateEqBoth(e1, e2);
        r := e1'.Symbol? && e2'.Symbol? && e1'.sym == e2'.sym;
        transCount := oldCount;
      case _ =>
        r := false;
    }

    /** __expr_eliminate_eq: cancels common operands of e1 and e2 seen as op-formulas. Some c was
        taken out of both; on clean formulas exactly the common operands were. */
    method EliminateEqRec(op: Op, e1: Expr, e2: Expr) returns (e1': Expr, e2': Expr, ghost c: Expr)
      modifies this
      ensures Splits(op, e1, e1', c) && Splits(op, e2, e2', c)
      ensures Size(e1') <= Size(e1) && CancelStep(op, e1, e2, e1', e2')
      ensures Flagged(e1) || Flagged(e2) ==> e1' == e1 && e2' == e2
      ensures transCount >= old(transCount)
      ensures transCount == old(transCount) ==> e1' == e1 && e2' == e2
      decreases Size(e1) + Size(e2), if HasOp(e1, op) || HasOp(e2, op) then 0 else 3
    {
      hide Splits, OpsCancelled, Balanced, Tidy, Canon;
      if HasOp(e1, op) {
        var l', e2a, c1 := EliminateEqRec(op, e1.left, e2);
        var r', e2b, c2 := EliminateEqRec(op, e1.right, e2a);
        e1', e2', c := Binary(op, l', r'), e2b, Binary(op, c1, c2);
        SplitsBoth(op, e1.left, e1.right, l', r', c1, c2);
        SplitsTwice(op, e2, e2a, e2b, c1, c2);
        OpsCancelledFork(op, e1.left, e1.right, e2, l', r', e2a, e2b);
        BalancedFork(op, e1.left, e1.right, e2, l', r', e2a, e2b);
        assert e1 == Binary(op, e1.left, e1.right);
        return;
      }
      if HasOp(e2, op) {
        var e1a, l', c1 := EliminateEqRec(op, e1, e2.left);
        var e1b, r', c2 := EliminateEqRec(op, e1a, e2.right);
        e1', e2', c := e1b, Binary(op, l', r'), Binary(op, c1, c2);
        SplitsBoth(op, e2.left, e2.right, l', r', c1, c2);
        SplitsTwice(op, e1, e1a, e1b, c1, c2);
        OpsCancelledFork(op, e2.left, e2.right, e1, l', r', e1a, e1b);
        BalancedFork(op, e2.left, e2.right, e1, l', r', e1a, e1b);
        assert e2 == Binary(op, e2.left, e2.right);
        return;
      }
      BalancedTips(op, e1, e2);
      e1', e2', c := e1, e2, Symbol(Neutral(op));
      SplitsNeutral(op, e1);
      SplitsNeutral(op, e2);
      if e1.Symbol? && e1 == e2 && YesNoFlag(e1.sym) {
        FlaggedStays(op, e1);
        return;
      }
      var same := ExprEq(e1, e2);
      OpsCancelledTips(op, e1, e2, same);
      if !same {
        return;
      }
      transCount := transCount + 1;
      e1', e2', c := Symbol(Neutral(op)), Symbol(Neutral(op)), e1;
      SplitsAll(op, e1, e1);
      SplitsAll(op, e2, e1);
    }

    /** expr_eliminate_eq on two formulas: whatever was cancelled was taken out of both. On tidy
        formulas e2 is left as y exactly if it cancels. */
    method EliminateEqBoth(e1: Expr, e2: Expr) returns (e1': Expr, e2': Expr, ghost layers: Layers)
      modifies this
      ensures Restores(layers, e1, e1') && Restores(layers, e2, e2')
      ensures e1.Binary? && e2.Binary? && e1.op == e2.op && Tidy(e1) && Tidy(e2) ==>
        (e1'.Symbol? && e2' == e1' <==> Canon(e1) == Canon(e2))
      ensures Flagged(e2) ==> e2' == e2
      ensures Tidy(e1) && Tidy(e2) ==> (e2' == Symbol(Y) <==> Cancels(e1, e2))
      ensures transCount >= old(transCount)
      decreases Size(e1) + Size(e2), 1
    {
      e1', e2', layers := e1, e2, [];
      if e1'.Binary? {
        var op := e1'.op;
        var a, b, c := EliminateEqRec(op, e1', e2');
        RestoresOne(op, c, e1, a);
        RestoresOne(op, c, e2, b);
        e1', e2', layers := a, b, [(op, c)];
      }
      ghost var a1, b1 := e1', e2';
      if e2'.Binary? && !HasOp(e1', e2'.op) {
        var op := e2'.op;
        var a, b, c := EliminateEqRec(op, e1', e2');
        RestoresTwo(op, c, layers, e1, e1', a);
        RestoresTwo(op, c, layers, e2, e2', b);
        e1', e2', layers := a, b, [(op, c)] + layers;
      }
      ghost var a, b := e1', e2';
      e1', e2' := EliminateYn(e1'), EliminateYn(e2');
      EliminateYnSame(a);
      EliminateYnSame(b);
      RestoresSame(layers, e1, a, e1');
      RestoresSame(layers, e2, b, e2');
      if e1.Binary? && e2.Binary? && e1.op == e2.op && Tidy(e1) && Tidy(e2) {
        CancelDecides(e1.op, e1, e2, a, b);
      }
      if Tidy(e1) && Tidy(e2) {
        if Flagged(e1) || Flagged(e2) {
          FlaggedCancels(e1, e2);
        } else {
          CancelledToYes(e1, e2, a1, b1, a, b);
        }
      }
    }

    /** expr_eliminate_eq: NULL formulas are left alone. */
    method EliminateEq(e1: Option<Expr>, e2: Option<Expr>)
      returns (e1': Option<Expr>, e2': Option<Expr>, ghost layers: Layers)
      modifies this
      ensures e1.None? || e2.None? ==> e1' == e1 && e2' == e2
      ensures e1.Some? && e2.Some? ==>
        e1'.Some? && Restores(layers, e1.value, e1'.value) &&
        e2'.Some? && Restores(layers, e2.value, e2'.value)
      ensures e2.Some? && Flagged(e2.value) ==> e2' == e2
      ensures e1.Some? && e2.Some? && Tidy(e1.value) && Tidy(e2.value) ==>
        (e2' == Some(Symbol(Y)) <==> Cancels(e1.value, e2.value))
      ensures transCount >= old(transCount)
    {
      e1', e2', layers := e1, e2, [];
      if e1.None? || e2.None? {
        return;
      }
      var a, b;
      a, b, layers := EliminateEqBoth(e1.value, e2.value);
      e1', e2' := Some(a), Some(b);
    }

    /** expr_extract_eq: moves the common operands of e1 and e2 to the collected formula. */
    method ExtractEqRec(op: Op, acc: Option<Expr>, e1: Expr, e2: Expr)
      returns (acc': Option<Expr>, e1': Expr, e2': Expr, ghost c: Expr)
      modifies this
      ensures transCount == old(transCount)
      ensures Splits(op, e1, e1', c) && Splits(op, e2, e2', c) && Collects(op, acc, acc', c)
      ensures acc'.None? ==> acc.None? && e1' == e1 && e2' == e2
      ensures Size(e1') <= Size(e1) && Size(e2') <= Size(e2)
      ensures OpsCancelled(op, e1, e2, e1', e2') && OpsCollected(op, acc, e1, e2, acc')
      decreases Size(e1) + Size(e2)
    {
      hide Splits, Collects, OpsCancelled, OpsCollected, Tidy, Canon;
      if HasOp(e1, op) {
        var acca, l', e2a, c1 := ExtractEqRec(op, acc, e1.left, e2);
        var accb, r', e2b, c2 := ExtractEqRec(op, acca, e1.right, e2a);
        acc', e1', e2', c := accb, Binary(op, l', r'), e2b, Binary(op, c1, c2);
        SplitsBoth(op, e1.left, e1.right, l', r', c1, c2);
        SplitsTwice(op, e2, e2a, e2b, c1, c2);
        CollectsTwice(op, acc, acca, accb, c1, c2);
        OpsCancelledFork(op, e1.left, e1.right, e2, l', r', e2a, e2b);
        OpsCollectedFork(op, e1.left, e1.right, e2, l', e2a, acc, acca, accb);
        assert e1 == Binary(op, e1.left, e1.right);
        return;
      }
      if HasOp(e2, op) {
        var acca, e1a, l', c1 := ExtractEqRec(op, acc, e1, e2.left);
        var accb, e1b, r', c2 := ExtractEqRec(op, acca, e1a, e2.right);
        acc', e1', e2', c := accb, e1b, Binary(op, l', r'), Binary(op, c1, c2);
        SplitsBoth(op, e2.left, e2.right, l', r', c1, c2);
        SplitsTwice(op, e1, e1a, e1b, c1, c2);
        CollectsTwice(op, acc, acca, accb, c1, c2);
        OpsCancelledFork(op, e2.left, e2.right, e1, l', r', e1a, e1b);
        OpsCollectedFork(op, e2.left, e2.right, e1, l', e1a, acc, acca, accb);
        assert e2 == Binary(op, e2.left, e2.right);
        return;
      }
      acc', e1', e2', c := acc, e1, e2, Symbol(Neutral(op));
      SplitsNeutral(op, e1);
      SplitsNeutral(op, e2);
      var same := ExprEq(e1, e2);
      OpsCancelledTips(op, e1, e2, same);
      OpsCollectedTips(op, acc, e1, e2, same);
      CollectsTips(op, acc, e1);
      if same {
        acc' := Some(if acc.Some? then Binary(op, acc.value, e1) else e1);
        e1', e2', c := Symbol(Neutral(op)), Symbol(Neutral(op)), e1;
        SplitsAll(op, e1, e1);
        SplitsAll(op, e2, e1);
      }
    }

    /** expr_extract_eq_and, expr_extract_eq_or: the common factor, and what is left without it. */
    method ExtractEq(op: Op, e1: Expr, e2: Expr) returns (factor: Option<Expr>, e1': Expr, e2': Expr)
      modifies this
      ensures transCount == old(transCount)
      ensures factor.None? ==> e1' == e1 && e2' == e2
      ensures factor.Some? ==> Splits(op, e1, e1', factor.value) && Splits(op, e2, e2', factor.value)
      ensures OpsCancelled(op, e1, e2, e1', e2') && OpsCollected(op, None, e1, e2, factor)
      ensures factor.Some? && Clean(op, e1) && Clean(op, e2) ==>
        (e1' == Symbol(Neutral(op)) <==> Ops(op, e1) <= Ops(op, e2))
    {
      ghost var c;
      factor, e1', e2', c := ExtractEqRec(op, None, e1, e2);
      if factor.Some? {
        ghost var a, b := e1', e2';
        e1', e2' := EliminateYn(e1'), EliminateYn(e2');
        SplitsReduced(op, e1, a, c, factor.value);
        SplitsReduced(op, e2, b, c, factor.value);
        if Clean(op, e1) && Clean(op, e2) {
          CleanEliminate(op, a);
          CleanEliminate(op, b);
          CleanStays(op, a);
          CleanStays(op, b);
          DifferenceEmpty(Ops(op, e1), Ops(op, e2));
        }
      }
    }

    /** expr_join_or, expr_join_and: one formula for two operands, if there is one. */
    method Join(op: Op, e1: Expr, e2: Expr) returns (r: Option<Expr>)
      modifies this
      ensures transCount == old(transCount)
      ensures r.Some? ==> forall env: Env :: Eval(r.value, env) == Apply(op, Eval(e1, env), Eval(e2, env))
      ensures r.Some? ==> Size(r.value) <= Size(e1) && (!HasOp(e1, op) ==> !HasOp(r.value, op))
      ensures r.None? ==> NoJoin(op, e1, e2)
      ensures Tidy(e1) && Tidy(e2) ==> r == if Canon(e1) == Canon(e2) then Some(e1) else JoinRule(op, e1, e2)
      ensures Tidy(e1) && Tidy(e2) && NoJoin(op, e1, e2) ==> r.None?
      ensures r.Some? ==> JoinsForm(e1, e2, r.value) && (r.value == e1 || !r.value.Binary?)
    {
      var same := ExprEq(e1, e2);
      if same {
        return Some(e1);
      }
      r := JoinRule(op, e1, e2);
      if r.Some? {
        forall env: Env ensures Eval(r.value, env) == Apply(op, Eval(e1, env), Eval(e2, env)) {
          JoinRuleValue(op, e1, e2, env);
        }
        FormJoined(op, e1, e2);
      }
    }

    /** expr_eliminate_dups1(type, ep1, ep2) where both pointers point into e: joins every operand
        at or below p1 with every other operand at or below p2. Exact for all three values. */
    method Dups1(op: Op, e: Expr, p1: Path, p2: Path) returns (e': Expr)
      requires HasOp(e, op) && At(ShapeOf(op, e), p1) && At(ShapeOf(op, e), p2)
      modifies this
      ensures ShapeOf(op, e') == ShapeOf(op, e) && SameValue(e, e') && Size(e') <= Size(e)
      ensures transCount >= old(transCount)
      ensures transCount > old(transCount) ==> !Reduced(e')
      ensures transCount == old(transCount) ==> e' == e && DupFreeBetween(op, e, p1, p2)
      ensures Regular(e) && DupFreeBetween(op, e, p1, p2) ==> transCount == old(transCount)
      ensures KeepsForm(e, e') && KeepsSharp(e, e')
      decreases Size(e), Nodes(Below(ShapeOf(op, e), p1)) + Nodes(Below(ShapeOf(op, e), p2))
    {
      hide NoJoin, Put, DupFree, DupFreeBetween, Canon, Tidy, KeepsForm, KeepsSharp, Sharp, Regular, JoinsForm;
      ghost var s := ShapeOf(op, e);
      if HasOp(Get(op, e, p1), op) {
        Step(op, e, p1, false);
        Step(op, e, p1, true);
        DupFreeBelow(op, e, p1, p2);
        var e1 := Dups1(op, e, p1 + [false], p2);
        e' := Dups1(op, e1, p1 + [true], p2);
        FormTwice(e, e1, e');
        SharpTwice(e, e1, e');
        DupFreeFork(op, e, p1, p2);
        return;
      }
      if HasOp(Get(op, e, p2), op) {
        Step(op, e, p2, false);
        Step(op, e, p2, true);
        DupFreeBelow(op, e, p1, p2);
        var e1 := Dups1(op, e, p1, p2 + [false]);
        e' := Dups1(op, e1, p1, p2 + [true]);
        FormTwice(e, e1, e');
        SharpTwice(e, e1, e');
        DupFreeFork(op, e, p2, p1);
        return;
      }
      e' := e;
      FormStays(e);
      SharpStays(e);
      if p1 == p2 {
        DupFreeTips(op, e, p1, p2);
        return;
      }
      TipsDiffer(s, p1, p2);
      var x := Get(op, e, p1);
      DupFreePair(op, e, p1, p2);
      if x.Binary? {
        var x' := Dups1(x.op, x, [], []);
        PutOperand(op, e, p1, x');
        PutSameEverywhere(op, e, p1, x');
        FormPut(op, e, p1, x');
        SameRefines(e, Put(op, e, p1, x'));
        SharpOperand(op, e, p1, x');
        e' := Put(op, e, p1, x');
      }
      var joined := Join(op, Get(op, e', p1), Get(op, e', p2));
      if joined.Some? {
        JoinSound(op, e', p1, p2, joined.value);
        FormJoin(op, e', p1, p2, joined.value);
        SharpJoin(op, e', p1, p2, joined.value);
        ghost var e1 := e';
        e' := Put(op, Put(op, e', p1, Symbol(Neutral(op))), p2, joined.value);
        FormTwice(e, e1, e');
        SharpTwice(e, e1, e');
        transCount := transCount + 1;
      } else if transCount == old(transCount) {
        DupFreeOperand(x);
        DupFreeTips(op, e, p1, p2);
      }
    }

    /** expr_eliminate_dups2(type, ep1, ep2) likewise: replaces an operand whose negation is found
        elsewhere by the absorbing constant. Keeps every n or y answer. */
    method Dups2(op: Op, e: Expr, p1: Path, p2: Path) returns (e': Expr)
      requires HasOp(e, op) && At(ShapeOf(op, e), p1) && At(ShapeOf(op, e), p2)
      modifies this
      ensures ShapeOf(op, e') == ShapeOf(op, e) && RefinedBy(e, e') && Size(e') <= Size(e)
      ensures transCount >= old(transCount)
      ensures transCount > old(transCount) ==> !Reduced(e')
      ensures transCount == old(transCount) ==> e' == e && ContradictionFreeBetween(op, e, p1, p2)
      ensures Regular(e) && ContradictionFreeBetween(op, e, p1, p2) ==> transCount == old(transCount)
      ensures KeepsForm(e, e') && KeepsSharp(e, e')
      decreases Size(e), Nodes(Below(ShapeOf(op, e), p1)) + Nodes(Below(ShapeOf(op, e), p2))
    {
      hide KeepsForm, KeepsSharp, Sharp, Regular, ContradictionFree, NoContradiction, ContradictionFreeBetween;
      ghost var s := ShapeOf(op, e);
      if HasOp(Get(op, e, p1), op) {
        Step(op, e, p1, false);
        Step(op, e, p1, true);
        ContradictionFreeBelow(op, e, p1, p2);
        var e1 := Dups2(op, e, p1 + [false], p2);
        e' := Dups2(op, e1, p1 + [true], p2);
        RefinedByTwice(e, e1, e');
        FormTwice(e, e1, e');
        SharpTwice(e, e1, e');
        if transCount == old(transCount) {
          ContradictionFreeFork(op, e, p1, p2);
        }
        return;
      }
      e' := e;
      FormStays(e);
      SharpStays(e);
      if HasOp(Get(op, e, p2), op) {
        Step(op, e, p2, false);
        Step(op, e, p2, true);
        ContradictionFreeBelow(op, e, p1, p2);
        var e1 := Dups2(op, e, p1, p2 + [false]);
        e' := Dups2(op, e1, p1, p2 + [true]);
        RefinedByTwice(e, e1, e');
        FormTwice(e, e1, e');
        SharpTwice(e, e1, e');
      }
      if p1 == p2 {
        ContradictionFreeTip(op, e, p1, p2);
        return;
      }
      ContradictionFreePair(op, e, p1, p2);
      ghost var e1 := e';
      var x := Get(op, e', p1);
      if x.Binary? {
        assert p1 != [];
        e' := Dups2Operand(op, e', p1, p2);
        RefinedByTwice(e, e1, e');
        FormTwice(e, e1, e');
        SharpTwice(e, e1, e');
      }
      if transCount == old(transCount) {
        ContradictionFreeTip(op, e, p1, p2);
      }
    }

    /** The part of expr_eliminate_dups2 for an operand that is itself a && or ||. */
    method Dups2Operand(op: Op, e: Expr, p1: Path, p2: Path) returns (e': Expr)
      requires HasOp(e, op) && IsTip(ShapeOf(op, e), p1) && At(ShapeOf(op, e), p2) && p1 != p2
      requires Get(op, e, p1).Binary? && p1 != []
      modifies this
      ensures ShapeOf(op, e') == ShapeOf(op, e) && RefinedBy(e, e') && Size(e') <= Size(e)
      ensures transCount >= old(transCount)
      ensures transCount > old(transCount) ==> !Reduced(e')
      ensures transCount == old(transCount) ==>
        e' == e && NoContradiction(op, Get(op, e, p1), Get(op, e, p2)) && ContradictionFree(Get(op, e, p1))
      ensures Regular(e) && NoContradiction(op, Get(op, e, p1), Get(op, e, p2)) && ContradictionFree(Get(op, e, p1)) ==>
        transCount == old(transCount)
      ensures KeepsForm(e, e') && KeepsSharp(e, e')
      decreases Size(e), 0
    {
      hide KeepsForm, Transform, Put, Splits, Canon, Clean, Ops, NoContradiction, OpsCancelled, OpsCollected, ContradictionFree,
        ContradictionFreeBetween, KeepsSharp, Sharp, Regular, Tidy;
      var x := Get(op, e, p1);
      OperandOf(op, e, p1, p2);
      var x' := Dups2(x.op, x, [], []);
      PutOperand(op, e, p1, x');
      PutRefinesEverywhere(op, e, p1, x');
      FormPut(op, e, p1, x');
      SharpOperand(op, e, p1, x');
      e' := Put(op, e, p1, x');
      var negation := Transform(Not(x'));
      NegationBinary(x');
      var factor, left1, left2 := ExtractEq(op, negation, Get(op, e', p2));
      if left1 == Symbol(Neutral(op)) {
        PutAbsorbing(op, e', p1, p2, factor.value, negation, left2);
        if transCount == old(transCount) && Regular(e) {
          ContradictionFound(op, x, Get(op, e, p2), factor, left1);
        }
        FormConstant(Get(op, e', p1), Absorbing(op));
        FormPut(op, e', p1, Symbol(Absorbing(op)));
        SharpAbsorbed(op, e', p1);
        ghost var e1 := e';
        e' := Put(op, e', p1, Symbol(Absorbing(op)));
        RefinedByTwice(e, e1, e');
        FormTwice(e, e1, e');
        SharpTwice(e, e1, e');
        transCount := transCount + 1;
      } else {
        NothingContradicts(op, x', Get(op, e', p2), factor, left1);
        ContradictionFreeOperand(x');
      }
    }

    /** expr_eliminate_dups: repeats both passes and constant elimination until nothing changes.
        Every n or y answer is kept, and m wherever the formula is sharp; nothing is left that either
        pass would rewrite, and a formula without anything of the kind stays the very same. */
    method EliminateDups(e: Option<Expr>) returns (e': Option<Expr>)
      modifies this
      ensures transCount == old(transCount)
      ensures e.None? <==> e'.None?
      ensures e.Some? ==> RefinedBy(e.value, e'.value) && Size(e'.value) <= Size(e.value)
      ensures e.Some? ==> DupFree(e'.value) && ContradictionFree(e'.value)
      ensures e.Some? ==> forall env: Env :: Sharp(e.value, env) ==> Eval(e'.value, env) == Eval(e.value, env)
      ensures e.Some? && !e.value.Binary? ==> e' == e
      ensures e.Some? && Regular(e.value) && DupFree(e.value) && ContradictionFree(e.value) ==> e' == e
      ensures e.Some? ==> KeepsForm(e.value, e'.value) && (e' == e || Reduced(e'.value))
    {
      hide KeepsForm, Sharp, Regular, DupFree, ContradictionFree, DupFreeBetween, ContradictionFreeBetween;
      e' := e;
      if e.None? {
        return;
      }
      FormStays(e.value);
      SharpStays(e.value);
      var oldCount := transCount;
      var x := e.value;
      while true
        invariant RefinedBy(e.value, x) && Size(x) <= Size(e.value)
        invariant KeepsSharp(e.value, x)
        invariant Regular(e.value) && DupFree(e.value) && ContradictionFree(e.value) ==> x == e.value
        invariant !e.value.Binary? ==> x == e.value
        invariant KeepsForm(e.value, x) && (x == e.value || Reduced(x))
        decreases Size(x)
      {
        transCount := 0;
        ghost var x0 := x;
        if x.Binary? {
          if DupFree(x) { DupFreeInside(x); }
          if ContradictionFree(x) { ContradictionFreeInside(x); }
          var x1 := Dups1(x.op, x, [], []);
          assert RefinedBy(x, x1);
          x := Dups2(x.op, x1, [], []);
          RefinedByTwice(e.value, x0, x1);
          RefinedByTwice(e.value, x1, x);
          FormTwice(e.value, x0, x1);
          FormTwice(e.value, x1, x);
          SharpTwice(e.value, x0, x1);
          SharpTwice(e.value, x1, x);
        }
        if transCount == 0 {
          NothingLeft(x);
          break;
        }
        EliminateYnReduces(x);
        EliminateYnSame(x);
        assert RefinedBy(x, EliminateYn(x));
        RefinedByTwice(e.value, x, EliminateYn(x));
        FormEliminate(x);
        FormTwice(e.value, x, EliminateYn(x));
        SharpEliminate(x);
        SharpTwice(e.value, x, EliminateYn(x));
        x := EliminateYn(x);
      }
      transCount := oldCount;
      e' := Some(x);
    }
  }
}
