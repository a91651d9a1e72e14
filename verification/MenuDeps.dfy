/** The test by which menu_finalize moves an entry below the preceding symbol. */
module MenuDeps {
  import opened Options
  import opened Tristate
  import opened Expr
  import opened ExprCanon
  import opened ExprPath
  import opened ExprYn
  import opened ExprTransform
  import opened ExprCompare
  import opened ExprCancel
  import opened ExprDups
  import opened ExprExact
  import opened ExprEngine

  /** The comparison tests read e exactly. */
  predicate ReadExactly(e: Option<Expr>, env: Env) {
    e.Some? ==> TruthLeaves(e.value) && NotsTwoValued(e.value, env)
  }

  /** v is the simplified formula "e is not n": of the same value as the pushed-down comparison,
      regular and with nothing left to join or contradict if that is regular, and the very same
      formula if there is nothing to simplify. */
  ghost predicate IsTest(v: Expr, e: Option<Expr>) {
    var t := Transform(TransCompare(e, Unequal, N));
    && SameValue(v, TransCompare(e, Unequal, N)) && DupFree(v) && ContradictionFree(v)
    && (Regular(t) ==> Regular(v))
    && (!t.Binary? || (Regular(t) && DupFree(t) && ContradictionFree(t)) ==> v == t)
  }

  /** No boolean symbol is compared with m. */
  predicate NoBoolMod(e: Expr) {
    match e
    case Symbol(_) => true
    case Compare(_, l, r) => !(l.Bool? && r == M)
    case Not(x) => NoBoolMod(x)
    case Binary(_, l, r) => NoBoolMod(l) && NoBoolMod(r)
  }

  /** Then the test built for it is regular. */
  lemma TestRegular(e: Option<Expr>)
    requires e.Some? ==> NoBoolMod(e.value)
    ensures Regular(Transform(TransCompare(e, Unequal, N)))
  {
    var t := TransCompare(e, Unequal, N);
    TransformIsNnf(t);
    NnfNormal(t, true);
    if e.Some? { TestLiterals(e.value, Unequal, true); }
  }

  lemma {:induction false} TestLiterals(e: Expr, rel: Rel, positive: bool)
    requires NoBoolMod(e)
    ensures var v := Nnf(TransCompare(Some(e), rel, N), positive); Plain(v) && Reduced(v) && !IsYn(v)
    decreases e
  {
    match e
    case Symbol(_) =>
    case Compare(_, _, _) =>
    case Not(x) => TestLiterals(x, Flip(rel), positive);
    case Binary(op, l, r) =>
      TestLiterals(l, Equal, if rel == Unequal then !positive else positive);
      TestLiterals(r, Equal, if rel == Unequal then !positive else positive);
  }

  /** The two-valued formula "e is not n", as menu_finalize builds it. */
  method Visible(engine: Engine, e: Option<Expr>) returns (v: Expr)
    modifies engine
    ensures engine.transCount == old(engine.transCount)
    ensures IsTest(v, e)
  {
    hide Regular, DupFree, ContradictionFree, KeepsForm, Sharp;
    var test := TransCompare(e, Unequal, N);
    var t := Transform(test);
    var r := engine.EliminateDups(Some(t));
    v := r.value;
    forall env: Env ensures Eval(v, env) == Eval(test, env) {
      TransCompareTwoValued(e, Unequal, N, env);
      TransformValue(test, env);
      assert Refines(Eval(t, env), Eval(v, env));
    }
    RegularKept(t, v);
  }

  lemma RegularKept(e: Expr, e': Expr)
    requires KeepsForm(e, e') && (e' == e || Reduced(e'))
    ensures Regular(e) ==> Regular(e')
  {
  }

  /** Whether the entry with dependency dep belongs below the symbol sym whose prompt is visible
      under base: if it mentions sym, and either depends on it or is visible only where the prompt
      is. The latter is decided on the two tests: the && operands of the prompt's test must all be
      && operands of the entry's, or there is no such operand. */
  method BelongsBelow(engine: Engine, base: Option<Expr>, dep: Option<Expr>, sym: Sym)
      returns (below: bool, ghost baseTest: Expr, ghost depTest: Expr)
    modifies engine
    ensures IsTest(baseTest, base) && (ContainsSymbol(dep, sym) && !DependsSymbol(dep, sym) ==> IsTest(depTest, dep))
    ensures below ==> ContainsSymbol(dep, sym)
    ensures DependsSymbol(dep, sym) ==> below
    ensures ContainsSymbol(dep, sym) && !DependsSymbol(dep, sym) && Regular(baseTest) && Regular(depTest) ==>
      (below <==> Cancels(depTest, baseTest))
    ensures base.None? ==> (below <==> ContainsSymbol(dep, sym))
    ensures below && !DependsSymbol(dep, sym) ==>
      forall env: Env :: ReadExactly(base, env) && ReadExactly(dep, env) && EvalOpt(dep, env) != No ==> EvalOpt(base, env) != No
    ensures below && DependsSymbol(dep, sym) && !sym.Other? && !sym.Quoted? ==>
      forall env: Env :: EvalOpt(dep, env) != No ==> SymTri(sym, env) != No
  {
    hide IsTest, Regular, Cancels;
    var basedep := Visible(engine, base);
    baseTest, depTest := basedep, basedep;
    if base.None? { NoPrompt(basedep); }
    if !ContainsSymbol(dep, sym) {
      if DependsSymbol(dep, sym) { DependsContains(dep, sym); }
      return false, baseTest, depTest;
    }
    if DependsSymbol(dep, sym) {
      if !sym.Other? && !sym.Quoted? {
        forall env: Env | EvalOpt(dep, env) != No ensures SymTri(sym, env) != No {
          DependsForces(dep, sym, env);
        }
      }
      return true, baseTest, depTest;
    }
    var dep1 := Visible(engine, dep);
    depTest := dep1;
    var left1, left2, layers := engine.EliminateEq(Some(dep1), Some(basedep));
    below := IsYes(left2);
    if Regular(baseTest) && Regular(depTest) {
      RegularTidy(baseTest);
      RegularTidy(depTest);
    }
    if below {
      CancelledVisible(base, dep, basedep, dep1, left1.value, layers);
    }
  }

  /** Without a condition on the prompt its test is y. */
  lemma NoPrompt(v: Expr)
    requires IsTest(v, None)
    ensures v == Symbol(Y)
  {
    hide DupFree, ContradictionFree, Regular;
  }

  /** Where the prompt's test cancels against the entry's, the entry is visible only where the prompt is. */
  lemma CancelledVisible(base: Option<Expr>, dep: Option<Expr>, baseTest: Expr, depTest: Expr, left: Expr, layers: Layers)
    requires IsTest(baseTest, base) && IsTest(depTest, dep)
    requires Restores(layers, depTest, left) && Restores(layers, baseTest, Symbol(Y))
    ensures forall env: Env :: ReadExactly(base, env) && ReadExactly(dep, env) && EvalOpt(dep, env) != No ==> EvalOpt(base, env) != No
  {
    hide DupFree, ContradictionFree, Regular;
    forall env: Env | ReadExactly(base, env) && ReadExactly(dep, env) && EvalOpt(dep, env) != No
      ensures EvalOpt(base, env) != No
    {
      TransCompareExact(dep, Unequal, N, env);
      TransCompareExact(base, Unequal, N, env);
      assert Eval(depTest, env) == Restore(layers, Eval(left, env), env);
      assert Eval(baseTest, env) == Restore(layers, Yes, env);
      RestoreMonotone(layers, Eval(left, env), Yes, env);
      assert Eval(depTest, env) == Eval(TransCompare(dep, Unequal, N), env);
      assert Eval(baseTest, env) == Eval(TransCompare(base, Unequal, N), env);
    }
  }

  lemma {:induction false} DependsContains(e: Option<Expr>, s: Sym)
    requires DependsSymbol(e, s)
    ensures ContainsSymbol(e, s)
    decreases SizeOpt(e)
  {
    if e.value.Binary? {
      if DependsSymbol(Some(e.value.left), s) {
        DependsContains(Some(e.value.left), s);
      } else {
        DependsContains(Some(e.value.right), s);
      }
    }
  }

  /** expr_alloc_and: a NULL formula adds nothing. */
  function AllocAnd(e1: Option<Expr>, e2: Option<Expr>): Option<Expr> {
    if e1.None? then e2 else if e2.None? then e1 else Some(Binary(AndOp, e1.value, e2.value))
  }

  predicate IsNnfOpt(e: Option<Expr>) {
    e.Some? ==> IsNnf(e.value)
  }

  /** What menu_finalize simplifies: the condition above and the entry's own, in normal form. */
  function Conjunction(above: Option<Expr>, dep: Option<Expr>): Option<Expr> {
    AllocAnd(above, if dep.None? then None else Some(Transform(dep.value)))
  }

  ghost predicate SharpOpt(e: Option<Expr>, env: Env) {
    e.Some? ==> Sharp(e.value, env)
  }

  /** There is nothing to simplify. */
  ghost predicate Simple(e: Option<Expr>) {
    e.Some? && e.value.Binary? ==> Regular(e.value) && DupFree(e.value) && ContradictionFree(e.value)
  }

  lemma ConjunctionValue(above: Option<Expr>, dep: Option<Expr>, env: Env)
    ensures EvalOpt(Conjunction(above, dep), env) == Min(EvalOpt(above, env), EvalOpt(dep, env))
  {
    hide Transform;
    if dep.Some? {
      TransformValue(dep.value, env);
    }
  }

  lemma ConjunctionNnf(above: Option<Expr>, dep: Option<Expr>)
    requires IsNnfOpt(above)
    ensures IsNnfOpt(Conjunction(above, dep))
  {
    if dep.Some? {
      TransformFixpoint(dep.value);
    }
  }

  /** The dependency menu_finalize stores for an entry: wherever the condition above and its own
      together say n or y, so does the dependency, and where the conjunction is sharp also m. It is
      free of duplicates, and in negation normal form if the condition above is. */
  method Inherit(engine: Engine, above: Option<Expr>, dep: Option<Expr>) returns (r: Option<Expr>)
    modifies engine
    ensures engine.transCount == old(engine.transCount)
    ensures r.None? <==> above.None? && dep.None?
    ensures Handed(above, dep, r, true) && (IsNnfOpt(above) ==> IsNnfOpt(r))
  {
    hide Regular, DupFree, ContradictionFree, Sharp, Transform;
    var own := if dep.None? then None else Some(Transform(dep.value));
    var both := AllocAnd(above, own);
    if IsNnfOpt(above) { ConjunctionNnf(above, dep); }
    r := engine.EliminateDups(both);
    forall env: Env
      ensures HandedValue(Min(EvalOpt(above, env), EvalOpt(dep, env)), EvalOpt(r, env), SharpOpt(both, env), true)
    {
      ConjunctionValue(above, dep, env);
      if both.Some? {
        assert Refines(Eval(both.value, env), Eval(r.value, env));
      }
    }
  }

  /** What is stored for a property of an entry: expr_trans_bool is applied for a symbol that is
      not tristate. */
  function Stored(e: Expr, tristate: bool): Expr {
    if tristate then e else TransBool(e)
  }

  /** No symbol is m. */
  predicate Settled(env: Env) {
    forall name :: name in env.tris ==> env.tris[name] != Mod
  }

  lemma {:induction false} TransBoolSettled(e: Expr, env: Env)
    requires Settled(env)
    ensures Eval(TransBool(e), env) == Eval(e, env)
  {
    match e
    case Symbol(_) =>
    case Compare(rel, l, r) =>
      if rel == Unequal && l.Tris? && r == N {
        assert SymTri(l, env) != Mod;
      }
    case Not(x) => TransBoolSettled(x, env);
    case Binary(_, l, r) => TransBoolSettled(l, env); TransBoolSettled(r, env);
  }

  /** The value w stored where the conditions together have the value v: n for n and not n for y;
      n and y exactly, if no y can be lowered (exact); and m, too, where nothing contradictory is
      simplified (sharp). */
  predicate HandedValue(v: Tri, w: Tri, sharp: bool, exact: bool) {
    && (v == No ==> w == No) && (v == Yes ==> w != No) && (exact ==> Refines(v, w))
    && (sharp && (exact || v == Mod) ==> w == v)
  }

  /** What menu_finalize stores for a condition of an entry below another condition. An entry that has
      no symbol or a tristate one (tristate) gets a formula free of duplicates, another one a formula
      without tests FOO!=n. If there is nothing to simplify, the conjunction itself is stored. */
  ghost predicate Handed(above: Option<Expr>, was: Option<Expr>, now: Option<Expr>, tristate: bool) {
    var both := Conjunction(above, was);
    && (IsNnfOpt(above) ==> IsNnfOpt(now))
    && (now.Some? ==> if tristate then DupFree(now.value) && ContradictionFree(now.value) else TestFree(now.value))
    && (Simple(both) && (tristate || both.None? || TestFree(both.value)) ==> now == both)
    && forall env: Env ::
      HandedValue(Min(EvalOpt(above, env), EvalOpt(was, env)), EvalOpt(now, env), SharpOpt(both, env), tristate || Settled(env))
  }

  /** The visibility menu_finalize stores for a property of an entry. */
  method InheritProperty(engine: Engine, above: Option<Expr>, dep: Option<Expr>, tristate: bool) returns (r: Option<Expr>)
    requires IsNnfOpt(above)
    modifies engine
    ensures engine.transCount == old(engine.transCount)
    ensures Handed(above, dep, r, tristate) && IsNnfOpt(r)
  {
    hide Regular, DupFree, ContradictionFree, Sharp, Transform, Conjunction, Handed;
    var e := Inherit(engine, above, dep);
    r := if e.None? then None else Some(Stored(e.value, tristate));
    if e.Some? && !tristate {
      StoredLower(e.value);
    }
    HandedProperty(above, dep, e, r, tristate);
  }

  lemma StoredLower(e: Expr)
    requires IsNnf(e)
    ensures IsNnf(TransBool(e)) && TestFree(TransBool(e)) && (TestFree(e) ==> TransBool(e) == e)
    ensures forall env: Env ::
      Eval(TransBool(e), env) == Eval(e, env) || (Eval(e, env) == Yes && Eval(TransBool(e), env) == Mod && !Settled(env))
  {
    NnfNoTestUnderNot(e);
    TransBoolNnf(e);
    TransBoolTests(e);
    forall env: Env
      ensures Eval(TransBool(e), env) == Eval(e, env) || (Eval(e, env) == Yes && Eval(TransBool(e), env) == Mod && !Settled(env))
    {
      TransBoolKeepsNotNo(e, env);
      if Settled(env) { TransBoolSettled(e, env); }
    }
  }

  lemma HandedProperty(above: Option<Expr>, was: Option<Expr>, e: Option<Expr>, now: Option<Expr>, tristate: bool)
    requires Handed(above, was, e, true)
    requires now == if e.None? then None else Some(Stored(e.value, tristate))
    requires e.Some? && !tristate ==>
      IsNnf(now.value) && TestFree(now.value) && (TestFree(e.value) ==> now == e) &&
      forall env: Env :: Eval(now.value, env) == Eval(e.value, env) ||
        (Eval(e.value, env) == Yes && Eval(now.value, env) == Mod && !Settled(env))
    ensures Handed(above, was, now, tristate)
  {
    hide Regular, DupFree, ContradictionFree, Sharp, Transform, Conjunction, TransBool, Simple, TestFree;
    forall env: Env
      ensures HandedValue(Min(EvalOpt(above, env), EvalOpt(was, env)), EvalOpt(now, env), SharpOpt(Conjunction(above, was), env),
        tristate || Settled(env))
    {
      assert HandedValue(Min(EvalOpt(above, env), EvalOpt(was, env)), EvalOpt(e, env), SharpOpt(Conjunction(above, was), env), true);
    }
  }

  lemma {:induction false} TransBoolNnf(e: Expr)
    requires IsNnf(e)
    ensures IsNnf(TransBool(e))
  {
    if e.Binary? {
      TransBoolNnf(e.left);
      TransBoolNnf(e.right);
    }
  }

  /** Exactly without the last step is every n or y answer stored as it is: FOO!=n becomes FOO. */
  lemma StoredAnswers(tristate: bool)
    ensures (forall e :: RefinedBy(e, Stored(e, tristate))) <==> tristate
  {
    if !tristate {
      var e, env := Compare(Unequal, Tris("FOO"), N), Env({}, map["FOO" := Mod], map[]);
      assert Eval(e, env) == Yes && Eval(Stored(e, tristate), env) == Mod;
      assert !Refines(Eval(e, env), Eval(Stored(e, tristate), env));
      assert !RefinedBy(e, Stored(e, tristate));
    }
  }

  /** Exactly without the last step does the stored formula stay free of duplicates:
      FOO || FOO!=n becomes FOO || FOO. */
  lemma StoredDupFree(tristate: bool)
    ensures (forall e :: DupFree(e) ==> DupFree(Stored(e, tristate))) <==> tristate
  {
    if !tristate {
      var foo := Symbol(Tris("FOO"));
      var e := Binary(OrOp, foo, Compare(Unequal, Tris("FOO"), N));
      PairDupFree(foo, Compare(Unequal, Tris("FOO"), N));
      PairDuplicate(foo);
      assert Stored(e, tristate) == Binary(OrOp, foo, foo);
    }
  }

  /** Two literals that do not join make a formula without duplicates. */
  lemma PairDupFree(l: Expr, r: Expr)
    requires !l.Binary? && !r.Binary? && NoJoin(OrOp, l, r) && NoJoin(OrOp, r, l)
    ensures DupFree(Binary(OrOp, l, r))
  {
    var e := Binary(OrOp, l, r);
    forall i, j | IsTip(ShapeOf(OrOp, e), i) && IsTip(ShapeOf(OrOp, e), j) && i != j
      ensures NoJoin(OrOp, Get(OrOp, e, i), Get(OrOp, e, j)) && DupFree(Get(OrOp, e, i))
    {
      PairTip(e, i);
      PairTip(e, j);
    }
  }

  lemma PairTip(e: Expr, p: Path)
    requires e.Binary? && e.op == OrOp && !e.left.Binary? && !e.right.Binary? && IsTip(ShapeOf(OrOp, e), p)
    ensures p == [false] || p == [true]
    ensures Get(OrOp, e, p) == if p == [false] then e.left else e.right
  {
    assert ShapeOf(OrOp, e) == Fork(Tip, Tip);
    assert p != [] && At(Tip, p[1..]);
    assert p == [p[0]] + p[1..];
  }

  lemma PairDuplicate(l: Expr)
    requires !l.Binary? && Tidy(l)
    ensures !DupFree(Binary(OrOp, l, l))
  {
    var e := Binary(OrOp, l, l);
    var i, j := [false], [true];
    assert i[1..] == [] && j[1..] == [];
    assert IsTip(ShapeOf(OrOp, e), i) && IsTip(ShapeOf(OrOp, e), j) && i != j;
    assert Get(OrOp, e, i) == l && Get(OrOp, e, j) == l;
  }
}
