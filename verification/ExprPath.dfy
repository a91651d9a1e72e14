/** Positions inside a formula: a struct expr ** that points into a tree is a path here. */
module ExprPath {
  import opened Tristate
  import opened Expr
  import opened ExprTransform
  import opened ExprYn

  /** false goes left, true goes right. */
  type Path = seq<bool>

  /** The op-nodes at the top of a formula, with its operands as tips. */
  datatype Shape = Tip | Fork(left: Shape, right: Shape)

  function ShapeOf(op: Op, e: Expr): Shape {
    if HasOp(e, op) then Fork(ShapeOf(op, e.left), ShapeOf(op, e.right)) else Tip
  }

  predicate At(s: Shape, p: Path) {
    p == [] || (s.Fork? && At(if p[0] then s.right else s.left, p[1..]))
  }

  function Below(s: Shape, p: Path): Shape
    requires At(s, p)
  {
    if p == [] then s else Below(if p[0] then s.right else s.left, p[1..])
  }

  predicate IsTip(s: Shape, p: Path) {
    At(s, p) && Below(s, p).Tip?
  }

  function Nodes(s: Shape): nat {
    match s
    case Tip => 1
    case Fork(l, r) => 1 + Nodes(l) + Nodes(r)
  }

  function Get(op: Op, e: Expr, p: Path): (x: Expr)
    requires At(ShapeOf(op, e), p)
    ensures ShapeOf(op, x) == Below(ShapeOf(op, e), p)
    ensures p != [] ==> Size(x) < Size(e)
  {
    if p == [] then e else Get(op, if p[0] then e.right else e.left, p[1..])
  }

  function Put(op: Op, e: Expr, p: Path, x: Expr): (r: Expr)
    requires At(ShapeOf(op, e), p)
    ensures Size(r) == Size(e) - Size(Get(op, e, p)) + Size(x)
  {
    if p == [] then x
    else if p[0] then Binary(op, e.left, Put(op, e.right, p[1..], x))
    else Binary(op, Put(op, e.left, p[1..], x), e.right)
  }

  lemma {:induction false} Step(op: Op, e: Expr, p: Path, b: bool)
    requires At(ShapeOf(op, e), p) && Below(ShapeOf(op, e), p).Fork?
    ensures At(ShapeOf(op, e), p + [b])
    ensures Below(ShapeOf(op, e), p + [b]) == if b then Below(ShapeOf(op, e), p).right else Below(ShapeOf(op, e), p).left
  {
    if p != [] {
      assert (p + [b])[1..] == p[1..] + [b];
      Step(op, if p[0] then e.right else e.left, p[1..], b);
    }
  }

  /** Replacing a tip by another non-op formula keeps the shape. */
  lemma {:induction false} PutShape(op: Op, e: Expr, p: Path, x: Expr)
    requires IsTip(ShapeOf(op, e), p)
    requires !HasOp(x, op)
    ensures ShapeOf(op, Put(op, e, p, x)) == ShapeOf(op, e)
  {
    if p != [] {
      PutShape(op, if p[0] then e.right else e.left, p[1..], x);
    }
  }

  lemma {:induction false} GetPut(op: Op, e: Expr, p: Path, x: Expr, q: Path)
    requires IsTip(ShapeOf(op, e), p) && IsTip(ShapeOf(op, e), q)
    requires !HasOp(x, op)
    ensures ShapeOf(op, Put(op, e, p, x)) == ShapeOf(op, e)
    ensures Get(op, Put(op, e, p, x), q) == if p == q then x else Get(op, e, q)
  {
    PutShape(op, e, p, x);
    if p != [] && q != [] {
      var e' := if p[0] then e.right else e.left;
      if p[0] == q[0] {
        GetPut(op, e', p[1..], x, q[1..]);
        assert p[1..] == q[1..] ==> p == [p[0]] + p[1..] == q;
      } else {
        PutShape(op, e', p[1..], x);
      }
    }
  }

  lemma {:induction false} PutGet(op: Op, e: Expr, p: Path)
    requires At(ShapeOf(op, e), p)
    ensures Put(op, e, p, Get(op, e, p)) == e
  {
    if p != [] {
      PutGet(op, if p[0] then e.right else e.left, p[1..]);
    }
  }

  /** The positions of a negation normal form hold negation normal forms, and can be given others. */
  lemma {:induction false} PutNnf(op: Op, e: Expr, p: Path, x: Expr)
    requires At(ShapeOf(op, e), p) && IsNnf(e)
    ensures IsNnf(Get(op, e, p))
    ensures IsNnf(x) ==> IsNnf(Put(op, e, p, x))
  {
    if p != [] {
      PutNnf(op, if p[0] then e.right else e.left, p[1..], x);
    }
  }

  /** An operand contributes through op alone: pull it out and leave the neutral constant. */
  lemma {:induction false} PutValue(op: Op, e: Expr, p: Path, x: Expr, env: Env)
    requires At(ShapeOf(op, e), p)
    ensures Eval(Put(op, e, p, x), env)
         == Apply(op, Eval(x, env), Eval(Put(op, e, p, Symbol(Neutral(op))), env))
  {
    hide Apply;
    NeutralLaw(op, Eval(x, env), env);
    if p != [] {
      var below := if p[0] then e.right else e.left;
      PutValue(op, below, p[1..], x, env);
      var other := Eval(if p[0] then e.left else e.right, env);
      var w := Eval(Put(op, below, p[1..], Symbol(Neutral(op))), env);
      OpLaws(op, other, Eval(x, env), w);
      OpLaws(op, Eval(x, env), other, w);
      OpLaws(op, Eval(x, env), w, other);
    }
  }

  lemma NeutralLaw(op: Op, v: Tri, env: Env)
    ensures Apply(op, v, Eval(Symbol(Neutral(op)), env)) == v
  {
  }

  /** Every position bounds the whole formula. */
  lemma {:induction false} GetBounds(op: Op, e: Expr, p: Path, env: Env)
    requires At(ShapeOf(op, e), p)
    ensures Apply(op, Eval(e, env), Eval(Get(op, e, p), env)) == Eval(e, env)
  {
    if p != [] {
      GetBounds(op, if p[0] then e.right else e.left, p[1..], env);
    }
  }

  /** A better informed operand makes a better informed formula. */
  lemma PutRefines(op: Op, e: Expr, p: Path, x: Expr, env: Env)
    requires At(ShapeOf(op, e), p)
    requires Refines(Eval(Get(op, e, p), env), Eval(x, env))
    ensures Refines(Eval(e, env), Eval(Put(op, e, p, x), env))
  {
    PutGet(op, e, p);
    PutValue(op, e, p, Get(op, e, p), env);
    PutValue(op, e, p, x, env);
  }

  lemma PutSame(op: Op, e: Expr, p: Path, x: Expr, env: Env)
    requires At(ShapeOf(op, e), p)
    requires Eval(Get(op, e, p), env) == Eval(x, env)
    ensures Eval(e, env) == Eval(Put(op, e, p, x), env)
  {
    PutGet(op, e, p);
    PutValue(op, e, p, Get(op, e, p), env);
    PutValue(op, e, p, x, env);
  }

  /** Joining two different operands: one becomes the neutral constant, the other their op. */
  lemma PutJoin(op: Op, e: Expr, p: Path, q: Path, x: Expr, env: Env)
    requires IsTip(ShapeOf(op, e), p) && IsTip(ShapeOf(op, e), q) && p != q
    requires Eval(x, env) == Apply(op, Eval(Get(op, e, p), env), Eval(Get(op, e, q), env))
    requires At(ShapeOf(op, Put(op, e, p, Symbol(Neutral(op)))), q)
    ensures Eval(Put(op, Put(op, e, p, Symbol(Neutral(op))), q, x), env) == Eval(e, env)
  {
    var n := Symbol(Neutral(op));
    var e1 := Put(op, e, p, n);
    GetPut(op, e, p, n, q);
    PutGet(op, e, p);
    PutValue(op, e, p, Get(op, e, p), env);
    PutGet(op, e1, q);
    PutValue(op, e1, q, Get(op, e1, q), env);
    PutValue(op, e1, q, x, env);
    OpLaws(op, Eval(Get(op, e, p), env), Eval(Get(op, e, q), env), Eval(Put(op, e1, q, n), env));
  }

  /** A constant put under an op-node, or an unreduced operand, leaves the formula unreduced. */
  lemma {:induction false} PutUnreduced(op: Op, e: Expr, p: Path, x: Expr)
    requires At(ShapeOf(op, e), p)
    requires !Reduced(x) || (p != [] && IsYn(x))
    ensures !Reduced(Put(op, e, p, x))
  {
    if p != [] && (p[1..] != [] || !Reduced(x)) {
      PutUnreduced(op, if p[0] then e.right else e.left, p[1..], x);
    }
  }
}
