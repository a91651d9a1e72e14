/** Dependency formulas: struct expr and its meaning, expr_calc_value. */
module Expr {
  import opened Options
  import opened Tristate

  /** A symbol. Pointer equality of the C symbols is equality here: one value per symbol.
      Quoted is a quoted constant other than "y", "m", "n" (those are Y, M, N); Other is
      an int, hex, string or untyped symbol, whose truth value is always n. */
  datatype Sym =
    | Y | M | N
    | Bool(name: string)
    | Tris(name: string)
    | Other(name: string)
    | Quoted(text: string)

  datatype Op = AndOp | OrOp

  datatype Rel = Equal | Unequal

  datatype Expr =
    | Symbol(sym: Sym)
    | Compare(rel: Rel, lhs: Sym, rhs: Sym)
    | Not(arg: Expr)
    | Binary(op: Op, left: Expr, right: Expr)

  /** A C string, with the three strings naming a tristate kept apart from the rest. */
  datatype Text = TriText(tri: Tri) | PlainText(text: string)

  /** An assignment of values to symbols. A boolean symbol is never m. */
  datatype Env = Env(bools: set<string>, tris: map<string, Tri>, texts: map<string, Text>)

  function SymTri(s: Sym, env: Env): Tri {
    match s
    case Y => Yes
    case M => Mod
    case N => No
    case Bool(n) => Truth(n in env.bools)
    case Tris(n) => if n in env.tris then env.tris[n] else No
    case Other(_) => No
    case Quoted(_) => No
  }

  function SymText(s: Sym, env: Env): Text {
    match s
    case Other(n) => if n in env.texts then env.texts[n] else PlainText("")
    case Quoted(t) => PlainText(t)
    case _ => TriText(SymTri(s, env))
  }

  function Apply(op: Op, a: Tri, b: Tri): Tri {
    match op
    case AndOp => Min(a, b)
    case OrOp => Max(a, b)
  }

  function Test(rel: Rel, same: bool): Tri {
    Truth(if rel == Equal then same else !same)
  }

  function Eval(e: Expr, env: Env): Tri {
    match e
    case Symbol(s) => SymTri(s, env)
    case Compare(rel, l, r) => Test(rel, SymText(l, env) == SymText(r, env))
    case Not(x) => Complement(Eval(x, env))
    case Binary(op, l, r) => Apply(op, Eval(l, env), Eval(r, env))
  }

  /** A NULL expression counts as y. */
  function EvalOpt(e: Option<Expr>, env: Env): Tri {
    match e
    case None => Yes
    case Some(x) => Eval(x, env)
  }

  ghost predicate SameValue(e1: Expr, e2: Expr) {
    forall env: Env :: Eval(e1, env) == Eval(e2, env)
  }

  /** Whatever e answers with n or y, e' answers the same. */
  ghost predicate RefinedBy(e: Expr, e': Expr) {
    forall env: Env :: Refines(Eval(e, env), Eval(e', env))
  }

  /** Number of C nodes. */
  function Size(e: Expr): (n: nat)
    ensures n >= 1
  {
    match e
    case Symbol(_) => 1
    case Compare(_, _, _) => 1
    case Not(x) => 1 + Size(x)
    case Binary(_, l, r) => 1 + Size(l) + Size(r)
  }

  function SizeOpt(e: Option<Expr>): nat {
    match e
    case None => 0
    case Some(x) => Size(x)
  }

  function Neutral(op: Op): Sym {
    if op == AndOp then Y else N
  }

  function Absorbing(op: Op): Sym {
    if op == AndOp then N else Y
  }

  function Dual(op: Op): Op {
    if op == AndOp then OrOp else AndOp
  }

  predicate HasOp(e: Expr, op: Op) {
    e.Binary? && e.op == op
  }

  /** The operator laws the rewriting rests on. */
  lemma OpLaws(op: Op, a: Tri, b: Tri, c: Tri)
    ensures Apply(op, a, b) == Apply(op, b, a)
    ensures Apply(op, a, Apply(op, b, c)) == Apply(op, Apply(op, a, b), c)
    ensures Apply(op, a, a) == a
    ensures Apply(op, Complement(a), Complement(b)) == Complement(Apply(Dual(op), a, b))
  {
  }

  /** The two operators distribute over and absorb each other, and have each other's constants. */
  lemma LatticeLaws(op: Op, a: Tri, b: Tri, c: Tri, env: Env)
    ensures Apply(op, a, Apply(Dual(op), b, c)) == Apply(Dual(op), Apply(op, a, b), Apply(op, a, c))
    ensures Apply(op, a, Apply(Dual(op), a, b)) == a
    ensures Apply(op, a, SymTri(Neutral(op), env)) == a
    ensures Apply(op, a, SymTri(Absorbing(op), env)) == SymTri(Absorbing(op), env)
    ensures Neutral(Dual(op)) == Absorbing(op)
  {
  }
}
