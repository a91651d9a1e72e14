/** Printing a formula (expr_print) and reading it back (the expression grammar of zconf-y.y),
    at the level of tokens. */
module ExprPrint {
  import opened Options
  import opened Expr

  datatype ExprType = ENone | EOr | EAnd | ENot | EEqual | EUnequal | EChoice | ESymbol | ERange

  datatype Token = Word(sym: Sym) | EqualTok | UnequalTok | NotTok | AndTok | OrTok | OpenTok | CloseTok

  function TypeOf(e: Expr): ExprType {
    match e
    case Symbol(_) => ESymbol
    case Compare(rel, _, _) => if rel == Equal then EEqual else EUnequal
    case Not(_) => ENot
    case Binary(op, _, _) => if op == AndOp then EAnd else EOr
  }

  /** expr_compare_type, its cases falling through as in the original. */
  function CompareType(t1: ExprType, t2: ExprType): int {
    if t1 == t2 then 0
    else if (t1 == EEqual || t1 == EUnequal) && t2 == ENot then 1
    else if (t1 == EEqual || t1 == EUnequal || t1 == ENot) && t2 == EAnd then 1
    else if (t1 == EEqual || t1 == EUnequal || t1 == ENot || t1 == EAnd) && t2 == EOr then 1
    else if (t1 == EEqual || t1 == EUnequal || t1 == ENot || t1 == EAnd || t1 == EOr) && t2 == EChoice then 1
    else if t1 != ENone && t1 != ESymbol && t1 != ERange && t2 == ENone then 1
    else -1
  }

  function OpToken(op: Op): Token {
    if op == AndOp then AndTok else OrTok
  }

  function PrintBare(e: Expr): seq<Token>
    decreases e, 0
  {
    match e
    case Symbol(s) => [Word(s)]
    case Compare(rel, l, r) => [Word(l), if rel == Equal then EqualTok else UnequalTok, Word(r)]
    case Not(x) => [NotTok] + Print(x, ENot)
    case Binary(op, l, r) => Print(l, TypeOf(e)) + [OpToken(op)] + Print(r, TypeOf(e))
  }

  function Print(e: Expr, prev: ExprType): seq<Token>
    decreases e, 1
  {
    if CompareType(prev, TypeOf(e)) > 0 then [OpenTok] + PrintBare(e) + [CloseTok] else PrintBare(e)
  }

  /** A parsed formula and the tokens after it. */
  datatype Parsed = Parsed(e: Expr, rest: seq<Token>)

  /** Operands: words, comparisons, ! and parentheses. */
  function ParseUnary(ts: seq<Token>): (r: Option<Parsed>)
    ensures r.Some? ==> |r.value.rest| < |ts|
    decreases |ts|, 0
  {
    if ts == [] then None
    else match ts[0]
      case Word(s) =>
        if |ts| >= 3 && ts[1] == EqualTok && ts[2].Word? then Some(Parsed(Compare(Equal, s, ts[2].sym), ts[3..]))
        else if |ts| >= 3 && ts[1] == UnequalTok && ts[2].Word? then Some(Parsed(Compare(Unequal, s, ts[2].sym), ts[3..]))
        else Some(Parsed(Symbol(s), ts[1..]))
      case NotTok =>
        (match ParseUnary(ts[1..])
         case None => None
         case Some(p) => Some(Parsed(Not(p.e), p.rest)))
      case OpenTok =>
        (match ParseLevel(OrOp, ts[1..])
         case None => None
         case Some(p) => if p.rest != [] && p.rest[0] == CloseTok then Some(Parsed(p.e, p.rest[1..])) else None)
      case _ => None
  }

  /** Operands of a level: && binds tighter than ||. */
  function ParseOperand(op: Op, ts: seq<Token>): (r: Option<Parsed>)
    ensures r.Some? ==> |r.value.rest| < |ts|
    decreases |ts|, if op == AndOp then 1 else 4
  {
    if op == AndOp then ParseUnary(ts) else ParseLevel(AndOp, ts)
  }

  /** One or more operands joined by op. */
  function ParseLevel(op: Op, ts: seq<Token>): (r: Option<Parsed>)
    ensures r.Some? ==> |r.value.rest| < |ts|
    decreases |ts|, if op == AndOp then 3 else 5
  {
    match ParseOperand(op, ts)
    case None => None
    case Some(p) => ParseTail(op, p.e, p.rest)
  }

  /** The operators are left-associative: each further operand is joined to all before it. */
  function ParseTail(op: Op, left: Expr, ts: seq<Token>): (r: Option<Parsed>)
    ensures r.Some? ==> |r.value.rest| <= |ts|
    decreases |ts|, if op == AndOp then 2 else 4
  {
    if ts == [] || ts[0] != OpToken(op) then Some(Parsed(left, ts))
    else match ParseOperand(op, ts[1..])
      case None => None
      case Some(p) => ParseTail(op, Binary(op, left, p.e), p.rest)
  }

  function Parse(ts: seq<Token>): Option<Expr> {
    match ParseLevel(OrOp, ts)
    case None => None
    case Some(p) => if p.rest == [] then Some(p.e) else None
  }

  /** left op (r1 op ... op rn), regrouped as (left op r1) op ... op rn. */
  function Join(op: Op, left: Expr, r: Expr): Expr {
    if HasOp(r, op) then Binary(op, Join(op, left, r.left), r.right) else Binary(op, left, r)
  }

  /** The same formula with every && and || chain grouped to the left. */
  function Regroup(e: Expr): Expr {
    match e
    case Symbol(_) => e
    case Compare(_, _, _) => e
    case Not(x) => Not(Regroup(x))
    case Binary(op, l, r) => Join(op, Regroup(l), Regroup(r))
  }

  predicate LeftNested(e: Expr) {
    match e
    case Symbol(_) => true
    case Compare(_, _, _) => true
    case Not(x) => LeftNested(x)
    case Binary(op, l, r) => LeftNested(l) && LeftNested(r) && !HasOp(r, op)
  }

  lemma {:induction false} JoinShape(op: Op, left: Expr, r: Expr)
    requires LeftNested(left) && LeftNested(r)
    ensures LeftNested(Join(op, left, r)) && HasOp(Join(op, left, r), op)
  {
    if HasOp(r, op) {
      JoinShape(op, left, r.left);
    }
  }

  lemma {:induction false} RegroupShape(e: Expr)
    ensures LeftNested(Regroup(e))
    ensures TypeOf(Regroup(e)) == TypeOf(e)
  {
    match e
    case Symbol(_) =>
    case Compare(_, _, _) =>
    case Not(x) => RegroupShape(x);
    case Binary(op, l, r) => RegroupShape(l); RegroupShape(r); JoinShape(op, Regroup(l), Regroup(r));
  }

  lemma {:induction false} JoinAssociates(op: Op, a: Expr, b: Expr, c: Expr)
    ensures Join(op, a, Join(op, b, c)) == Join(op, Join(op, a, b), c)
  {
    if HasOp(c, op) {
      JoinAssociates(op, a, b, c.left);
    }
  }

  lemma {:induction false} JoinValue(op: Op, l: Expr, r: Expr, env: Env)
    ensures Eval(Join(op, l, r), env) == Apply(op, Eval(l, env), Eval(r, env))
  {
    if HasOp(r, op) {
      JoinValue(op, l, r.left, env);
    }
  }

  lemma {:induction false} RegroupValue(e: Expr, env: Env)
    ensures Eval(Regroup(e), env) == Eval(e, env)
  {
    match e
    case Symbol(_) =>
    case Compare(_, _, _) =>
    case Not(x) => RegroupValue(x, env);
    case Binary(op, l, r) =>
      RegroupValue(l, env);
      RegroupValue(r, env);
      JoinValue(op, Regroup(l), Regroup(r), env);
  }

  /** The tokens that can follow an operand. */
  predicate Follows(ts: seq<Token>) {
    ts == [] || ts[0] == AndTok || ts[0] == OrTok || ts[0] == CloseTok
  }

  predicate StopsOp(op: Op, ts: seq<Token>) {
    ts == [] || ts[0] != OpToken(op)
  }

  function OpType(op: Op): ExprType {
    if op == AndOp then EAnd else EOr
  }

  /** An operand of op is read back by the operand parser of op. */
  lemma {:induction false} ReadOperand(op: Op, e: Expr, rest: seq<Token>)
    requires !HasOp(e, op)
    requires Follows(rest)
    requires op == OrOp ==> StopsOp(AndOp, rest)
    ensures ParseOperand(op, Print(e, OpType(op)) + rest) == Some(Parsed(Regroup(e), rest))
    decreases e, 5
  {
    if op == OrOp {
      ReadLevel(AndOp, e, EOr, rest);
    } else {
      ReadUnary(e, EAnd, rest);
    }
  }

  /** What is not printed as a bare && or || is read back by the unary parser. */
  lemma {:induction false} ReadUnary(e: Expr, prev: ExprType, rest: seq<Token>)
    requires prev == ENot || prev == EAnd || prev == EOr
    requires e.Binary? ==> CompareType(prev, TypeOf(e)) > 0
    requires Follows(rest)
    ensures ParseUnary(Print(e, prev) + rest) == Some(Parsed(Regroup(e), rest))
    decreases e, 3
  {
    hide ParseUnary, ParseLevel, ParseOperand, ParseTail, Join;
    match e
    case Symbol(s) =>
      ReadWord(s, rest);
    case Compare(rel, l, r) =>
      ReadCompare(rel, l, r, rest);
    case Not(x) =>
      ReadUnary(x, ENot, rest);
      ReadNot(Print(x, ENot), Regroup(x), rest);
    case Binary(op, l, r) =>
      ReadBinary(e, [CloseTok] + rest);
      ReadParens(PrintBare(e), Regroup(e), rest);
  }

  lemma ReadWord(s: Sym, rest: seq<Token>)
    requires Follows(rest)
    ensures ParseUnary([Word(s)] + rest) == Some(Parsed(Symbol(s), rest))
  {
    assert ([Word(s)] + rest)[1..] == rest;
  }

  lemma ReadNot(inner: seq<Token>, e: Expr, rest: seq<Token>)
    requires ParseUnary(inner + rest) == Some(Parsed(e, rest))
    ensures ParseUnary([NotTok] + inner + rest) == Some(Parsed(Not(e), rest))
  {
    hide ParseLevel;
    assert ([NotTok] + inner + rest)[1..] == inner + rest;
  }

  lemma ReadCompare(rel: Rel, l: Sym, r: Sym, rest: seq<Token>)
    ensures ParseUnary([Word(l), if rel == Equal then EqualTok else UnequalTok, Word(r)] + rest)
      == Some(Parsed(Compare(rel, l, r), rest))
  {
    assert ([Word(l), if rel == Equal then EqualTok else UnequalTok, Word(r)] + rest)[3..] == rest;
  }

  lemma ReadParens(inner: seq<Token>, e: Expr, rest: seq<Token>)
    requires ParseLevel(OrOp, inner + ([CloseTok] + rest)) == Some(Parsed(e, [CloseTok] + rest))
    ensures ParseUnary([OpenTok] + inner + [CloseTok] + rest) == Some(Parsed(e, rest))
  {
    assert ([OpenTok] + inner + [CloseTok] + rest)[1..] == inner + ([CloseTok] + rest);
    assert ([CloseTok] + rest)[1..] == rest;
  }

  /** A && or || without parentheses is read back at the top level. */
  lemma {:induction false} ReadBinary(e: Expr, rest: seq<Token>)
    requires e.Binary?
    requires Follows(rest) && StopsOp(AndOp, rest) && StopsOp(OrOp, rest)
    ensures ParseLevel(OrOp, PrintBare(e) + rest) == Some(Parsed(Regroup(e), rest))
    decreases e, 2
  {
    if e.op == OrOp {
      ReadChain(OrOp, e, rest);
    } else {
      ReadChain(AndOp, e, rest);
      assert ParseOperand(OrOp, PrintBare(e) + rest) == ParseLevel(AndOp, PrintBare(e) + rest);
    }
  }

  /** A formula printed below op or looser is read back by the level of op. */
  lemma {:induction false} ReadLevel(op: Op, e: Expr, prev: ExprType, rest: seq<Token>)
    requires op == AndOp && (prev == EAnd || prev == EOr) && !HasOp(e, OrOp)
    requires Follows(rest) && StopsOp(op, rest)
    ensures ParseLevel(op, Print(e, prev) + rest) == Some(Parsed(Regroup(e), rest))
    decreases e, 4
  {
    if HasOp(e, op) {
      ReadChain(op, e, rest);
    } else {
      ReadUnary(e, prev, rest);
    }
  }

  /** A bare chain of op: the first operand, then each further one. */
  lemma {:induction false} ReadChain(op: Op, e: Expr, rest: seq<Token>)
    requires HasOp(e, op)
    requires Follows(rest) && StopsOp(op, rest)
    requires op == OrOp ==> StopsOp(AndOp, rest)
    ensures ParseLevel(op, PrintBare(e) + rest) == Some(Parsed(Regroup(e), rest))
    decreases e, 1
  {
    ReadFirst(op, e, rest);
  }

  lemma {:induction false} ReadFirst(op: Op, e: Expr, rest: seq<Token>)
    requires Follows(rest)
    requires op == OrOp ==> StopsOp(AndOp, rest)
    ensures ParseLevel(op, Print(e, OpType(op)) + rest) == ParseTail(op, Regroup(e), rest)
    decreases e, if HasOp(e, op) then 0 else 6
  {
    if HasOp(e, op) {
      var more := [OpToken(op)] + Print(e.right, OpType(op)) + rest;
      assert Print(e, OpType(op)) + rest == Print(e.left, OpType(op)) + more;
      ReadFirst(op, e.left, more);
      ReadMore(op, Regroup(e.left), e.right, rest);
    } else {
      ReadOperand(op, e, rest);
    }
  }

  lemma {:induction false} ReadMore(op: Op, left: Expr, e: Expr, rest: seq<Token>)
    requires Follows(rest)
    requires op == OrOp ==> StopsOp(AndOp, rest)
    ensures ParseTail(op, left, [OpToken(op)] + Print(e, OpType(op)) + rest) == ParseTail(op, Join(op, left, Regroup(e)), rest)
    decreases e, 6
  {
    hide ParseUnary, ParseLevel, ParseOperand, ParseTail;
    var ts := [OpToken(op)] + Print(e, OpType(op)) + rest;
    if HasOp(e, op) {
      var more := [OpToken(op)] + Print(e.right, OpType(op)) + rest;
      assert Print(e, OpType(op)) == Print(e.left, OpType(op)) + [OpToken(op)] + Print(e.right, OpType(op));
      Rechain([OpToken(op)], Print(e.left, OpType(op)), Print(e.right, OpType(op)), rest);
      ReadMore(op, left, e.left, more);
      ReadMore(op, Join(op, left, Regroup(e.left)), e.right, rest);
      JoinAssociates(op, left, Regroup(e.left), Regroup(e.right));
    } else {
      ReadOperand(op, e, rest);
      RegroupShape(e);
      TailStep(op, left, Print(e, OpType(op)), Regroup(e), rest);
    }
  }

  lemma Rechain(t: seq<Token>, l: seq<Token>, r: seq<Token>, rest: seq<Token>)
    ensures t + (l + t + r) + rest == t + l + (t + r + rest)
  {
  }

  lemma TailStep(op: Op, left: Expr, ts: seq<Token>, e: Expr, rest: seq<Token>)
    requires ParseOperand(op, ts + rest) == Some(Parsed(e, rest))
    ensures ParseTail(op, left, [OpToken(op)] + ts + rest) == ParseTail(op, Binary(op, left, e), rest)
  {
    hide ParseOperand;
    assert ([OpToken(op)] + ts + rest)[1..] == ts + rest;
  }

  /** Reading back what was printed gives the same formula up to the grouping of && and ||
      chains, hence one with the same value. */
  lemma {:induction false} PrintParse(e: Expr)
    ensures Parse(Print(e, ENone)) == Some(Regroup(e))
    ensures SameValue(e, Regroup(e))
  {
    var ts := Print(e, ENone);
    assert PrintBare(e) + [] == ts;
    if e.Binary? {
      ReadBinary(e, []);
    } else {
      ReadUnary(e, ENot, []);
      assert Print(e, ENot) + [] == ts;
      assert ParseOperand(AndOp, ts) == Some(Parsed(Regroup(e), []));
      assert ParseLevel(AndOp, ts) == Some(Parsed(Regroup(e), []));
      assert ParseOperand(OrOp, ts) == Some(Parsed(Regroup(e), []));
    }
    assert ParseLevel(OrOp, ts) == Some(Parsed(Regroup(e), []));
    assert Parse(ts) == Some(Regroup(e));
    forall env: Env ensures Eval(e, env) == Eval(Regroup(e), env) {
      RegroupValue(e, env);
    }
  }

  /** Exactly the left-grouped formulas come back unchanged. */
  lemma {:induction false} PrintParseExact(e: Expr)
    ensures Parse(Print(e, ENone)) == Some(e) <==> LeftNested(e)
  {
    PrintParse(e);
    RegroupShape(e);
    if LeftNested(e) {
      RegroupUnchanged(e);
    }
  }

  lemma {:induction false} RegroupUnchanged(e: Expr)
    requires LeftNested(e)
    ensures Regroup(e) == e
  {
    match e
    case Symbol(_) =>
    case Compare(_, _, _) =>
    case Not(x) => RegroupUnchanged(x);
    case Binary(_, l, r) => RegroupUnchanged(l); RegroupUnchanged(r);
  }

  lemma {:induction false} PrintJoin(op: Op, l: Expr, r: Expr)
    ensures PrintBare(Join(op, l, r)) == Print(l, OpType(op)) + [OpToken(op)] + Print(r, OpType(op))
    ensures Print(Join(op, l, r), OpType(op)) == PrintBare(Join(op, l, r))
  {
    if HasOp(r, op) {
      PrintJoin(op, l, r.left);
    }
  }

  lemma {:induction false} PrintRegroup(e: Expr, prev: ExprType)
    ensures Print(Regroup(e), prev) == Print(e, prev)
  {
    RegroupShape(e);
    match e
    case Symbol(_) =>
    case Compare(_, _, _) =>
    case Not(x) => PrintRegroup(x, ENot);
    case Binary(op, l, r) =>
      PrintRegroup(l, OpType(op));
      PrintRegroup(r, OpType(op));
      PrintJoin(op, Regroup(l), Regroup(r));
  }

  /** Two formulas print alike exactly when they differ in grouping only. */
  lemma {:induction false} PrintInjective(e1: Expr, e2: Expr)
    ensures Print(e1, ENone) == Print(e2, ENone) <==> Regroup(e1) == Regroup(e2)
  {
    PrintParse(e1);
    PrintParse(e2);
    PrintRegroup(e1, ENone);
    PrintRegroup(e2, ENone);
  }

  /** What the tokens mean: && binds tighter than ||, ! tighter than both, parentheses tightest, and
      chains group to the left. */
  lemma Precedence(a: Sym, b: Sym, c: Sym)
    ensures var x, y, z := Symbol(a), Symbol(b), Symbol(c);
      && Parse([Word(a), OrTok, Word(b), AndTok, Word(c)]) == Some(Binary(OrOp, x, Binary(AndOp, y, z)))
      && Parse([Word(a), AndTok, Word(b), OrTok, Word(c)]) == Some(Binary(OrOp, Binary(AndOp, x, y), z))
      && Parse([OpenTok, Word(a), OrTok, Word(b), CloseTok, AndTok, Word(c)]) == Some(Binary(AndOp, Binary(OrOp, x, y), z))
      && Parse([NotTok, Word(a), AndTok, Word(b)]) == Some(Binary(AndOp, Not(x), y))
      && Parse([Word(a), AndTok, Word(b), AndTok, Word(c)]) == Some(Binary(AndOp, Binary(AndOp, x, y), z))
      && Parse([Word(a), OrTok, Word(b), OrTok, Word(c)]) == Some(Binary(OrOp, Binary(OrOp, x, y), z))
  {
    hide Parse, Print;
    var x, y, z := Symbol(a), Symbol(b), Symbol(c);
    PrintWord(a);
    PrintWord(b);
    PrintWord(c);
    PrintPair(a, b);
    PrintPair(b, c);
    assert LeftNested(Binary(AndOp, y, z));
    ReadPair(OrOp, x, Binary(AndOp, y, z), [Word(a)], [Word(b), AndTok, Word(c)], [Word(a), OrTok, Word(b), AndTok, Word(c)]);
    ReadPair(OrOp, Binary(AndOp, x, y), z, [Word(a), AndTok, Word(b)], [Word(c)], [Word(a), AndTok, Word(b), OrTok, Word(c)]);
    ReadPair(AndOp, Binary(OrOp, x, y), z, [OpenTok, Word(a), OrTok, Word(b), CloseTok], [Word(c)],
      [OpenTok, Word(a), OrTok, Word(b), CloseTok, AndTok, Word(c)]);
    ReadPair(AndOp, Not(x), y, [NotTok, Word(a)], [Word(b)], [NotTok, Word(a), AndTok, Word(b)]);
    ReadPair(AndOp, Binary(AndOp, x, y), z, [Word(a), AndTok, Word(b)], [Word(c)], [Word(a), AndTok, Word(b), AndTok, Word(c)]);
    ReadPair(OrOp, Binary(OrOp, x, y), z, [Word(a), OrTok, Word(b)], [Word(c)], [Word(a), OrTok, Word(b), OrTok, Word(c)]);
  }

  lemma PrintWord(a: Sym)
    ensures Print(Symbol(a), EAnd) == Print(Symbol(a), EOr) == [Word(a)]
    ensures Print(Not(Symbol(a)), EAnd) == [NotTok, Word(a)]
  {
    assert Print(Symbol(a), ENot) == [Word(a)];
  }

  lemma PrintPair(a: Sym, b: Sym)
    ensures var e := Binary(AndOp, Symbol(a), Symbol(b));
      Print(e, EAnd) == Print(e, EOr) == [Word(a), AndTok, Word(b)]
    ensures var e := Binary(OrOp, Symbol(a), Symbol(b));
      Print(e, EOr) == [Word(a), OrTok, Word(b)] && Print(e, EAnd) == [OpenTok, Word(a), OrTok, Word(b), CloseTok]
  {
    PrintWord(a);
    PrintWord(b);
  }

  lemma ReadPair(op: Op, l: Expr, r: Expr, ls: seq<Token>, rs: seq<Token>, ts: seq<Token>)
    requires ts == ls + [OpToken(op)] + rs
    requires Print(l, OpType(op)) == ls && Print(r, OpType(op)) == rs && LeftNested(Binary(op, l, r))
    ensures Parse(ts) == Some(Binary(op, l, r))
  {
    hide Parse;
    PrintParse(Binary(op, l, r));
    RegroupUnchanged(Binary(op, l, r));
  }
}
