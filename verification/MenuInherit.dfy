/** How menu_finalize hands dependencies down the whole menu tree (config/kconfig/menu.c). An entry is
    finalized once, with the list it was declared with, so the tree here is the declared one. */
module MenuInherit {
  import opened Options
  import opened Tristate
  import opened Expr
  import opened ExprEngine
  import opened MenuDeps

  /** The conditions of an entry: its dependency, the visibilities of its properties, which of them
      is the prompt, whether it has no symbol or a tristate one, and the symbol of a choice. */
  datatype Entry = Entry(dep: Option<Expr>, props: seq<Option<Expr>>, prompt: Option<nat>, tristate: bool, choice: Option<Sym>)

  /** A list of entries, each with the entries declared below it. */
  datatype Entries = None | More(entry: Entry, below: Entries, after: Entries)

  /** parentdep: what the entries below an entry depend on. */
  function Condition(e: Entry): Option<Expr> {
    if e.choice.Some? then Some(Symbol(e.choice.value))
    else if e.prompt.Some? && e.prompt.value < |e.props| then e.props[e.prompt.value]
    else e.dep
  }

  ghost predicate HandedToEntry(above: Option<Expr>, was: Entry, now: Entry) {
    && now == was.(dep := now.dep, props := now.props) && |now.props| == |was.props|
    && Handed(above, was.dep, now.dep, true)
    && forall i :: 0 <= i < |now.props| ==> Handed(now.dep, was.props[i], now.props[i], was.tristate)
  }

  ghost predicate HandedDown(above: Option<Expr>, was: Entries, now: Entries)
    decreases was
  {
    match was
    case None => now == Entries.None
    case More(e, below, after) =>
      now.More? && HandedToEntry(above, e, now.entry) &&
      HandedDown(Condition(now.entry), below, now.below) && HandedDown(above, after, now.after)
  }

  /** The loop over the properties of an entry. */
  method InheritProperties(engine: Engine, dep: Option<Expr>, props: seq<Option<Expr>>, tristate: bool)
      returns (props': seq<Option<Expr>>)
    requires IsNnfOpt(dep)
    modifies engine
    ensures |props'| == |props|
    ensures forall i :: 0 <= i < |props| ==> Handed(dep, props[i], props'[i], tristate)
  {
    hide Handed;
    props' := [];
    while |props'| < |props|
      invariant |props'| <= |props|
      invariant forall i :: 0 <= i < |props'| ==> Handed(dep, props[i], props'[i], tristate)
    {
      var was := props[|props'|];
      var now := InheritProperty(engine, dep, was, tristate);
      props' := props' + [now];
    }
  }

  /** The conditions of the entries of a list, and of all entries below them. No condition is demanded
      but that the one above is in negation normal form, which the root's, being absent, is. */
  method InheritAll(engine: Engine, above: Option<Expr>, entries: Entries) returns (entries': Entries)
    requires IsNnfOpt(above)
    modifies engine
    ensures HandedDown(above, entries, entries')
    decreases entries
  {
    hide Handed;
    match entries
    case None =>
      entries' := Entries.None;
    case More(e, below, after) =>
      var dep := Inherit(engine, above, e.dep);
      var props := InheritProperties(engine, dep, e.props, e.tristate);
      var e' := e.(dep := dep, props := props);
      ConditionNnf(above, e, e');
      var below' := InheritAll(engine, Condition(e'), below);
      var after' := InheritAll(engine, above, after);
      entries' := More(e', below', after');
  }

  lemma ConditionNnf(above: Option<Expr>, was: Entry, now: Entry)
    requires HandedToEntry(above, was, now) && IsNnfOpt(above)
    ensures IsNnfOpt(Condition(now))
  {
  }

  /** Every stored formula is in negation normal form. */
  ghost predicate AllNnf(entries: Entries) {
    entries.More? ==>
      IsNnfOpt(entries.entry.dep) && (forall i :: 0 <= i < |entries.entry.props| ==> IsNnfOpt(entries.entry.props[i])) &&
      AllNnf(entries.below) && AllNnf(entries.after)
  }

  lemma {:induction false} HandedNnf(above: Option<Expr>, was: Entries, now: Entries)
    requires HandedDown(above, was, now) && IsNnfOpt(above)
    ensures AllNnf(now)
    decreases was
  {
    match was
    case None =>
    case More(e, below, after) =>
      HandedNnf(Condition(now.entry), below, now.below);
      HandedNnf(above, after, now.after);
  }

  /** Dependencies and visibilities are all n, down to the entries of choices, which depend on the
      symbol of their choice instead. */
  ghost predicate Hidden(entries: Entries, env: Env) {
    entries.More? ==>
      EvalOpt(entries.entry.dep, env) == No &&
      (forall i :: 0 <= i < |entries.entry.props| ==> EvalOpt(entries.entry.props[i], env) == No) &&
      (entries.entry.choice.None? ==> Hidden(entries.below, env)) && Hidden(entries.after, env)
  }

  /** Wherever the condition above is n, so is everything stored for every entry below. */
  lemma {:induction false} HandedHides(above: Option<Expr>, was: Entries, now: Entries, env: Env)
    requires HandedDown(above, was, now) && EvalOpt(above, env) == No
    ensures Hidden(now, env)
    decreases was
  {
    match was
    case None =>
    case More(e, below, after) =>
      EntryHides(above, e, now.entry, env);
      if e.choice.None? {
        HandedHides(Condition(now.entry), below, now.below, env);
      }
      HandedHides(above, after, now.after, env);
  }

  lemma EntryHides(above: Option<Expr>, was: Entry, now: Entry, env: Env)
    requires HandedToEntry(above, was, now) && EvalOpt(above, env) == No
    ensures EvalOpt(now.dep, env) == No && forall i :: 0 <= i < |now.props| ==> EvalOpt(now.props[i], env) == No
    ensures now.choice.None? ==> EvalOpt(Condition(now), env) == No
  {
    assert Min(EvalOpt(above, env), EvalOpt(was.dep, env)) == No;
    forall i | 0 <= i < |now.props| ensures EvalOpt(now.props[i], env) == No {
      assert Handed(now.dep, was.props[i], now.props[i], was.tristate);
      assert Min(EvalOpt(now.dep, env), EvalOpt(was.props[i], env)) == No;
    }
  }

  /** Wherever an entry's own condition is n, everything below it is hidden, at any depth. */
  ghost predicate HiddenBelow(entries: Entries, env: Env) {
    entries.More? ==>
      (EvalOpt(Condition(entries.entry), env) == No ==> Hidden(entries.below, env)) &&
      HiddenBelow(entries.below, env) && HiddenBelow(entries.after, env)
  }

  lemma {:induction false} HandedHidesBelow(above: Option<Expr>, was: Entries, now: Entries, env: Env)
    requires HandedDown(above, was, now)
    ensures HiddenBelow(now, env)
    decreases was
  {
    match was
    case None =>
    case More(e, below, after) =>
      if EvalOpt(Condition(now.entry), env) == No {
        HandedHides(Condition(now.entry), below, now.below, env);
      }
      HandedHidesBelow(Condition(now.entry), below, now.below, env);
      HandedHidesBelow(above, after, now.after, env);
  }

  /** No declared condition is m, and no choice is the constant m. */
  ghost predicate Decided(entries: Entries, env: Env) {
    entries.More? ==>
      EvalOpt(entries.entry.dep, env) != Mod && entries.entry.choice != Some(M) &&
      (forall i :: 0 <= i < |entries.entry.props| ==> EvalOpt(entries.entry.props[i], env) != Mod) &&
      Decided(entries.below, env) && Decided(entries.after, env)
  }

  /** The value of Condition in terms of the declared entry, where the value above is v. */
  function ConditionValue(v: Tri, e: Entry, env: Env): Tri {
    var dep := Min(v, EvalOpt(e.dep, env));
    if e.choice.Some? then SymTri(e.choice.value, env)
    else if e.prompt.Some? && e.prompt.value < |e.props| then Min(dep, EvalOpt(e.props[e.prompt.value], env))
    else dep
  }

  /** Every stored dependency is the minimum of all conditions declared on the way down to it, and
      every stored visibility that of its own and the dependency. */
  ghost predicate Composed(v: Tri, was: Entries, now: Entries, env: Env)
    decreases was
  {
    match was
    case None => now == Entries.None
    case More(e, below, after) =>
      now.More? && ComposedEntry(v, e, now.entry, env) &&
      Composed(ConditionValue(v, e, env), below, now.below, env) && Composed(v, after, now.after, env)
  }

  ghost predicate ComposedEntry(v: Tri, was: Entry, now: Entry, env: Env) {
    && |now.props| == |was.props|
    && EvalOpt(now.dep, env) == Min(v, EvalOpt(was.dep, env))
    && forall i :: 0 <= i < |now.props| ==>
      EvalOpt(now.props[i], env) == Min(Min(v, EvalOpt(was.dep, env)), EvalOpt(was.props[i], env))
  }

  /** While nothing is m, handing down adds up to exactly the declared conditions, at any depth. */
  lemma {:induction false} HandedComposed(above: Option<Expr>, was: Entries, now: Entries, env: Env)
    requires HandedDown(above, was, now) && Settled(env) && Decided(was, env) && EvalOpt(above, env) != Mod
    ensures Composed(EvalOpt(above, env), was, now, env)
    decreases was
  {
    match was
    case None =>
    case More(e, below, after) =>
      EntryComposed(above, e, now.entry, env);
      HandedComposed(Condition(now.entry), below, now.below, env);
      HandedComposed(above, after, now.after, env);
  }

  lemma EntryComposed(above: Option<Expr>, was: Entry, now: Entry, env: Env)
    requires HandedToEntry(above, was, now) && Settled(env) && EvalOpt(above, env) != Mod
    requires EvalOpt(was.dep, env) != Mod && was.choice != Some(M)
    requires forall i :: 0 <= i < |was.props| ==> EvalOpt(was.props[i], env) != Mod
    ensures ComposedEntry(EvalOpt(above, env), was, now, env)
    ensures EvalOpt(Condition(now), env) == ConditionValue(EvalOpt(above, env), was, env) != Mod
  {
    var v := EvalOpt(above, env);
    assert Refines(Min(v, EvalOpt(was.dep, env)), EvalOpt(now.dep, env));
    forall i | 0 <= i < |now.props|
      ensures EvalOpt(now.props[i], env) == Min(Min(v, EvalOpt(was.dep, env)), EvalOpt(was.props[i], env)) != Mod
    {
      assert Handed(now.dep, was.props[i], now.props[i], was.tristate);
      assert Refines(Min(EvalOpt(now.dep, env), EvalOpt(was.props[i], env)), EvalOpt(now.props[i], env));
    }
  }

  /** The whole tree, from the root, whose prompt has no condition. */
  method InheritTree(engine: Engine, entries: Entries) returns (entries': Entries)
    modifies engine
    ensures HandedDown(Option.None, entries, entries') && AllNnf(entries')
    ensures forall env: Env :: HiddenBelow(entries', env)
    ensures forall env: Env :: Settled(env) && Decided(entries, env) ==> Composed(Yes, entries, entries', env)
  {
    entries' := InheritAll(engine, Option.None, entries);
    HandedNnf(Option.None, entries, entries');
    forall env: Env ensures HiddenBelow(entries', env) {
      HandedHidesBelow(Option.None, entries, entries', env);
    }
    forall env: Env | Settled(env) && Decided(entries, env) ensures Composed(Yes, entries, entries', env) {
      HandedComposed(Option.None, entries, entries', env);
    }
  }
}
