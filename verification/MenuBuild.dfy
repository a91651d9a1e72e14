/** How the parser builds the menu tree: menu_init, menu_add_entry, menu_add_menu, menu_end_menu
    of config/kconfig/menu.c, and everything from there to the walk of conf_write. */
module MenuBuild {
  import opened Sequences
  import opened MenuTree
  import opened MenuFinal
  import opened MenuWalk
  import opened MenuExact

  /** The menus open around the current one: its parent, the entries before it in that list, and so on up. */
  datatype Levels = Outermost | Level(parent: Menu, before: Forest, above: Levels)

  ghost function LevelNodes(lv: Levels, menu: Menu): set<Menu> {
    {menu} + match lv
             case Outermost => {}
             case Level(p, before, above) => {p} + Nodes(before) + LevelNodes(above, p)
  }

  ghost function RootOf(lv: Levels, menu: Menu): Menu {
    match lv
    case Outermost => menu
    case Level(p, _, above) => RootOf(above, p)
  }

  /** The entries declared up to and including an open menu, the root not counted. */
  ghost function Declared(lv: Levels, menu: Menu): seq<Menu> {
    match lv
    case Outermost => []
    case Level(p, before, above) => Declared(above, p) + Pre(before) + [menu]
  }

  ghost predicate LevelsLinked(lv: Levels, menu: Menu)
    reads LevelNodes(lv, menu)
  {
    menu.next == null &&
    match lv
    case Outermost => menu.parent == null
    case Level(p, before, above) => menu.parent == p && Linked(before, p.list, p, menu) && LevelsLinked(above, p)
  }

  lemma {:induction false} LevelNodesDeclared(lv: Levels, menu: Menu)
    ensures LevelNodes(lv, menu) == set m | m in [RootOf(lv, menu)] + Declared(lv, menu)
  {
    if lv.Level? {
      LevelNodesDeclared(lv.above, lv.parent);
      assert lv.parent in LevelNodes(lv.above, lv.parent);
    }
  }

  /** The open menus and the entries of the current list are all different. */
  ghost predicate Apart(lv: Levels, menu: Menu, entries: Forest) {
    Distinct([RootOf(lv, menu)] + (Declared(lv, menu) + Pre(entries)))
  }

  lemma ApartFacts(lv: Levels, menu: Menu, entries: Forest)
    requires Apart(lv, menu, entries)
    ensures Nodes(entries) !! LevelNodes(lv, menu) && menu !in Nodes(entries) && Distinct(Pre(entries))
    ensures lv.Level? ==> menu !in Nodes(lv.before) && menu !in LevelNodes(lv.above, lv.parent)
  {
    hide Distinct, Pre, RootOf;
    var open := [RootOf(lv, menu)] + Declared(lv, menu);
    assert [RootOf(lv, menu)] + (Declared(lv, menu) + Pre(entries)) == open + Pre(entries);
    DistinctParts(open, Pre(entries));
    LevelNodesDeclared(lv, menu);
    assert menu in LevelNodes(lv, menu);
    if lv.Level? {
      OpenApart(lv, menu);
    }
  }

  lemma OpenApart(lv: Levels, menu: Menu)
    requires lv.Level? && Distinct([RootOf(lv, menu)] + Declared(lv, menu))
    ensures menu !in Nodes(lv.before) && menu !in LevelNodes(lv.above, lv.parent)
  {
    hide Distinct, Pre;
    var outer := [RootOf(lv, menu)] + Declared(lv.above, lv.parent);
    assert [RootOf(lv, menu)] + Declared(lv, menu) == outer + Pre(lv.before) + [menu];
    DistinctParts(outer + Pre(lv.before), [menu]);
    assert menu in [menu];
    LevelNodesDeclared(lv.above, lv.parent);
  }

  /** A list that ends with last ends where last's next says. */
  lemma LastNext(f: Forest, last: Menu, head: Menu?, up: Menu?, tail: Menu?)
    requires EndsWith(f, last) && Linked(f, head, up, tail)
    ensures last.next == tail && last in Nodes(f)
  {
  }

  /** A new entry keeps all entries different. */
  lemma ApartNew(lv: Levels, menu: Menu, entries: Forest, n: Menu)
    requires Apart(lv, menu, entries) && n !in LevelNodes(lv, menu) && n !in Nodes(entries)
    ensures Apart(lv, menu, Append(entries, Cons(n, Nil, Nil)))
    ensures Pre(Append(entries, Cons(n, Nil, Nil))) == Pre(entries) + [n]
  {
    hide Append;
    PreAppend(entries, Cons(n, Nil, Nil));
    LevelNodesDeclared(lv, menu);
    assert Pre(Cons(n, Nil, Nil)) == [n];
    var s := [RootOf(lv, menu)] + (Declared(lv, menu) + Pre(entries));
    DistinctSnoc(s, n);
    assert [RootOf(lv, menu)] + (Declared(lv, menu) + (Pre(entries) + [n])) == s + [n];
  }

  lemma CutApart(f: Forest, front: Forest, last: Menu, kids: Forest)
    requires f == Append(front, Cons(last, kids, Nil)) && Distinct(Pre(f))
    ensures last !in Nodes(front) && last !in Nodes(kids) && last in Nodes(f)
    ensures Nodes(front) <= Nodes(f) && Nodes(kids) <= Nodes(f)
  {
    hide Append, Distinct;
    assert Pre(f) + Pre(Nil) == Pre(f);
    LastAlone(f, front, last, kids, Nil);
  }

  lemma DistinctSnoc(s: seq<Menu>, n: Menu)
    requires Distinct(s) && n !in s
    ensures Distinct(s + [n])
  {
  }

  /** Opening the last entry changes neither the order nor what is declared. */
  lemma DescendOrder(lv: Levels, menu: Menu, entries: Forest, front: Forest, last: Menu)
    requires entries == Append(front, Cons(last, Nil, Nil))
    ensures Declared(Level(menu, front, lv), last) + Pre(Nil) == Declared(lv, menu) + Pre(entries)
    ensures Apart(lv, menu, entries) ==> Apart(Level(menu, front, lv), last, Nil)
  {
    PreAppend(front, Cons(last, Nil, Nil));
    assert Pre(Cons(last, Nil, Nil)) == [last];
  }

  /** Closing the current menu changes neither the order nor what is declared. */
  lemma AscendOrder(lv: Levels, menu: Menu, entries: Forest)
    requires lv.Level?
    ensures var entries' := Append(lv.before, Cons(menu, entries, Nil));
      Declared(lv.above, lv.parent) + Pre(entries') == Declared(lv, menu) + Pre(entries) &&
      (Apart(lv, menu, entries) ==> Apart(lv.above, lv.parent, entries'))
  {
    hide Distinct, Append;
    PreAppend(lv.before, Cons(menu, entries, Nil));
    assert Pre(Cons(menu, entries, Nil)) == [menu] + Pre(entries);
    Associates(Declared(lv.above, lv.parent) + Pre(lv.before), [menu], Pre(entries));
    Associates(Declared(lv.above, lv.parent), Pre(lv.before), [menu] + Pre(entries));
  }

  lemma OuterOrder(root: Menu, entries: Forest)
    ensures Declared(Outermost, root) + Pre(entries) == Pre(entries) == Pre(entries) + Pre(Nil)
    ensures Apart(Outermost, root, entries) <==> Distinct(Pre(Cons(root, entries, Nil)))
    ensures Distinct(Pre(Cons(root, entries, Nil))) ==> Distinct(Pre(entries))
    ensures Nodes(Cons(root, entries, Nil)) == LevelNodes(Outermost, root) + Nodes(entries)
  {
    hide Distinct;
    assert Pre(Cons(root, entries, Nil)) == [root] + Pre(entries);
    NodesCons(root, entries, Nil);
    if Distinct([root] + Pre(entries)) {
      DistinctParts([root], Pre(entries));
    }
  }

  /** The store through last_entry_ptr. */
  method Link(slot: Menu, slotIsList: bool, n: Menu, ghost lv: Levels, ghost menu: Menu, ghost entries: Forest)
    requires Apart(lv, menu, entries) && LevelsLinked(lv, menu) && Linked(entries, menu.list, menu, null)
    requires if entries.Nil? then slot == menu && slotIsList else EndsWith(entries, slot) && !slotIsList
    requires n.parent == menu && n.list == null && n.next == null && n !in LevelNodes(lv, menu) && n !in Nodes(entries)
    modifies slot
    ensures LevelsLinked(lv, menu) && Linked(Append(entries, Cons(n, Nil, Nil)), menu.list, menu, null)
    ensures n.parent == menu && n.list == null && n.next == null
  {
    hide Pre, Distinct, Append, EndsWith, Apart;
    ApartFacts(lv, menu, entries);
    if slotIsList {
      slot.list := n;
      AppendNil(Cons(n, Nil, Nil));
    } else {
      LastNext(entries, slot, menu.list, menu, null);
      ghost var front, kids := CutLast(entries, slot, menu.list, menu);
      CutApart(entries, front, slot, kids);
      slot.next := n;
      LinkedAppend(front, Cons(slot, kids, Cons(n, Nil, Nil)), menu.list, menu, slot, null);
      AppendAssoc(front, Cons(slot, kids, Nil), Cons(n, Nil, Nil));
      AppendOne(Cons(slot, kids, Nil), Cons(n, Nil, Nil));
    }
  }

  /** The globals current_menu, current_entry and last_entry_ptr; the last is a field of slot,
      list or next. The ghost state is what has been declared. */
  class MenuBuilder {
    const root: Menu
    var currentMenu: Menu
    var currentEntry: Menu
    var slot: Menu
    var slotIsList: bool
    ghost var levels: Levels
    ghost var entries: Forest

    /** All entries declared so far, in order. */
    ghost function Order(): seq<Menu>
      reads this
    {
      Declared(levels, currentMenu) + Pre(entries)
    }

    ghost predicate Valid()
      reads this, LevelNodes(levels, currentMenu), Nodes(entries)
    {
      RootOf(levels, currentMenu) == root && Apart(levels, currentMenu, entries) &&
      LevelsLinked(levels, currentMenu) && Linked(entries, currentMenu.list, currentMenu, null) &&
      if entries.Nil? then slot == currentMenu && slotIsList else EndsWith(entries, slot) && !slotIsList
    }

    /** menu_init */
    constructor ()
      ensures Valid() && Order() == [] && levels == Outermost
      ensures fresh(root)
    {
      var r := new Menu(false, true, null);
      root, currentMenu, currentEntry, slot, slotIsList := r, r, r, r, true;
      levels, entries := Outermost, Nil;
      new;
      assert [root] + Order() == [root];
    }

    /** menu_add_entry: a new last entry of the current menu. */
    method AddEntry(symbol: bool, titled: bool) returns (n: Menu)
      requires Valid()
      modifies this`currentEntry, this`slot, this`slotIsList, this`entries, slot
      ensures Valid() && fresh(n) && Order() == old(Order()) + [n]
      ensures entries == Append(old(entries), Cons(n, Nil, Nil)) && currentEntry == n
      ensures n.symbol == symbol && n.titled == titled
    {
      hide Pre, Distinct, Append, EndsWith, Apart, LevelsLinked, Linked;
      assert allocated(Nodes(entries)) && allocated(LevelNodes(levels, currentMenu));
      n := new Menu(symbol, titled, currentMenu);
      ApartNew(levels, currentMenu, entries, n);
      EndsWithNew(entries, n, Nil);
      Link(slot, slotIsList, n, levels, currentMenu, entries);
      assert allocated(LevelNodes(levels, currentMenu));
      assert allocated(Nodes(Append(entries, Cons(n, Nil, Nil))));
      slot, slotIsList := n, false;
      currentEntry := n;
      entries := Append(entries, Cons(n, Nil, Nil));
    }

    /** menu_add_menu, right after menu_add_entry: the new entry becomes the current menu. */
    method AddMenu()
      requires Valid() && entries.Cons? && slot == currentEntry && currentEntry.list == null
      modifies this`currentMenu, this`slot, this`slotIsList, this`levels, this`entries
      ensures Valid() && Order() == old(Order())
      ensures currentMenu == old(currentEntry) && entries == Nil && levels.Level?
    {
      hide Pre, Distinct, Append, EndsWith;
      LastNext(entries, slot, currentMenu.list, currentMenu, null);
      ghost var front, kids := CutLast(entries, slot, currentMenu.list, currentMenu);
      LinkedHead(kids, slot.list, slot, null);
      DescendOrder(levels, currentMenu, entries, front, slot);
      LinkedNil(null, slot);
      assert allocated(LevelNodes(Level(currentMenu, front, levels), slot));
      levels, entries := Level(currentMenu, front, levels), Nil;
      currentMenu := currentEntry;
      slot, slotIsList := currentEntry, true;
    }

    /** menu_end_menu, for every menu_add_menu. */
    method EndMenu()
      requires Valid() && levels.Level?
      modifies this`currentMenu, this`slot, this`slotIsList, this`levels, this`entries
      ensures Valid() && Order() == old(Order())
      ensures currentMenu == old(levels).parent && levels == old(levels).above
    {
      hide Pre, Distinct, Append, EndsWith;
      AscendOrder(levels, currentMenu, entries);
      LinkedNext(levels.before, currentMenu, entries, levels.parent.list, levels.parent);
      EndsWithNew(levels.before, currentMenu, entries);
      assert allocated(LevelNodes(levels.above, levels.parent));
      assert allocated(Nodes(Append(levels.before, Cons(currentMenu, entries, Nil))));
      slot, slotIsList := currentMenu, false;
      entries := Append(levels.before, Cons(currentMenu, entries, Nil));
      currentMenu := currentMenu.parent;
      levels := levels.above;
    }

    /** The end of the input: the entries are finalized and then written. Whatever the dependency
        tests answer, conf_write visits every declared entry once, in the order of declaration, and the
        menu is the one grouping of the declared entries, dissolved. */
    method FinalizeAndWrite(below: Answers) returns (visited: seq<Menu>, ghost h: Forest)
      requires Valid() && levels == Outermost
      modifies LevelNodes(levels, currentMenu), Nodes(entries)
      ensures visited == old(Order()) && Distinct(visited)
      ensures Grouped(below, old(entries), Nil, h) && Linked(Hoist(Dissolve(h)), root.list, root, null)
    {
      hide Pre, Distinct, Grouped;
      h := FinalListRun(below, entries);
      OuterOrder(root, entries);
      LinkedNil(null, null);
      LinkedCons(root, entries, Nil, null, null);
      ghost var k, r := MenuFinalize(root, below, entries, Nil, null);
      FinalOrder(below, root, entries, Nil);
      FinalOutermost(below, root, entries);
      LinkedHead(Cons(root, k, r), root, null, null);
      assert allocated(Nodes(k)) && k == Hoist(Dissolve(h));
      OuterOrder(root, k);
      visited := Walk(root, k);
    }
  }
}
