/** The walk of conf_write over the menu entries (config/kconfig/confdata.c), without a stack. */
module MenuWalk {
  import opened Sequences
  import opened MenuTree

  /** Where an entry of a list stands: the entry above it, what follows that one, and so on up. */
  datatype Context = Top | Within(node: Menu, rest: Forest, above: Context)

  ghost function ContextNodes(c: Context): set<Menu> {
    match c
    case Top => {}
    case Within(p, r, above) => {p} + Nodes(r) + ContextNodes(above)
  }

  /** What is still to be visited once the current list is done. */
  ghost function After(c: Context): seq<Menu> {
    match c
    case Top => []
    case Within(_, r, above) => Pre(r) + After(above)
  }

  /** The links found by climbing from a list whose parent is up. */
  ghost predicate Hangs(c: Context, up: Menu?)
    reads ContextNodes(c)
  {
    match c
    case Top => up == null
    case Within(p, r, above) => up == p && Linked(r, p.next, p.parent, null) && Hangs(above, p.parent)
  }

  /** An entry to visit next, with what is to be visited from it on; nothing if there is none. */
  ghost predicate Stands(menu: Menu?, todo: Forest, c: Context, ahead: seq<Menu>)
    reads Nodes(todo), ContextNodes(c), menu
  {
    if menu == null then ahead == []
    else todo.Cons? && Linked(todo, menu, menu.parent, null) && Hangs(c, menu.parent) && ahead == Pre(todo) + After(c)
  }

  /** The first of the entries still to be visited, NULL if there is none. */
  ghost function FirstOf(ahead: seq<Menu>): Menu? {
    if ahead == [] then null else ahead[0]
  }

  lemma StandsFirst(menu: Menu?, todo: Forest, c: Context, ahead: seq<Menu>)
    requires Stands(menu, todo, c, ahead)
    ensures menu == FirstOf(ahead)
  {
    if menu != null {
      PreSplit(menu, todo.kids, todo.rest, After(c));
    }
  }

  /** The end of the loop body: down to the list, else on to the next, else up to the first
      parent with a next. */
  method NextEntry(menu: Menu, ghost todo: Forest, ghost c: Context, ghost ahead: seq<Menu>)
      returns (next: Menu?, ghost todo': Forest, ghost c': Context, ghost ahead': seq<Menu>)
    requires Stands(menu, todo, c, ahead)
    ensures Stands(next, todo', c', ahead')
    ensures ahead == [menu] + ahead' && next == FirstOf(ahead')
  {
    hide Pre;
    LinkedHead(todo, menu, menu.parent, null);
    ghost var kids, rest := todo.kids, todo.rest;
    LinkedHead(kids, menu.list, menu, null);
    LinkedHead(rest, menu.next, menu.parent, null);
    PreSplit(menu, kids, rest, After(c));
    if menu.list != null {
      next, todo', c' := menu.list, kids, Within(menu, rest, c);
      ahead' := Pre(kids) + After(c');
    } else if menu.next != null {
      next, todo', c' := menu.next, rest, c;
      ahead' := Pre(rest) + After(c);
    } else {
      next, todo', c', ahead' := Climb(menu.parent, c);
    }
    StandsFirst(next, todo', c', ahead');
  }

  lemma PreSplit(n: Menu, k: Forest, r: Forest, after: seq<Menu>)
    ensures Pre(Cons(n, k, r)) + after == [n] + (Pre(k) + (Pre(r) + after))
    ensures k.Nil? ==> Pre(k) + (Pre(r) + after) == Pre(r) + after
    ensures k.Nil? && r.Nil? ==> Pre(k) + (Pre(r) + after) == after
  {
    Associates([n] + Pre(k), Pre(r), after);
    Associates([n], Pre(k), Pre(r) + after);
    AfterNil(k, Pre(r) + after);
    AfterNil(r, after);
  }

  /** The inner loop: up through the parents to the first that has a next entry, and on to that one. */
  method Climb(up: Menu?, ghost context: Context)
      returns (next: Menu?, ghost todo: Forest, ghost c: Context, ghost ahead: seq<Menu>)
    requires Hangs(context, up)
    ensures Stands(next, todo, c, ahead)
    ensures ahead == After(context) && next == FirstOf(ahead)
  {
    hide Pre, Linked;
    c, todo := context, Nil;
    next := up;
    while next != null
      invariant Hangs(c, next) && After(c) == After(context)
      decreases c
    {
      todo := c.rest;
      LinkedHead(todo, next.next, next.parent, null);
      AfterNil(todo, After(c.above));
      c := c.above;
      if next.next != null {
        next := next.next;
        ahead := Pre(todo) + After(c);
        StandsFirst(next, todo, c, ahead);
        return;
      }
      next := next.parent;
    }
    ahead := [];
  }

  lemma AfterNil(f: Forest, after: seq<Menu>)
    ensures f.Nil? ==> Pre(f) + after == after
  {
  }

  lemma Start(k: Forest, root: Menu)
    ensures Pre(k) + After(Within(root, Nil, Top)) == Pre(k) && (k.Nil? ==> Pre(k) == [])
  {
  }

  /** conf_write visits every entry below the root once, in the order of the entries. */
  method Walk(root: Menu, ghost k: Forest) returns (visited: seq<Menu>)
    requires Linked(Cons(root, k, Nil), root, null, null)
    ensures visited == Pre(k)
  {
    hide Pre;
    ghost var todo, c, ahead := k, Within(root, Nil, Top), Pre(k);
    var menu := root.list;
    visited := [];
    LinkedHead(k, menu, root, null);
    Start(k, root);
    assert Hangs(Top, root.parent);
    assert Hangs(c, root);
    while menu != null
      invariant Stands(menu, todo, c, ahead) && visited + ahead == Pre(k)
      decreases |ahead|
    {
      ghost var before := ahead;
      var entry := menu;
      menu, todo, c, ahead := NextEntry(menu, todo, c, ahead);
      visited := visited + [entry];
      assert visited + ahead == (visited[..|visited| - 1] + before);
    }
  }
}
