/**
 What holds after the menu tree has been finalized: the conditions mean what the
 tree says, and the walks of `conf_write` and `conf_write_defconfig`
 (scripts/config/confdata.c) visit every node once, in preorder, and come to an end.
 */
module MenuWalk {
  import opened Basics
  import opened Expr
  import opened Transform
  import opened Conditions
  import opened MenuTree

  // ----- what the propagated conditions are worth -----

  /**
   Along every path down the tree an element is worth the smallest of the conditions around it and its
   own, with m limited by MODULES; and a prompt is hidden exactly when its element or its condition is n.
   */
  ghost predicate Worth(ts: seq<Tree>, base: Tri, was: Menu -> Conds, modules: Sym, v: Valuation)
    reads Nodes(ts)`dep, Nodes(ts)`visible
  {
    ts == [] || (
      var n := ts[0].node;
      var worth := TriAnd(base, EvalDep(was(n).dep, Limited(v, modules)));
      && EvalDep(n.dep, v) == worth
      && (n.prompted ==>
          (EvalDep(n.visible, v) == NO <==> TriAnd(worth, EvalDep(was(n).visible, Limited(v, modules))) == NO))
      && Worth(ts[0].kids, worth, was, modules, v) && Worth(ts[1..], base, was, modules, v))
  }

  /** The conditions as they were parsed compare tristate symbols with y, m and n, or at v with nothing they equal. */
  predicate AllPlain(ts: seq<Tree>, was: Menu -> Conds, v: Valuation) {
    ts == [] || (
      && PlainDep(was(ts[0].node).dep, v) && PlainDep(was(ts[0].node).visible, v)
      && AllPlain(ts[0].kids, was, v) && AllPlain(ts[1..], was, v))
  }

  lemma {:induction false} PropagatedWorth(ts: seq<Tree>, base: Dep, was: Menu -> Conds, modules: Sym, v: Valuation)
    requires Propagated(ts, base, was, modules) && WellTyped(v) && NormalDep(base)
    requires PlainDep(base, v) && AllPlain(ts, was, v)
    ensures Worth(ts, EvalDep(base, v), was, modules, v)
  {
    hide Narrow, Shown, NormalDep, PlainDep, EvalDep, WellTyped;
    if ts != [] {
      var n := ts[0].node;
      NarrowValue(base, was(n).dep, modules, v);
      NarrowNormal(base, was(n).dep, modules);
      NarrowPlain(base, was(n).dep, modules, v);
      ShownValue(n.sym, n.dep, was(n).visible, modules, v);
      PropagatedWorth(ts[0].kids, n.dep, was, modules, v);
      PropagatedWorth(ts[1..], base, was, modules, v);
    }
  }

  /** The dependency of every node, and the condition of every prompt, is as `expr_transform` leaves it. */
  ghost predicate AllNormal(ts: seq<Tree>)
    reads Nodes(ts)`dep, Nodes(ts)`visible
  {
    ts == [] || (
      && NormalDep(ts[0].node.dep) && (ts[0].node.prompted ==> NormalDep(ts[0].node.visible))
      && AllNormal(ts[0].kids) && AllNormal(ts[1..]))
  }

  /** So the superset test only ever sees conditions in normal form. */
  lemma {:induction false} PropagatedNormal(ts: seq<Tree>, base: Dep, was: Menu -> Conds, modules: Sym)
    requires Propagated(ts, base, was, modules) && NormalDep(base)
    ensures AllNormal(ts)
  {
    hide Narrow, Shown, NormalDep;
    if ts != [] {
      var n := ts[0].node;
      NarrowNormal(base, was(n).dep, modules);
      ShownNormal(n.sym, n.dep, was(n).visible, modules);
      PropagatedNormal(ts[0].kids, n.dep, was, modules);
      PropagatedNormal(ts[1..], base, was, modules);
    }
  }

  // ----- where a walk is -----

  /** A node the walk is below of, and the siblings behind it. */
  datatype Level = Level(node: Menu, rest: seq<Tree>)

  ghost function LevelNodes(levels: seq<Level>): set<Menu> {
    if levels == [] then {} else {levels[0].node} + Nodes(levels[0].rest) + LevelNodes(levels[1..])
  }

  /** The way up from p to the root. */
  ghost predicate Above(p: Menu?, levels: seq<Level>, root: Menu)
    reads root, LevelNodes(levels)
  {
    if levels == [] then p == root && root.next == null && root.parent == null
    else
      var l := levels[0];
      TopsAndBelow(l.rest);
      && p == l.node && Chain(l.node.next, null, l.rest, l.node.parent) && Deep(l.rest)
      && Above(l.node.parent, levels[1..], root)
  }

  /** What is still to be visited. */
  ghost function Todo(ts: seq<Tree>, levels: seq<Level>): seq<Menu> {
    Preorder(ts) + TodoAbove(levels)
  }

  ghost function TodoAbove(levels: seq<Level>): seq<Menu> {
    if levels == [] then [] else Preorder(levels[0].rest) + TodoAbove(levels[1..])
  }

  lemma {:induction false} Down(ts: seq<Tree>, par: Menu, menu: Menu, levels: seq<Level>, root: Menu)
    requires Chain(menu, null, ts, par) && Deep(ts) && Above(par, levels, root)
    ensures ts != [] && ts[0].node == menu && menu.parent == par
    ensures Chain(menu.list, null, ts[0].kids, menu) && Deep(ts[0].kids) && (menu.list == null <==> ts[0].kids == [])
    ensures Chain(menu.next, null, ts[1..], par) && Deep(ts[1..]) && (menu.next == null <==> ts[1..] == [])
    ensures Above(menu, [Level(menu, ts[1..])] + levels, root)
    ensures Todo(ts, levels) == [menu] + Todo(ts[0].kids, [Level(menu, ts[1..])] + levels)
    ensures ts[0].kids == [] ==> Todo(ts, levels) == [menu] + Todo(ts[1..], levels)
  {
    ChainLinks(menu, null, ts, par);
    var t, rest := ts[0], ts[1..];
    assert ts == [t] + rest;
    ChainConcat(menu, null, [t], rest, par);
    ChainLinks(menu, Head(rest, null), [t], par);
    ChainLinks(menu.list, null, t.kids, menu);
    ChainLinks(menu.next, null, rest, par);
    var levels' := [Level(menu, rest)] + levels;
    assert levels'[1..] == levels;
    Associates([menu], Preorder(t.kids), Preorder(rest));
    Associates([menu] + Preorder(t.kids), Preorder(rest), TodoAbove(levels));
    Associates([menu], Preorder(t.kids), Preorder(rest) + TodoAbove(levels));
  }

  /** The walk of `conf_write_defconfig`. */
  method WalkDefconfig(root: Menu, ghost kids: seq<Tree>) returns (visited: seq<Menu>)
    requires root.next == null && root.parent == null && Chain(root.list, null, kids, root) && Deep(kids)
    ensures visited == Preorder(kids)
  {
    hide Chain, Deep, Above, Todo;
    visited := [];
    var menu := root.list;
    ghost var ts, par: Menu, levels := kids, root, [];
    Top(root, kids);
    while menu != null
      invariant Chain(menu, null, ts, par) && Deep(ts) && Above(par, levels, root)
      invariant visited + Todo(ts, levels) == Preorder(kids)
      invariant menu == null ==> Todo(ts, levels) == []
      decreases |Todo(ts, levels)|
    {
      Down(ts, par, menu, levels, root);
      ghost var before := visited;
      visited := visited + [menu];
      if menu.list != null {
        Associates(before, [menu], Todo(ts[0].kids, [Level(menu, ts[1..])] + levels));
        levels := [Level(menu, ts[1..])] + levels;
        ts, par := ts[0].kids, menu;
        menu := menu.list;
      } else if menu.next != null {
        Associates(before, [menu], Todo(ts[1..], levels));
        ts := ts[1..];
        menu := menu.next;
      } else {
        Associates(before, [menu], Todo(ts[1..], levels));
        menu, ts, par, levels := ClimbDefconfig(menu, par, levels, root);
      }
    }
  }

  lemma {:induction false} Top(root: Menu, kids: seq<Tree>)
    requires root.next == null && root.parent == null && Chain(root.list, null, kids, root)
    ensures Above(root, [], root) && Todo(kids, []) == Preorder(kids) && (root.list == null ==> Todo(kids, []) == [])
  {
    ChainLinks(root.list, null, kids, root);
  }

  /** The inner loop: up until there is a next sibling. */
  method ClimbDefconfig(from: Menu, ghost par0: Menu, ghost levels0: seq<Level>, root: Menu)
    returns (menu: Menu?, ghost ts: seq<Tree>, ghost par: Menu, ghost levels: seq<Level>)
    requires from.parent == par0 && Above(par0, levels0, root)
    ensures Chain(menu, null, ts, par) && Deep(ts) && Above(par, levels, root)
    ensures Todo(ts, levels) == Todo([], levels0) && (menu == null ==> Todo(ts, levels) == [])
    ensures |levels| <= |levels0|
  {
    hide Chain, Deep, Above, Todo;
    AtRoot(root, levels0, par0);
    menu, levels := from.parent, levels0;
    while menu != null
      invariant Above(root, [], root)
      invariant menu != null ==> Above(menu, levels, root)
      invariant menu == null ==> levels == [] && Todo([], []) == []
      invariant Todo([], levels) == Todo([], levels0) && |levels| <= |levels0|
      decreases |levels|, menu != null
    {
      Up(menu, levels, root);
      if menu.next != null {
        ts, par, levels := levels[0].rest, menu.parent, levels[1..];
        menu := menu.next;
        return;
      }
      menu := menu.parent;
      levels := if levels == [] then [] else levels[1..];
    }
    ts, par := [], root;
    Nowhere(root);
  }

  lemma {:induction false} Up(p: Menu, levels: seq<Level>, root: Menu)
    requires Above(p, levels, root)
    ensures p.next == null && levels == [] ==> p.parent == null && Todo([], []) == []
    ensures p.next == null && levels != [] ==>
            p.parent != null && Above(p.parent, levels[1..], root)
            && Todo([], levels) == Todo([], levels[1..])
    ensures p.next != null ==> levels != [] && p.parent != null && Above(p.parent, levels[1..], root)
    ensures p.next != null ==> Chain(p.next, null, levels[0].rest, p.parent) && Deep(levels[0].rest)
    ensures p.next != null ==> Todo([], levels) == Todo(levels[0].rest, levels[1..])
  {
    if levels != [] {
      ChainLinks(p.next, null, levels[0].rest, p.parent);
    }
  }

  lemma {:induction false} Nowhere(root: Menu)
    ensures Chain(null, null, [], root) && Deep([])
  {
  }

  /** Whoever is above something has the root on top. */
  lemma {:induction false} AtRoot(root: Menu, levels: seq<Level>, p: Menu?)
    requires Above(p, levels, root)
    ensures Above(root, [], root)
  {
    if levels != [] {
      AtRoot(root, levels[1..], levels[0].node.parent);
    }
  }

  // ----- the walk that also leaves -----

  /** The walk of `conf_write` enters a node, and passes its end when everything below is done. */
  datatype Visit = Enter(node: Menu) | Leave(node: Menu)

  ghost function Trace(ts: seq<Tree>): seq<Visit> {
    if ts == [] then [] else [Enter(ts[0].node)] + Trace(ts[0].kids) + [Leave(ts[0].node)] + Trace(ts[1..])
  }

  /** The visits to come once everything at this level is done. */
  ghost function TraceAbove(levels: seq<Level>, root: Menu): seq<Visit> {
    if levels == [] then [Leave(root)]
       else [Leave(levels[0].node)] + Trace(levels[0].rest) + TraceAbove(levels[1..], root)
  }

  lemma {:induction false} DownTrace(ts: seq<Tree>, menu: Menu, levels: seq<Level>, root: Menu)
    requires ts != [] && ts[0].node == menu
    ensures var levels' := [Level(menu, ts[1..])] + levels;
            Trace(ts) + TraceAbove(levels, root) == [Enter(menu)] + (Trace(ts[0].kids) + TraceAbove(levels', root))
  {
    var levels' := [Level(menu, ts[1..])] + levels;
    assert levels'[1..] == levels;
    Associates([Enter(menu)], Trace(ts[0].kids), [Leave(menu)] + Trace(ts[1..]) + TraceAbove(levels, root));
    Associates([Leave(menu)], Trace(ts[1..]), TraceAbove(levels, root));
    Associates([Enter(menu)] + Trace(ts[0].kids), [Leave(menu)] + Trace(ts[1..]), TraceAbove(levels, root));
    Associates([Enter(menu)] + Trace(ts[0].kids), [Leave(menu)], Trace(ts[1..]));
  }

  /** The walk of `conf_write`: well nested, with the end of the root last. */
  method WalkWrite(root: Menu, ghost kids: seq<Tree>) returns (trace: seq<Visit>)
    requires root.next == null && root.parent == null && Chain(root.list, null, kids, root) && Deep(kids)
    ensures trace == Trace(kids) + if kids == [] then [] else [Leave(root)]
  {
    hide Chain, Deep, Above, Trace, TraceAbove, Todo;
    trace := [];
    var menu := root.list;
    ghost var ts, par: Menu, levels := kids, root, [];
    Top(root, kids);
    TopTrace(root, kids);
    while menu != null
      invariant Chain(menu, null, ts, par) && Deep(ts) && Above(par, levels, root)
      invariant menu != null ==> trace + (Trace(ts) + TraceAbove(levels, root)) == Trace(kids) + [Leave(root)]
      invariant menu == null ==> trace == Trace(kids) + if kids == [] then [] else [Leave(root)]
      invariant menu != null ==> kids != []
      decreases |Todo(ts, levels)|
    {
      Down(ts, par, menu, levels, root);
      DownTrace(ts, menu, levels, root);
      ghost var before := trace;
      trace := trace + [Enter(menu)];
      ghost var inside := [Level(menu, ts[1..])] + levels;
      Associates(before, [Enter(menu)], Trace(ts[0].kids) + TraceAbove(inside, root));
      if menu.list != null {
        levels := inside;
        ts, par := ts[0].kids, menu;
        menu := menu.list;
      } else {
        NoTrace(TraceAbove(inside, root));
        menu, trace, ts, par, levels := EndCheck(menu, trace, inside, root, Trace(kids) + [Leave(root)]);
      }
    }
  }

  lemma {:induction false} NoTrace(after: seq<Visit>)
    ensures Trace([]) + after == after
  {
  }

  lemma {:induction false} TopTrace(root: Menu, kids: seq<Tree>)
    requires Chain(root.list, null, kids, root)
    ensures Trace(kids) + TraceAbove([], root) == Trace(kids) + [Leave(root)] && (root.list == null <==> kids == [])
    ensures Trace([]) == [] && [] + (Trace(kids) + TraceAbove([], root)) == Trace(kids) + TraceAbove([], root)
  {
    ChainLinks(root.list, null, kids, root);
  }

  /** `end_check`: the ends of the nodes on the way up, until there is a next sibling. */
  method EndCheck(from: Menu, trace0: seq<Visit>, ghost levels0: seq<Level>, root: Menu, ghost all: seq<Visit>)
    returns (menu: Menu?, trace: seq<Visit>, ghost ts: seq<Tree>, ghost par: Menu, ghost levels: seq<Level>)
    requires Above(from, levels0, root) && trace0 + TraceAbove(levels0, root) == all && levels0 != []
    ensures Chain(menu, null, ts, par) && Deep(ts) && Above(par, levels, root)
    ensures menu != null ==> trace + (Trace(ts) + TraceAbove(levels, root)) == all
    ensures menu == null ==> trace == all
    ensures |Todo(ts, levels)| <= |Todo([], levels0)|
  {
    hide Chain, Deep, Above, Trace, TraceAbove, Todo;
    AtRoot(root, levels0, from);
    menu, trace, levels := from, trace0, levels0;
    while true
      invariant Above(root, [], root) && menu != null && Above(menu, levels, root)
      invariant trace + TraceAbove(levels, root) == all
      invariant Todo([], levels) == Todo([], levels0)
      decreases |levels|
    {
      Up(menu, levels, root);
      EndTrace(menu, trace, levels, root);
      trace := trace + [Leave(menu)];
      if menu.next != null {
        ts, par, levels := levels[0].rest, menu.parent, levels[1..];
        menu := menu.next;
        return;
      }
      menu := menu.parent;
      if menu == null {
        break;
      }
      levels := levels[1..];
    }
    ts, par, levels := [], root, [];
    Nowhere(root);
  }

  lemma {:induction false} EndTrace(p: Menu, trace: seq<Visit>, levels: seq<Level>, root: Menu)
    requires Above(p, levels, root)
    ensures levels == [] ==> trace + TraceAbove(levels, root) == trace + [Leave(p)]
    ensures levels != [] ==>
            trace + TraceAbove(levels, root)
            == trace + [Leave(p)] + (Trace(levels[0].rest) + TraceAbove(levels[1..], root))
    ensures levels != [] && p.next == null ==>
            trace + TraceAbove(levels, root) == trace + [Leave(p)] + TraceAbove(levels[1..], root)
  {
    if levels != [] {
      ChainLinks(p.next, null, levels[0].rest, p.parent);
      Associates([Leave(p)], Trace(levels[0].rest), TraceAbove(levels[1..], root));
      Associates(trace, [Leave(p)], Trace(levels[0].rest) + TraceAbove(levels[1..], root));
      NoTrace(TraceAbove(levels[1..], root));
    }
  }

  /** The entries of the trace, in order, are the nodes in preorder. */
  ghost function Entered(trace: seq<Visit>): seq<Menu> {
    if trace == [] then []
    else (if trace[0].Enter? then [trace[0].node] else []) + Entered(trace[1..])
  }

  lemma {:induction false} EnteredConcat(a: seq<Visit>, b: seq<Visit>)
    ensures Entered(a + b) == Entered(a) + Entered(b)
  {
    if a == [] {
      assert a + b == b;
    } else {
      EnteredConcat(a[1..], b);
      assert (a + b)[1..] == a[1..] + b && (a + b)[0] == a[0];
      var first := if a[0].Enter? then [a[0].node] else [];
      assert Entered(a + b) == first + Entered(a[1..] + b);
      Associates(first, Entered(a[1..]), Entered(b));
    }
  }

  /** Both walks visit the same nodes. */
  lemma {:induction false} TraceIsPreorder(ts: seq<Tree>)
    ensures Entered(Trace(ts)) == Preorder(ts)
  {
    if ts != [] {
      var t := ts[0];
      TraceIsPreorder(t.kids);
      TraceIsPreorder(ts[1..]);
      EnteredConcat([Enter(t.node)] + Trace(t.kids) + [Leave(t.node)], Trace(ts[1..]));
      EnteredConcat([Enter(t.node)] + Trace(t.kids), [Leave(t.node)]);
      EnteredConcat([Enter(t.node)], Trace(t.kids));
      EnteredSingles(t.node);
    }
  }

  lemma {:induction false} EnteredSingles(n: Menu)
    ensures Entered([Enter(n)]) == [n] && Entered([Leave(n)]) == []
  {
    assert [Enter(n)][1..] == [] && [Leave(n)][1..] == [];
  }

  /**
   `menu_finalize(&rootmenu)` and a walk afterwards: the nodes come out in the order in which they were
   parsed, each was finalized once, and only titled nodes have children left.
   */
  method FinalizeAndWalk(root: Menu, modules: Sym, ghost kids: seq<Tree>, ghost was: Menu -> Conds)
    returns (visited: seq<Menu>, ghost kids': seq<Tree>, ghost done: seq<Menu>)
    requires root.next == null && root.parent == null && Chain(root.list, null, kids, root) && Deep(kids)
    requires Distinct([Tree(root, kids)]) && Pending(kids, was)
    modifies Nodes([Tree(root, kids)])
    ensures visited == Preorder(kids) && done == [root] + visited && NoDup(done)
    ensures Chain(root.list, null, kids', root) && Deep(kids') && Tidy(kids') && Preorder(kids') == Preorder(kids)
    ensures Propagated(kids, root.dep, was, modules)
  {
    hide Chain, Deep, Preorder, Nodes, Below, Tidy, Propagated, Pending, NoDup;
    ghost var t, k := Tree(root, kids), 0;
    assert [t] + [] == [t];
    RootReady(root, kids, was);
    kids', k, done := Finalize(root, modules, kids, [], null, was);
    RootDone(root, kids', done, kids);
    Allocated(kids');
    Allocated(kids);
    TopsAndBelow(kids');
    visited := WalkDefconfig(root, kids');
  }

  lemma {:induction false} RootReady(root: Menu, kids: seq<Tree>, was: Menu -> Conds)
    requires root.next == null && root.parent == null && Chain(root.list, null, kids, root) && Deep(kids)
    ensures Chain(root, null, [Tree(root, kids)], null) && Deep([Tree(root, kids)]) && PendingInside([], was)
  {
    LastNext(root, null, [Tree(root, kids)], null);
    DeepOne(Tree(root, kids));
  }

  lemma {:induction false} RootDone(root: Menu, kids': seq<Tree>, done: seq<Menu>, kids: seq<Tree>)
    requires Chain(root, null, [Tree(root, kids')] + [], null) && Deep([Tree(root, kids')] + [])
    requires done == Preorder([Tree(root, kids')]) && Preorder(kids') == Preorder(kids) + Preorder([][..0])
    requires Distinct([Tree(root, kids)])
    ensures root.next == null && root.parent == null && Chain(root.list, null, kids', root) && Deep(kids')
    ensures done == [root] + Preorder(kids') && Preorder(kids') == Preorder(kids) && NoDup(done)
  {
    var t := Tree(root, kids');
    assert [t] + [] == [t];
    DeepOne(t);
    ChainLinks(root, null, [t], null);
    One(t);
    One(Tree(root, kids));
  }
}
