/**
 The menu tree (scripts/config/menu.c and confdata.c): nodes linked by `next`,
 `list` and `parent`, how `menu_finalize` hangs them into each other, and the walks
 that visit them without recursion.
 */
module MenuTree {
  import opened Basics
  import opened Expr
  import opened Transform
  import opened Conditions

  class Menu {
    const sym: Option<Sym>
    /** Has a prompt; has one with a text. */
    const prompted: bool
    const titled: bool
    var next: Menu?
    var list: Menu?
    var parent: Menu?
    var dep: Dep
    var visible: Dep

    constructor (sym: Option<Sym>, prompted: bool, titled: bool, dep: Dep, visible: Dep)
      ensures next == null && list == null && parent == null
      ensures this.sym == sym && this.prompted == prompted && this.titled == titled && this.dep == dep
      ensures this.visible == visible
    {
      this.sym, this.prompted, this.titled, this.dep, this.visible := sym, prompted, titled, dep, visible;
      next, list, parent := null, null, null;
    }
  }

  // ----- the tree the links stand for -----

  datatype Tree = Tree(node: Menu, kids: seq<Tree>)

  ghost function Preorder(ts: seq<Tree>): seq<Menu> {
    if ts == [] then [] else [ts[0].node] + Preorder(ts[0].kids) + Preorder(ts[1..])
  }

  ghost function Nodes(ts: seq<Tree>): set<Menu> {
    if ts == [] then {} else {ts[0].node} + Nodes(ts[0].kids) + Nodes(ts[1..])
  }

  ghost function Tops(ts: seq<Tree>): set<Menu> { set i | 0 <= i < |ts| :: ts[i].node }

  ghost function Below(ts: seq<Tree>): set<Menu> {
    if ts == [] then {} else Nodes(ts[0].kids) + Below(ts[1..])
  }

  function Head(ts: seq<Tree>, stop: Menu?): Menu? { if ts == [] then stop else ts[0].node }

  /** The siblings, from h up to stop, with their common parent. */
  ghost predicate Chain(h: Menu?, stop: Menu?, ts: seq<Tree>, par: Menu?)
    reads Tops(ts)`next, Tops(ts)`parent
  {
    h == Head(ts, stop) && forall i :: 0 <= i < |ts| ==>
      ts[i].node.parent == par && ts[i].node.next == Head(ts[i + 1..], stop)
  }

  /** The children of every node hang in its list, and name it as their parent. */
  ghost predicate Deep(ts: seq<Tree>)
    reads Nodes(ts)`list, Below(ts)`next, Below(ts)`parent
  {
    ts == [] || (
      TopsAndBelow(ts[0].kids);
      && Chain(ts[0].node.list, null, ts[0].kids, ts[0].node) && Deep(ts[0].kids) && Deep(ts[1..]))
  }

  lemma {:induction false} TopsAndBelow(ts: seq<Tree>)
    ensures Nodes(ts) == Tops(ts) + Below(ts)
  {
    if ts != [] {
      TopsAndBelow(ts[1..]);
      assert Tops(ts) == {ts[0].node} + Tops(ts[1..]) by {
        forall n | n in Tops(ts) ensures n in {ts[0].node} + Tops(ts[1..]) {
          var i :| 0 <= i < |ts| && ts[i].node == n;
          assert i > 0 ==> ts[1..][i - 1].node == n;
        }
        forall n | n in Tops(ts[1..]) ensures n in Tops(ts) {
          var i :| 0 <= i < |ts[1..]| && ts[1..][i].node == n;
          assert ts[i + 1].node == n;
        }
      }
    }
  }

  lemma {:induction false} Allocated(ts: seq<Tree>)
    ensures forall n :: n in Nodes(ts) ==> allocated(n)
  {
    if ts != [] {
      Allocated(ts[0].kids);
      Allocated(ts[1..]);
    }
  }

  predicate NoDup(s: seq<Menu>) { forall i, j :: 0 <= i < j < |s| ==> s[i] != s[j] }

  ghost predicate Distinct(ts: seq<Tree>) { NoDup(Preorder(ts)) }

  lemma {:induction false} NodesArePreorder(ts: seq<Tree>, n: Menu)
    ensures n in Nodes(ts) <==> n in Preorder(ts)
  {
    if ts != [] {
      NodesArePreorder(ts[0].kids, n);
      NodesArePreorder(ts[1..], n);
    }
  }

  lemma {:induction false} PreorderConcat(a: seq<Tree>, b: seq<Tree>)
    ensures Preorder(a + b) == Preorder(a) + Preorder(b) && Nodes(a + b) == Nodes(a) + Nodes(b)
  {
    if a == [] {
      assert a + b == b;
    } else {
      PreorderConcat(a[1..], b);
      assert (a + b)[1..] == a[1..] + b && (a + b)[0] == a[0];
      var p := [a[0].node] + Preorder(a[0].kids);
      assert Preorder(a + b) == p + Preorder(a[1..] + b);
      assert Preorder(a) == p + Preorder(a[1..]);
      Associates(p, Preorder(a[1..]), Preorder(b));
    }
  }

  lemma {:induction false} NoDupSplit(a: seq<Menu>, b: seq<Menu>)
    requires NoDup(a + b)
    ensures NoDup(a) && NoDup(b) && forall n :: n in a ==> n !in b
  {
    var s := a + b;
    assert forall i :: 0 <= i < |a| ==> s[i] == a[i];
    assert forall i :: 0 <= i < |b| ==> s[|a| + i] == b[i];
  }

  lemma {:induction false} DistinctSplit(a: seq<Tree>, b: seq<Tree>)
    requires Distinct(a + b)
    ensures Distinct(a) && Distinct(b) && Nodes(a) !! Nodes(b)
  {
    PreorderConcat(a, b);
    NoDupSplit(Preorder(a), Preorder(b));
    forall n | n in Nodes(a) ensures n !in Nodes(b) {
      NodesArePreorder(a, n);
      NodesArePreorder(b, n);
    }
  }

  lemma {:induction false} One(t: Tree)
    ensures Preorder([t]) == [t.node] + Preorder(t.kids) && Nodes([t]) == {t.node} + Nodes(t.kids)
    ensures Below([t]) == Nodes(t.kids)
    ensures Tops([t]) == {t.node}
  {
    assert [t][1..] == [];
  }

  lemma {:induction false} DistinctOne(t: Tree)
    requires Distinct([t])
    ensures Distinct(t.kids) && t.node !in Nodes(t.kids)
  {
    One(t);
    NodesArePreorder(t.kids, t.node);
    NoDupSplit([t.node], Preorder(t.kids));
    assert t.node in [t.node];
  }

  lemma {:induction false} DistinctTops(ts: seq<Tree>)
    requires Distinct(ts)
    ensures Tops(ts) !! Below(ts)
    ensures forall i, j :: 0 <= i < j < |ts| ==> ts[i].node != ts[j].node
  {
    if ts != [] {
      assert ts == [ts[0]] + ts[1..];
      DistinctSplit([ts[0]], ts[1..]);
      DistinctOne(ts[0]);
      DistinctTops(ts[1..]);
      TopsAndBelow(ts[1..]);
      One(ts[0]);
      forall i | 0 < i < |ts| ensures ts[i].node in Tops(ts[1..]) {
        assert ts[1..][i - 1] == ts[i];
      }
    }
  }

  lemma {:induction false} ChainConcat(h: Menu?, stop: Menu?, a: seq<Tree>, b: seq<Tree>, par: Menu?)
    ensures Chain(h, stop, a + b, par) <==> Chain(h, Head(b, stop), a, par) && Chain(Head(b, stop), stop, b, par)
  {
    var ts := a + b;
    forall i | 0 <= i < |a| ensures Head(ts[i + 1..], stop) == Head(a[i + 1..], Head(b, stop)) && ts[i] == a[i] {
      assert ts[i + 1..] == a[i + 1..] + b;
    }
    forall i | 0 <= i < |b| ensures ts[|a| + i] == b[i] && ts[|a| + i + 1..] == b[i + 1..] {
    }
    if Chain(h, stop, ts, par) {
      forall i | 0 <= i < |b| ensures b[i].node.parent == par && b[i].node.next == Head(b[i + 1..], stop) {
        assert ts[|a| + i].node.parent == par;
      }
    }
    if Chain(h, Head(b, stop), a, par) && Chain(Head(b, stop), stop, b, par) {
      forall i | 0 <= i < |ts| ensures ts[i].node.parent == par && ts[i].node.next == Head(ts[i + 1..], stop) {
        if i >= |a| {
          assert ts[i] == b[i - |a|];
        }
      }
    }
  }

  lemma {:induction false} DeepConcat(a: seq<Tree>, b: seq<Tree>)
    ensures Deep(a + b) <==> Deep(a) && Deep(b)
  {
    if a == [] {
      assert a + b == b;
    } else {
      DeepConcat(a[1..], b);
      assert (a + b)[1..] == a[1..] + b;
    }
  }

  lemma {:induction false} DeepOne(t: Tree)
    ensures Deep([t]) <==> Chain(t.node.list, null, t.kids, t.node) && Deep(t.kids)
  {
    assert [t][1..] == [];
  }

  // ----- what finalizing is to achieve -----

  /** Only nodes that show a title have children. */
  predicate Tidy(ts: seq<Tree>) {
    ts == [] || ((ts[0].kids == [] || ts[0].node.titled) && Tidy(ts[0].kids) && Tidy(ts[1..]))
  }

  lemma {:induction false} TidyConcat(a: seq<Tree>, b: seq<Tree>)
    ensures Tidy(a + b) <==> Tidy(a) && Tidy(b)
  {
    if a == [] {
      assert a + b == b;
    } else {
      TidyConcat(a[1..], b);
      assert (a + b)[1..] == a[1..] + b;
    }
  }

  /** Every node of the forests is followed by the same nodes in the same order. */
  lemma {:induction false} Spliced(a: seq<Tree>, m: Menu, kids: seq<Tree>, b: seq<Tree>)
    ensures Preorder(a + ([Tree(m, kids)] + b)) == Preorder(a + [Tree(m, [])] + (kids + b))
    ensures |Preorder(kids + b)| < |Preorder([Tree(m, kids)] + b)|
  {
    hide Preorder, Nodes, Below, Tops;
    PreorderConcat(a, [Tree(m, kids)] + b);
    PreorderConcat([Tree(m, kids)], b);
    PreorderConcat(a + [Tree(m, [])], kids + b);
    PreorderConcat(a, [Tree(m, [])]);
    PreorderConcat(kids, b);
    One(Tree(m, kids));
    One(Tree(m, []));
    assert Preorder([]) == [] by { PreorderNone(); }
    Associates([m], Preorder(kids), Preorder(b));
    Associates(Preorder(a), [m], Preorder(kids) + Preorder(b));
  }

  lemma {:induction false} PreorderNone()
    ensures Preorder([]) == []
  {
  }

  // ----- flattening -----

  /** The inner loop of the flattening: the siblings change their parent. */
  method Adopt(h: Menu, ghost ts: seq<Tree>, ghost was: Menu?, par: Menu?, ghost rest: seq<Tree>) returns (last: Menu)
    requires ts != [] && Chain(h, null, ts, was) && Distinct(ts)
    requires Deep(ts) && Deep(rest) && Nodes(ts) !! Nodes(rest)
    modifies Tops(ts)`parent
    ensures Chain(h, null, ts, par) && last == ts[|ts| - 1].node && last in Tops(ts)
    ensures Deep(ts) && Deep(rest)
  {
    hide Chain, Deep, Distinct, Nodes, Below, Preorder;
    DistinctTops(ts);
    TopsAndBelow(ts);
    TopsAndBelow(rest);
    ChainLinks(h, null, ts, was);
    last := h;
    ghost var i := 0;
    while true
      invariant 0 <= i < |ts| && last == ts[i].node
      invariant forall j :: 0 <= j < i ==> ts[j].node.parent == par
      invariant forall j :: 0 <= j < |ts| - 1 ==> ts[j].node.next == ts[j + 1].node
      invariant ts[|ts| - 1].node.next == null && Deep(ts) && Deep(rest)
      decreases |ts| - i
    {
      last.parent := par;
      assert i < |ts| - 1 ==> ts[i].node.next == ts[i + 1].node;
      if last.next == null {
        break;
      }
      last := last.next;
      i := i + 1;
    }
    LastNext(h, null, ts, par);
  }

  lemma {:induction false} LastNext(h: Menu?, stop: Menu?, ts: seq<Tree>, par: Menu?)
    requires ts != [] && h == ts[0].node
    requires forall i :: 0 <= i < |ts| ==> ts[i].node.parent == par
    requires forall i :: 0 <= i < |ts| - 1 ==> ts[i].node.next == ts[i + 1].node
    requires ts[|ts| - 1].node.next == stop
    ensures Chain(h, stop, ts, par)
  {
  }

  /** The links between siblings, one by one. */
  lemma {:induction false} ChainLinks(h: Menu?, stop: Menu?, ts: seq<Tree>, par: Menu?)
    requires Chain(h, stop, ts, par)
    ensures forall i :: 0 <= i < |ts| - 1 ==> ts[i].node.next == ts[i + 1].node
    ensures forall i :: 0 <= i < |ts| ==> ts[i].node.parent == par
    ensures if ts == [] then h == stop else h == ts[0].node && ts[|ts| - 1].node.next == stop
  {
  }

  /** The pointer changes that move a list of children behind their parent. */
  method Relink(menu: Menu, last: Menu, ghost kids: seq<Tree>, ghost rest: seq<Tree>)
    requires kids != [] && last == kids[|kids| - 1].node && last in Tops(kids) && Distinct(kids)
    requires menu !in Nodes(kids) && menu !in Nodes(rest) && Nodes(kids) !! Nodes(rest)
    requires Deep(kids) && Deep(rest)
    modifies {menu}`next, {menu}`list, {last}`next
    ensures Deep(kids) && Deep(rest)
    ensures menu.next == old(menu.list) && menu.list == null && last.next == old(menu.next)
  {
    hide Deep, Distinct;
    DistinctTops(kids);
    TopsAndBelow(kids);
    TopsAndBelow(rest);
    last.next := menu.next;
    menu.next := menu.list;
    menu.list := null;
  }

  /** The body of the flattening: the children of a node without a title become its next siblings. */
  method Splice(menu: Menu, ghost kids: seq<Tree>, ghost rest: seq<Tree>, parent: Menu)
    requires kids != [] && Chain(menu, null, [Tree(menu, kids)] + rest, parent)
    requires Deep([Tree(menu, kids)] + rest) && Distinct([Tree(menu, kids)] + rest)
    modifies {menu}`next, {menu}`list, Tops(kids)`next, Tops(kids)`parent
    ensures Chain(menu, null, [Tree(menu, [])] + (kids + rest), parent) && Deep([Tree(menu, [])] + (kids + rest))
  {
    hide Chain, Deep, Distinct, Below, Nodes;
    ghost var t := Tree(menu, kids);
    ghost var after := Head(rest, null);
    DistinctSplit([t], rest);
    DistinctOne(t);
    DistinctTops(kids);
    TopsAndBelow(kids);
    TopsAndBelow(rest);
    One(t);
    DeepConcat([t], rest);
    DeepOne(t);
    ChainConcat(menu, null, [t], rest, parent);
    ChainLinks(menu, after, [t], parent);
    ChainLinks(menu.list, null, kids, menu);
    assert Tops(kids) !! Nodes(rest) && menu !in Nodes(rest);
    var last := Adopt(menu.list, kids, menu, parent, rest);
    ChainLinks(menu.list, null, kids, parent);
    ghost var first := menu.list;
    Relink(menu, last, kids, rest);
    LastNext(first, after, kids, parent);
    ChainConcat(first, null, kids, rest, parent);
    LastNext(menu, first, [Tree(menu, [])], parent);
    ChainConcat(menu, null, [Tree(menu, [])], kids + rest, parent);
    DeepConcat(kids, rest);
    DeepNone(Tree(menu, []));
    DeepConcat([Tree(menu, [])], kids + rest);
  }

  lemma {:induction false} DeepNone(t: Tree)
    requires t.kids == [] && t.node.list == null
    ensures Deep([t])
  {
    DeepOne(t);
  }

  lemma {:induction false} TidyOne(t: Tree)
    ensures Tidy([t]) <==> (t.kids == [] || t.node.titled) && Tidy(t.kids)
    ensures t.kids == [] ==> Tidy([t])
  {
    assert [t][1..] == [];
  }

  /** The children of an entry, once each of them is tidy inside. */
  ghost predicate TidyInside(ts: seq<Tree>) { forall i :: 0 <= i < |ts| ==> Tidy(ts[i].kids) }

  lemma {:induction false} TidyIsInside(ts: seq<Tree>)
    requires Tidy(ts)
    ensures TidyInside(ts)
  {
    if ts != [] {
      TidyIsInside(ts[1..]);
      forall i | 0 <= i < |ts| ensures Tidy(ts[i].kids) {
        assert i > 0 ==> ts[i] == ts[1..][i - 1];
      }
    }
  }

  lemma {:induction false} StartFlat(parent: Menu, ts: seq<Tree>)
    ensures Chain(parent.list, parent.list, [], parent) && Deep([]) && Tidy([])
    ensures [] + ts == ts && [] + Flat(ts) == Flat(ts) && Flat([]) == []
  {
  }

  /** What the nodes of a forest before, of a tree and of a forest behind it have to do with each other. */
  lemma {:induction false} Taken(before: seq<Tree>, t: Tree, rest: seq<Tree>)
    requires Distinct(before + ([t] + rest))
    ensures Distinct([t] + rest) && Distinct(t.kids) && Distinct(rest)
    ensures Nodes([t] + rest) == {t.node} + Nodes(t.kids) + Nodes(rest)
    ensures Nodes(before) !! Nodes([t] + rest) && Nodes(before + ([t] + rest)) == Nodes(before) + Nodes([t] + rest)
    ensures t.node !in Nodes(t.kids) && t.node !in Nodes(rest) && Nodes(t.kids) !! Nodes(rest)
    ensures |Preorder(rest)| < |Preorder([t] + rest)| && |Preorder(t.kids)| < |Preorder([t] + rest)|
  {
    hide Nodes, Preorder, Distinct;
    DistinctSplit(before, [t] + rest);
    DistinctSplit([t], rest);
    DistinctOne(t);
    One(t);
    PreorderConcat([t], rest);
    PreorderConcat(before, [t] + rest);
  }

  /** The flattened forest: whatever hangs below a node without a title follows behind it instead. */
  ghost function Flat(ts: seq<Tree>): seq<Tree>
    decreases |Preorder(ts)|
  {
    if ts == [] then []
    else
      FlatShrinks(ts);
      if ts[0].kids != [] && !ts[0].node.titled then [Tree(ts[0].node, [])] + Flat(ts[0].kids + ts[1..])
      else [ts[0]] + Flat(ts[1..])
  }

  lemma {:induction false} FlatShrinks(ts: seq<Tree>)
    requires ts != []
    ensures |Preorder(ts[0].kids + ts[1..])| < |Preorder(ts)| && |Preorder(ts[1..])| < |Preorder(ts)|
  {
    PreorderConcat(ts[0].kids, ts[1..]);
  }

  lemma {:induction false} FlatStep(flat: seq<Tree>, t: Tree, rest: seq<Tree>)
    ensures if t.kids != [] && !t.node.titled
            then flat + [Tree(t.node, [])] + Flat(t.kids + rest) == flat + Flat([t] + rest)
            else flat + [t] + Flat(rest) == flat + Flat([t] + rest)
  {
    assert ([t] + rest)[0] == t && ([t] + rest)[1..] == rest;
  }

  /** One element of the flattening loop. */
  method FlattenOne(menu: Menu, ghost flat: seq<Tree>, ghost todo: seq<Tree>, parent: Menu)
    returns (ghost flat': seq<Tree>, ghost todo': seq<Tree>, menu': Menu?)
    requires Chain(parent.list, menu, flat, parent) && Deep(flat) && Chain(menu, null, todo, parent) && Deep(todo)
    requires Distinct(flat + todo) && parent !in Nodes(flat + todo) && Tidy(flat) && TidyInside(todo)
    modifies Nodes(todo)`next, Nodes(todo)`list, Nodes(todo)`parent
    ensures Chain(parent.list, menu', flat', parent) && Deep(flat') && Chain(menu', null, todo', parent) && Deep(todo')
    ensures Preorder(flat' + todo') == Preorder(flat + todo) && Nodes(flat' + todo') == Nodes(flat + todo)
    ensures Nodes(todo') <= Nodes(todo)
    ensures Tidy(flat') && TidyInside(todo') && |Preorder(todo')| < |Preorder(todo)|
    ensures flat' + Flat(todo') == flat + Flat(todo)
  {
    hide Chain, Deep, Distinct, Tidy, TidyInside, Preorder, Flat, Nodes, Below, Tops;
    ghost var t, rest := FirstTodo(menu, flat, todo, parent);
    FlatStep(flat, t, rest);
    TidyOne(t);
    ghost var x := t;
    if menu.list != null && !menu.titled {
      FlatFrame(flat, t);
      PreorderConcat(flat, todo);
      Splice(menu, t.kids, rest, parent);
      Spliced(flat, menu, t.kids, rest);
      x := Tree(menu, []);
      flat', todo' := flat + [x], t.kids + rest;
      TidyIsInside(t.kids);
      PreorderConcat(t.kids, rest);
    } else {
      flat', todo' := flat + [t], rest;
      assert flat' + todo' == flat + todo;
    }
    TidyInsideConcat(t.kids, rest);
    TidyOne(x);
    TidyConcat(flat, [x]);
    SameNodes(flat + todo, flat' + todo');
    MovedOn(parent.list, menu, flat, x, todo', parent);
    menu' := menu.next;
  }

  /** The next sibling of the flattening, with what is behind it. */
  lemma {:induction false} FirstTodo(menu: Menu, flat: seq<Tree>, todo: seq<Tree>, parent: Menu)
    returns (t: Tree, rest: seq<Tree>)
    requires Chain(menu, null, todo, parent) && Deep(todo) && Distinct(flat + todo) && TidyInside(todo)
    ensures todo == [t] + rest && t.node == menu && (menu.list != null <==> t.kids != [])
    ensures Distinct([t] + rest) && Nodes(todo) == {menu} + Nodes(t.kids) + Nodes(rest) && Nodes(flat) !! Nodes(todo)
    ensures |Preorder(rest)| < |Preorder(todo)| && Tidy(t.kids) && TidyInside(rest)
  {
    hide Chain, Deep, Distinct, Tidy, Preorder, Nodes;
    ChainLinks(menu, null, todo, parent);
    t, rest := todo[0], todo[1..];
    assert todo == [t] + rest;
    Taken(flat, t, rest);
    DeepConcat([t], rest);
    DeepOne(t);
    ChainLinks(menu.list, null, t.kids, menu);
  }

  /** Which nodes the links of the forests are kept in. */
  lemma {:induction false} FlatFrame(flat: seq<Tree>, t: Tree)
    ensures Tops(flat) <= Nodes(flat) && Below(flat) <= Nodes(flat) && Tops(t.kids) <= Nodes(t.kids)
    ensures forall n :: n in Nodes(flat) ==> allocated(n)
  {
    TopsAndBelow(flat);
    TopsAndBelow(t.kids);
    Allocated(flat);
  }

  lemma {:induction false} TidyInsideConcat(a: seq<Tree>, b: seq<Tree>)
    requires TidyInside(b)
    ensures TidyInside(a) ==> TidyInside(a + b)
  {
    hide Tidy;
  }

  /** The sibling at the front joins those that have been flattened. */
  lemma {:induction false} MovedOn(first: Menu?, menu: Menu, flat: seq<Tree>, x: Tree, todo: seq<Tree>, parent: Menu)
    requires Chain(first, menu, flat, parent) && Deep(flat) && x.node == menu
    requires Chain(menu, null, [x] + todo, parent) && Deep([x] + todo)
    ensures Chain(first, menu.next, flat + [x], parent) && Deep(flat + [x])
    ensures Chain(menu.next, null, todo, parent) && Deep(todo)
  {
    hide Chain, Deep;
    var after := Head(todo, null);
    ChainConcat(menu, null, [x], todo, parent);
    ChainLinks(menu, after, [x], parent);
    ChainConcat(first, after, flat, [x], parent);
    DeepConcat([x], todo);
    DeepConcat(flat, [x]);
  }

  lemma {:induction false} SameNodes(a: seq<Tree>, b: seq<Tree>)
    requires Preorder(a) == Preorder(b)
    ensures Nodes(a) == Nodes(b) && (Distinct(a) ==> Distinct(b))
  {
    forall n | n in Nodes(a) ensures n in Nodes(b) {
      NodesArePreorder(a, n);
      NodesArePreorder(b, n);
    }
    forall n | n in Nodes(b) ensures n in Nodes(a) {
      NodesArePreorder(a, n);
      NodesArePreorder(b, n);
    }
  }

  /** The flattening loop: nodes without a title give their children away, and nothing changes its place. */
  method Flatten(parent: Menu, ghost ts: seq<Tree>) returns (ghost ts': seq<Tree>)
    requires Chain(parent.list, null, ts, parent) && Deep(ts) && Distinct([Tree(parent, ts)]) && TidyInside(ts)
    modifies Nodes(ts)`next, Nodes(ts)`list, Nodes(ts)`parent
    ensures Chain(parent.list, null, ts', parent) && Deep(ts')
    ensures Preorder(ts') == Preorder(ts) && Nodes(ts') == Nodes(ts) && Tidy(ts') && ts' == Flat(ts)
  {
    hide Chain, Deep, Distinct, Preorder, Nodes, Below, Tops, Tidy, TidyInside, Flat;
    DistinctOne(Tree(parent, ts));
    var menu := parent.list;
    ghost var flat, todo := [], ts;
    StartFlat(parent, ts);
    while menu != null
      invariant Chain(parent.list, menu, flat, parent) && Deep(flat)
      invariant Chain(menu, null, todo, parent) && Deep(todo)
      invariant Distinct(flat + todo) && Preorder(flat + todo) == Preorder(ts) && Nodes(flat + todo) == Nodes(ts)
      invariant Tidy(flat) && TidyInside(todo) && flat + Flat(todo) == Flat(ts)
      decreases |Preorder(todo)|
    {
      PreorderConcat(flat, todo);
      ghost var was := flat + todo;
      flat, todo, menu := FlattenOne(menu, flat, todo, parent);
      SameNodes(was, flat + todo);
    }
    ChainLinks(menu, null, todo, parent);
    ts' := flat;
    assert flat + todo == flat && flat + [] == flat;
  }

  // ----- conditions -----

  /** The conditions of a node before anything was propagated. */
  datatype Conds = Conds(dep: Dep, visible: Dep)

  ghost predicate Pending(ts: seq<Tree>, was: Menu -> Conds)
    reads Nodes(ts)`dep, Nodes(ts)`visible
  {
    forall n :: n in Nodes(ts) ==> n.dep == was(n).dep && n.visible == was(n).visible
  }

  ghost predicate PendingInside(ts: seq<Tree>, was: Menu -> Conds)
    reads Below(ts)`dep, Below(ts)`visible
  {
    ts == [] || (Pending(ts[0].kids, was) && PendingInside(ts[1..], was))
  }

  /** The node's conditions are its own ones within base, and its prompt's within both. */
  predicate Narrowed(n: Menu, base: Dep, was: Menu -> Conds, modules: Sym)
    reads n`dep, n`visible
  {
    && n.dep == Narrow(base, was(n).dep, modules)
    && n.visible == if n.prompted then Shown(n.sym, n.dep, was(n).visible, modules) else was(n).visible
  }

  /** Every node is narrowed by its parent in the tree as it was parsed. */
  ghost predicate Propagated(ts: seq<Tree>, base: Dep, was: Menu -> Conds, modules: Sym)
    reads Nodes(ts)`dep, Nodes(ts)`visible
  {
    ts == [] || (
      && Narrowed(ts[0].node, base, was, modules)
      && Propagated(ts[0].kids, ts[0].node.dep, was, modules) && Propagated(ts[1..], base, was, modules))
  }

  ghost predicate PropagatedInside(ts: seq<Tree>, was: Menu -> Conds, modules: Sym)
    reads Nodes(ts)`dep, Nodes(ts)`visible
  {
    ts == [] || (Propagated(ts[0].kids, ts[0].node.dep, was, modules) && PropagatedInside(ts[1..], was, modules))
  }

  /** The nodes themselves are narrowed, whatever is below them. */
  ghost predicate TopsNarrowed(ts: seq<Tree>, base: Dep, was: Menu -> Conds, modules: Sym)
    reads Tops(ts)`dep, Tops(ts)`visible
  {
    forall i :: 0 <= i < |ts| ==> Narrowed(ts[i].node, base, was, modules)
  }

  lemma {:induction false} PendingEach(ts: seq<Tree>, was: Menu -> Conds)
    requires Pending(ts, was)
    ensures PendingInside(ts, was)
  {
    if ts != [] {
      PendingEach(ts[1..], was);
    }
  }

  lemma {:induction false} PendingConcat(a: seq<Tree>, b: seq<Tree>, was: Menu -> Conds)
    ensures PendingInside(a + b, was) <==> PendingInside(a, was) && PendingInside(b, was)
  {
    if a == [] {
      assert a + b == b;
    } else {
      PendingConcat(a[1..], b, was);
      assert (a + b)[1..] == a[1..] + b;
    }
  }

  lemma {:induction false} InsideConcat(a: seq<Tree>, b: seq<Tree>, was: Menu -> Conds, modules: Sym)
    ensures PropagatedInside(a + b, was, modules) <==>
            PropagatedInside(a, was, modules)
            && PropagatedInside(b, was, modules)
  {
    if a == [] {
      assert a + b == b;
    } else {
      InsideConcat(a[1..], b, was, modules);
      assert (a + b)[1..] == a[1..] + b;
    }
  }

  lemma {:induction false} InsideOne(t: Tree, was: Menu -> Conds, modules: Sym)
    ensures PropagatedInside([t], was, modules) <==> Propagated(t.kids, t.node.dep, was, modules)
    ensures PendingInside([t], was) <==> Pending(t.kids, was)
  {
    assert [t][1..] == [];
  }

  lemma {:induction false} AllPropagated(ts: seq<Tree>, base: Dep, was: Menu -> Conds, modules: Sym)
    requires TopsNarrowed(ts, base, was, modules) && PropagatedInside(ts, was, modules)
    ensures Propagated(ts, base, was, modules)
  {
    if ts != [] {
      assert Narrowed(ts[0].node, base, was, modules);
      forall i | 0 <= i < |ts[1..]| ensures Narrowed(ts[1..][i].node, base, was, modules) {
        assert ts[1..][i] == ts[i + 1];
      }
      AllPropagated(ts[1..], base, was, modules);
    }
  }

  /** The first loop over the children: conditions, prompts and simplification. */
  method Propagate(parent: Menu, modules: Sym, ghost kids: seq<Tree>, ghost was: Menu -> Conds)
    requires Chain(parent.list, null, kids, parent) && Distinct([Tree(parent, kids)]) && Pending(kids, was)
    modifies Tops(kids)`dep, Tops(kids)`visible
    ensures TopsNarrowed(kids, parent.dep, was, modules) && PendingInside(kids, was)
  {
    hide Distinct, Chain, Narrowed, PendingInside, Pending, Nodes, Below, Preorder;
    DistinctOne(Tree(parent, kids));
    DistinctTops(kids);
    TopsAndBelow(kids);
    ChainLinks(parent.list, null, kids, parent);
    PendingEach(kids, was);
    TopsPending(kids, was);
    Allocated(kids);
    var menu := parent.list;
    ghost var i := 0;
    while menu != null
      invariant 0 <= i <= |kids| && menu == if i < |kids| then kids[i].node else null
      invariant forall j :: 0 <= j < i ==> Narrowed(kids[j].node, parent.dep, was, modules)
      invariant PendingInside(kids, was)
      invariant forall j :: i <= j < |kids| ==>
                kids[j].node.dep == was(kids[j].node).dep
                && kids[j].node.visible == was(kids[j].node).visible
      decreases |kids| - i
    {
      NarrowNode(menu, parent.dep, modules, was);
      assert i < |kids| - 1 ==> kids[i].node.next == kids[i + 1].node;
      menu := menu.next;
      i := i + 1;
    }
  }

  lemma {:induction false} TopsPending(ts: seq<Tree>, was: Menu -> Conds)
    requires Pending(ts, was)
    ensures forall j :: 0 <= j < |ts| ==>
            ts[j].node.dep == was(ts[j].node).dep
            && ts[j].node.visible == was(ts[j].node).visible
  {
    TopsAndBelow(ts);
    assert forall j :: 0 <= j < |ts| ==> ts[j].node in Tops(ts);
  }

  /** One child: its dependency, and its prompt's condition. */
  method NarrowNode(menu: Menu, base: Dep, modules: Sym, ghost was: Menu -> Conds)
    requires menu.dep == was(menu).dep && menu.visible == was(menu).visible
    modifies menu`dep, menu`visible
    ensures Narrowed(menu, base, was, modules)
  {
    menu.dep := Narrow(base, menu.dep, modules);
    if menu.prompted {
      menu.visible := Shown(menu.sym, menu.dep, menu.visible, modules);
    }
  }

  // ----- automatic submenus -----

  /** What the search for a submenu sees of a node. */
  datatype Offer = Offer(sym: Option<Sym>, prompted: bool, dep: Dep, visible: Dep)
  {
    function PromptDep(): Dep { if prompted then visible else None }

    function ElementDep(): Dep { if prompted then visible else dep }

    /** The symbol of this node takes n into its submenu when n comes next. */
    predicate Wants(n: Offer) { sym.Some? && GoesInSubmenu(PromptDep(), sym.value, n.ElementDep()) }
  }

  function OfferOf(n: Menu): Offer
    reads n`dep, n`visible
  {
    Offer(n.sym, n.prompted, n.dep, n.visible)
  }

  ghost function Offers(ts: seq<Tree>): (os: seq<Offer>)
    reads Tops(ts)`dep, Tops(ts)`visible
    ensures |os| == |ts| && forall i :: 0 <= i < |ts| ==> os[i] == OfferOf(ts[i].node)
  {
    if ts == [] then [] else
      TopsRest(ts);
      [OfferOf(ts[0].node)] + Offers(ts[1..])
  }

  lemma {:induction false} TopsRest(ts: seq<Tree>)
    requires ts != []
    ensures Tops(ts[1..]) <= Tops(ts) && ts[0].node in Tops(ts)
  {
    forall n | n in Tops(ts[1..]) ensures n in Tops(ts) {
      var i :| 0 <= i < |ts[1..]| && ts[1..][i].node == n;
      assert ts[i + 1].node == n;
    }
  }

  /** Each of the first k siblings was taken by p, or by one taken before it. */
  ghost predicate Chosen(p: Offer, os: seq<Offer>, k: nat) {
    k <= |os| && forall i :: 0 <= i < k ==> p.Wants(os[i]) || exists j :: 0 <= j < i && os[j].Wants(os[i])
  }

  lemma {:induction false} ChosenMore(p: Offer, os: seq<Offer>, j: nat, k: nat)
    requires Chosen(p, os, j) && j < |os| && p.Wants(os[j]) && Chosen(os[j], os[j + 1..], k)
    ensures Chosen(p, os, j + 1 + k)
  {
    var rest := os[j + 1..];
    forall i | j < i < j + 1 + k ensures exists m :: 0 <= m < i && os[m].Wants(os[i]) {
      assert rest[i - j - 1] == os[i];
      if !os[j].Wants(os[i]) {
        var m :| 0 <= m < i - j - 1 && rest[m].Wants(rest[i - j - 1]);
        assert rest[m] == os[j + 1 + m];
      }
    }
  }

  lemma {:induction false} ChosenOn(p: Offer, os: seq<Offer>, j: nat, k: nat)
    requires j <= |os| && Chosen(p, os, j) && Chosen(p, os[j..], k)
    ensures Chosen(p, os, j + k)
  {
    var rest := os[j..];
    forall i | j <= i < j + k ensures p.Wants(os[i]) || exists m :: 0 <= m < i && os[m].Wants(os[i]) {
      assert rest[i - j] == os[i];
      if !p.Wants(os[i]) {
        var m :| 0 <= m < i - j && rest[m].Wants(rest[i - j]);
        assert rest[m] == os[j + m];
      }
    }
  }

  /** With nothing taken there is nothing to show. */
  lemma {:induction false} NothingChosen(p: Offer, os: seq<Offer>)
    ensures Chosen(p, os, 0) && (p.sym.None? && os != [] ==> !p.Wants(os[0]))
  {
  }

  // ----- the finalized menu -----

  /** What the search sees of a node once its conditions have been narrowed. */
  function NarrowedOffer(n: Menu, base: Dep, was: Menu -> Conds, modules: Sym): Offer {
    var dep := Narrow(base, was(n).dep, modules);
    Offer(n.sym, n.prompted, dep, if n.prompted then Shown(n.sym, dep, was(n).visible, modules) else was(n).visible)
  }

  ghost function NarrowedOffers(ts: seq<Tree>, base: Dep, was: Menu -> Conds, modules: Sym): (os: seq<Offer>)
    ensures |os| == |ts|
  {
    seq(|ts|, i requires 0 <= i < |ts| => NarrowedOffer(ts[i].node, base, was, modules))
  }

  /**
   What `menu_finalize` hangs below a node with this offer, these children and these later siblings, before
   the flattening; and how many of the siblings it takes for that. The offers are those of the siblings.
   */
  ghost function FinalBelow(p: Offer, kids: seq<Tree>, rest: seq<Tree>, os: seq<Offer>, was: Menu -> Conds,
                            modules: Sym): (r: (seq<Tree>, nat))
    requires |os| == |rest|
    ensures r.1 <= |rest| && (kids != [] || p.sym.None? ==> r.1 == 0)
    decreases |Preorder(kids)| + |Preorder(rest)|, 2
  {
    if kids != [] then (FinalEach(kids, NarrowedOffers(kids, p.dep, was, modules), was, modules), 0)
    else if p.sym.Some? then FinalTaken(p, rest, os, was, modules)
    else ([], 0)
  }

  /** The finalized first sibling, and how many siblings it stands for. */
  ghost function FinalFirst(ts: seq<Tree>, os: seq<Offer>, was: Menu -> Conds, modules: Sym): (r: (Tree, nat))
    requires ts != [] && |os| == |ts|
    ensures 1 <= r.1 <= |ts|
    decreases |Preorder(ts)|, 0
  {
    var below := FinalBelow(os[0], ts[0].kids, ts[1..], os[1..], was, modules);
    (Tree(ts[0].node, Flat(below.0)), 1 + below.1)
  }

  /** The finalized siblings. */
  ghost function FinalEach(ts: seq<Tree>, os: seq<Offer>, was: Menu -> Conds, modules: Sym): seq<Tree>
    requires |os| == |ts|
    decreases |Preorder(ts)|, 1
  {
    if ts == [] then []
    else
      var (t, j) := FinalFirst(ts, os, was, modules);
      DropShrinks(ts, j);
      [t] + FinalEach(ts[j..], os[j..], was, modules)
  }

  /** The finalized siblings up to the first one that p does not want, and how many siblings they stand for. */
  ghost function FinalTaken(p: Offer, ts: seq<Tree>, os: seq<Offer>, was: Menu -> Conds, modules: Sym):
    (r: (seq<Tree>, nat))
    requires |os| == |ts|
    ensures r.1 <= |ts|
    decreases |Preorder(ts)|, 1
  {
    if ts == [] || !p.Wants(os[0]) then ([], 0)
    else
      var (t, j) := FinalFirst(ts, os, was, modules);
      DropShrinks(ts, j);
      var more := FinalTaken(p, ts[j..], os[j..], was, modules);
      ([t] + more.0, j + more.1)
  }

  lemma {:induction false} DropShrinks(ts: seq<Tree>, j: nat)
    requires 1 <= j <= |ts|
    ensures |Preorder(ts[j..])| < |Preorder(ts)|
  {
    assert ts == ts[..j] + ts[j..];
    PreorderConcat(ts[..j], ts[j..]);
  }

  /** The siblings taken are chosen, and the search ends at one that is not wanted. */
  lemma {:induction false} TakenChosen(p: Offer, ts: seq<Tree>, os: seq<Offer>, was: Menu -> Conds, modules: Sym)
    requires |os| == |ts|
    ensures var k := FinalTaken(p, ts, os, was, modules).1;
            Chosen(p, os, k) && (k < |ts| ==> !p.Wants(os[k]))
    decreases |Preorder(ts)|, 1
  {
    hide Offer.Wants, Chosen, FinalTaken, FinalFirst, FinalBelow, FinalEach, Flat, Preorder, Nodes, Below, Tops;
    NothingChosen(p, os);
    TakenStep(p, ts, os, was, modules);
    if ts != [] && p.Wants(os[0]) {
      var j := FinalFirst(ts, os, was, modules).1;
      DropShrinks(ts, j);
      FirstShrinks(ts);
      BelowChosen(os[0], ts[0].kids, ts[1..], os[1..], was, modules);
      TakenChosen(p, ts[j..], os[j..], was, modules);
      ChosenMore(p, os, 0, j - 1);
      ChosenOn(p, os, j, FinalTaken(p, ts[j..], os[j..], was, modules).1);
    }
  }

  lemma {:induction false} TakenStep(p: Offer, ts: seq<Tree>, os: seq<Offer>, was: Menu -> Conds, modules: Sym)
    requires |os| == |ts|
    ensures var k := FinalTaken(p, ts, os, was, modules).1;
            if ts != [] && p.Wants(os[0])
            then var j := FinalFirst(ts, os, was, modules).1;
                 && j == 1 + FinalBelow(os[0], ts[0].kids, ts[1..], os[1..], was, modules).1
                 && k == j + FinalTaken(p, ts[j..], os[j..], was, modules).1
            else k == 0
  {
    hide Offer.Wants, Flat, Preorder;
  }

  lemma {:induction false} FirstShrinks(ts: seq<Tree>)
    requires ts != []
    ensures |Preorder(ts[0].kids)| + |Preorder(ts[1..])| < |Preorder(ts)|
  {
  }

  lemma {:induction false} BelowChosen(p: Offer, kids: seq<Tree>, rest: seq<Tree>, os: seq<Offer>,
                                       was: Menu -> Conds, modules: Sym)
    requires |os| == |rest|
    ensures var k := FinalBelow(p, kids, rest, os, was, modules).1;
            Chosen(p, os, k) && (kids == [] && k < |rest| ==> !p.Wants(os[k]))
    decreases |Preorder(kids)| + |Preorder(rest)|, 2
  {
    hide Offer.Wants, Chosen, FinalTaken, FinalEach, Flat, Preorder;
    NothingChosen(p, os);
    if kids == [] && p.sym.Some? {
      PreorderNone();
      TakenChosen(p, rest, os, was, modules);
    }
  }

  // ----- menu_finalize -----

  /**
   `menu_finalize` on a node with children kids and later siblings rest. It gets the children kids', the first
   k siblings among them, in unchanged preorder; the nodes it was called on are those, once each. Which siblings
   these are, and what each of them takes in turn, is determined by what the siblings offer.
   */
  method Finalize(parent: Menu, modules: Sym, ghost kids: seq<Tree>, ghost rest: seq<Tree>, ghost up: Menu?,
                  ghost was: Menu -> Conds)
    returns (ghost kids': seq<Tree>, ghost k: nat, ghost done: seq<Menu>)
    requires Chain(parent, null, [Tree(parent, kids)] + rest, up) && Deep([Tree(parent, kids)] + rest)
    requires Distinct([Tree(parent, kids)] + rest)
    requires Pending(kids, was) && PendingInside(rest, was)
    modifies Nodes([Tree(parent, kids)] + rest)
    ensures k <= |rest| && (kids != [] || parent.sym.None? ==> k == 0)
    ensures Chain(parent, null, [Tree(parent, kids')] + rest[k..], up) && Deep([Tree(parent, kids')] + rest[k..])
    ensures Preorder(kids') == Preorder(kids) + Preorder(rest[..k]) && done == Preorder([Tree(parent, kids')])
    ensures Tidy(kids')
    ensures Propagated(kids, parent.dep, was, modules)
    ensures PropagatedInside(rest[..k], was, modules) && PendingInside(rest[k..], was)
    ensures OfferOf(parent) == old(OfferOf(parent)) && Offers(rest) == old(Offers(rest))
    ensures Chosen(OfferOf(parent), Offers(rest), k)
    ensures kids == [] && k < |rest| ==> !OfferOf(parent).Wants(OfferOf(rest[k].node))
    ensures kids == [] && parent.sym.Some? && k < |rest| ==>
              !AbsolutelyOn(OfferOf(rest[k].node).ElementDep(), parent.sym.value)
    ensures var below := FinalBelow(old(OfferOf(parent)), kids, rest, old(Offers(rest)), was, modules);
            kids' == Flat(below.0) && k == below.1
    decreases |Preorder([Tree(parent, kids)] + rest)|, 1
  {
    hide Chain, Deep, Distinct, Preorder, Nodes, Below, Tidy, TidyInside, Narrowed, Propagated, PropagatedInside;
    hide Pending, PendingInside, Chosen, Offer.Wants, Offers;
    hide FinalBelow, FinalEach, FinalTaken, FinalFirst, Flat;
    Opened(parent, kids, rest, up);
    ghost var mid;
    mid, k, done := FinalizeBelow(parent, modules, kids, rest, up, was);
    Kept(parent, kids, rest, k, mid);
    SliceNodes(rest, k);
    TopsAndBelow(rest);
    TopsAndBelow(rest[k..]);
    Allocated(kids);
    Allocated(rest);
    kids' := Finish(parent, mid, rest[k..], up);
    done := [parent] + done;
    One(Tree(parent, kids'));
    BelowChosen(OfferOf(parent), kids, rest, Offers(rest), was, modules);
    NotTaken(OfferOf(parent), rest, k);
    if kids == [] {
      NotAbsolute(OfferOf(parent), rest, k);
    }
  }

  /** The two cases of `menu_finalize`: a node with a list, and a symbol without one. */
  method FinalizeBelow(parent: Menu, modules: Sym, ghost kids: seq<Tree>, ghost rest: seq<Tree>, ghost up: Menu?,
                       ghost was: Menu -> Conds)
    returns (ghost mid: seq<Tree>, ghost k: nat, ghost done: seq<Menu>)
    requires Chain(parent, null, [Tree(parent, kids)] + rest, up) && Deep([Tree(parent, kids)] + rest)
    requires Distinct([Tree(parent, kids)] + rest)
    requires Pending(kids, was) && PendingInside(rest, was)
    modifies {parent}`next, {parent}`list, Nodes(kids), Nodes(rest)
    ensures k <= |rest| && (kids != [] || parent.sym.None? ==> k == 0)
    ensures Chain(parent.list, null, mid, parent) && Deep(mid) && TidyInside(mid)
    ensures Preorder(mid) == Preorder(kids) + Preorder(rest[..k]) && done == Preorder(mid)
    ensures parent.parent == up && parent.next == Head(rest[k..], null)
    ensures Chain(Head(rest[k..], null), null, rest[k..], up) && Deep(rest[k..])
    ensures Propagated(kids, parent.dep, was, modules)
    ensures PropagatedInside(rest[..k], was, modules) && PendingInside(rest[k..], was)
    ensures Offers(rest) == old(Offers(rest))
    ensures (mid, k) == FinalBelow(OfferOf(parent), kids, rest, Offers(rest), was, modules)
    decreases |Preorder([Tree(parent, kids)] + rest)|, 0
  {
    hide Chain, Deep, Distinct, Preorder, Nodes, Below, Tidy, TidyInside, Narrowed, Propagated, PropagatedInside;
    hide Pending, PendingInside, Offer.Wants, Offers;
    hide FinalEach, FinalTaken, Flat;
    Opened(parent, kids, rest, up);
    Allocated(rest);
    TopsAndBelow(rest);
    NothingYet(parent, rest, was, modules);
    assert rest[0..] == rest;
    if parent.list != null {
      k := 0;
      mid, done := FinalizeList(parent, modules, kids, was);
    } else if parent.sym.Some? {
      mid, k, done := AutoSubmenu(parent, modules, rest, up, was);
    } else {
      mid, k, done := [], 0, [];
    }
    NothingYet(parent, rest, was, modules);
  }

  lemma {:induction false} Kept(parent: Menu, kids: seq<Tree>, rest: seq<Tree>, k: nat, mid: seq<Tree>)
    requires Distinct([Tree(parent, kids)] + rest) && k <= |rest|
    requires Preorder(mid) == Preorder(kids) + Preorder(rest[..k])
    ensures Distinct([Tree(parent, mid)]) && Nodes(mid) !! Nodes(rest[k..]) && parent !in Nodes(rest[k..])
    ensures Nodes(mid) == Nodes(kids) + Nodes(rest[..k])
  {
    hide Nodes, Preorder, Distinct;
    var a, b := Tree(parent, kids), Tree(parent, mid);
    PreorderConcat([a], rest);
    PreorderConcat(kids, rest[..k]);
    SameNodes(kids + rest[..k], mid);
    One(a);
    One(b);
    assert rest == rest[..k] + rest[k..];
    PreorderConcat(rest[..k], rest[k..]);
    PreorderConcat([b], rest[k..]);
    Associates([parent], Preorder(kids), Preorder(rest[..k]) + Preorder(rest[k..]));
    Associates(Preorder(kids), Preorder(rest[..k]), Preorder(rest[k..]));
    Associates([parent], Preorder(mid), Preorder(rest[k..]));
    SameNodes([a] + rest, [b] + rest[k..]);
    DistinctSplit([b], rest[k..]);
  }

  lemma {:induction false} Opened(parent: Menu, kids: seq<Tree>, rest: seq<Tree>, up: Menu?)
    requires Chain(parent, null, [Tree(parent, kids)] + rest, up) && Deep([Tree(parent, kids)] + rest)
    requires Distinct([Tree(parent, kids)] + rest)
    ensures parent.parent == up && parent.next == Head(rest, null) && (parent.list == null <==> kids == [])
    ensures Chain(parent.list, null, kids, parent) && Deep(kids)
    ensures Chain(Head(rest, null), null, rest, up) && Deep(rest)
    ensures Distinct([Tree(parent, kids)]) && Distinct(kids) && Distinct(rest)
    ensures parent !in Nodes(kids) && parent !in Nodes(rest) && Nodes(kids) !! Nodes(rest)
    ensures Nodes([Tree(parent, kids)] + rest) == {parent} + Nodes(kids) + Nodes(rest)
    ensures |Preorder(kids)| < |Preorder([Tree(parent, kids)] + rest)|
    ensures |Preorder(rest)| < |Preorder([Tree(parent, kids)] + rest)|
  {
    hide Chain, Deep, Distinct, Preorder, Nodes, Below;
    var t := Tree(parent, kids);
    Taken([], t, rest) by { assert [] + ([t] + rest) == [t] + rest; }
    DistinctSplit([t], rest);
    DeepConcat([t], rest);
    DeepOne(t);
    ChainConcat(parent, null, [t], rest, up);
    ChainLinks(parent, Head(rest, null), [t], up);
    ChainLinks(parent.list, null, kids, parent);
  }

  lemma {:induction false} NothingYet(parent: Menu, rest: seq<Tree>, was: Menu -> Conds, modules: Sym)
    ensures PropagatedInside(rest[..0], was, modules) && Preorder(rest[..0]) == [] && Preorder([]) == []
    ensures Propagated([], parent.dep, was, modules)
    ensures Deep([]) && Chain(null, null, [], parent) && TidyInside([])
  {
  }

  /** The last part of `menu_finalize`: the children are flattened. */
  method Finish(parent: Menu, ghost mid: seq<Tree>, ghost rest: seq<Tree>, ghost up: Menu?)
    returns (ghost kids': seq<Tree>)
    requires Chain(parent.list, null, mid, parent) && Deep(mid) && TidyInside(mid) && Distinct([Tree(parent, mid)])
    requires parent.parent == up && parent.next == Head(rest, null)
    requires Chain(Head(rest, null), null, rest, up) && Deep(rest)
    requires Nodes(mid) !! Nodes(rest) && parent !in Nodes(rest)
    modifies Nodes(mid)`next, Nodes(mid)`list, Nodes(mid)`parent
    ensures Chain(parent, null, [Tree(parent, kids')] + rest, up) && Deep([Tree(parent, kids')] + rest)
    ensures Tidy(kids') && Preorder(kids') == Preorder(mid) && kids' == Flat(mid)
  {
    hide Chain, Deep, Distinct, Preorder, Nodes, Below, Tidy, TidyInside, Flat;
    TopsAndBelow(rest);
    Allocated(rest);
    DistinctOne(Tree(parent, mid));
    kids' := Flatten(parent, mid);
    ghost var t := Tree(parent, kids');
    DeepOne(t);
    DeepConcat([t], rest);
    LastNext(parent, Head(rest, null), [t], up);
    ChainConcat(parent, null, [t], rest, up);
  }

  /** `menu_finalize` for a node with a list: the conditions of the children, then the children themselves. */
  method FinalizeList(parent: Menu, modules: Sym, ghost kids: seq<Tree>, ghost was: Menu -> Conds)
    returns (ghost kids': seq<Tree>, ghost done: seq<Menu>)
    requires Chain(parent.list, null, kids, parent) && Deep(kids) && Distinct([Tree(parent, kids)])
    requires Pending(kids, was)
    modifies Nodes(kids)
    ensures Chain(parent.list, null, kids', parent) && Deep(kids') && TidyInside(kids')
    ensures Preorder(kids') == Preorder(kids) && done == Preorder(kids)
    ensures Propagated(kids, parent.dep, was, modules)
    ensures kids' == FinalEach(kids, NarrowedOffers(kids, parent.dep, was, modules), was, modules)
    decreases |Preorder(kids)|, 5
  {
    hide Chain, Deep, Distinct, Preorder, Nodes, Below, TidyInside, Narrowed, Propagated, PropagatedInside, Pending;
    hide PendingInside, TopsNarrowed;
    hide FinalEach, Offers, NarrowedOffers;
    DistinctOne(Tree(parent, kids));
    TopsAndBelow(kids);
    Allocated(kids);
    Propagate(parent, modules, kids, was);
    OffersNarrowed(kids, parent.dep, was, modules);
    kids', done := FinalizeKids(parent, modules, kids, was);
    AllPropagated(kids, parent.dep, was, modules);
  }

  lemma {:induction false} OffersNarrowed(ts: seq<Tree>, base: Dep, was: Menu -> Conds, modules: Sym)
    requires TopsNarrowed(ts, base, was, modules)
    ensures Offers(ts) == NarrowedOffers(ts, base, was, modules)
  {
    hide Offers;
    forall i | 0 <= i < |ts| ensures Offers(ts)[i] == NarrowedOffer(ts[i].node, base, was, modules) {
      assert Narrowed(ts[i].node, base, was, modules);
    }
  }

  /** The second loop over the children. */
  method FinalizeKids(parent: Menu, modules: Sym, ghost kids: seq<Tree>, ghost was: Menu -> Conds)
    returns (ghost kids': seq<Tree>, ghost done: seq<Menu>)
    requires Chain(parent.list, null, kids, parent) && Deep(kids) && Distinct(kids) && parent !in Nodes(kids)
    requires TopsNarrowed(kids, parent.dep, was, modules) && PendingInside(kids, was)
    modifies Nodes(kids)
    ensures Chain(parent.list, null, kids', parent) && Deep(kids') && TidyInside(kids')
    ensures Preorder(kids') == Preorder(kids) && done == Preorder(kids)
    ensures TopsNarrowed(kids, parent.dep, was, modules) && PropagatedInside(kids, was, modules)
    ensures kids' == FinalEach(kids, old(Offers(kids)), was, modules)
    decreases |Preorder(kids)|, 4
  {
    hide Chain, Deep, Distinct, Preorder, Nodes, Below, Tidy, TidyInside, Narrowed, Propagated, PropagatedInside;
    hide Pending, PendingInside, Offer.Wants, Offers;
    hide FinalFirst, FinalEach;
    var menu := parent.list;
    ghost var j := 0;
    ghost var os := Offers(kids);
    kids', done := [], [];
    assert kids[0..] == kids && os[0..] == os && [] + FinalEach(kids, os, was, modules)
           == FinalEach(kids, os, was, modules);
    Unstarted(parent.list, kids, parent, parent, was, modules);
    while menu != null
      invariant j <= |kids| && Midway(parent.list, menu, kids', kids, j, parent, parent, was, modules)
      invariant Offers(kids) == os
      invariant kids' + FinalEach(kids[j..], os[j..], was, modules) == FinalEach(kids, os, was, modules)
      invariant done == Preorder(kids') && TopsNarrowed(kids, parent.dep, was, modules)
      decreases |kids| - j
    {
      SliceNodes(kids, j);
      ghost var t, j', d;
      t, j', d := FinalizeNext(menu, parent, modules, kids, j, kids', was);
      EachStep(kids', kids, os, j, t, j', was, modules);
      done := done + d;
      PreorderConcat(kids', [t]);
      kids', j := kids' + [t], j';
      menu := menu.next;
    }
    EachEnd(kids', was, modules);
    Arrived(parent.list, kids', kids, j, parent, parent, was, modules);
  }

  lemma {:induction false} EachStep(before: seq<Tree>, ts: seq<Tree>, os: seq<Offer>, j: nat, t: Tree, j': nat,
                                    was: Menu -> Conds, modules: Sym)
    requires j < j' <= |ts| == |os| && (t, j' - j) == FinalFirst(ts[j..], os[j..], was, modules)
    ensures before + [t] + FinalEach(ts[j'..], os[j'..], was, modules)
         == before + FinalEach(ts[j..], os[j..], was, modules)
  {
    hide FinalFirst;
    assert ts[j..][j' - j..] == ts[j'..] && os[j..][j' - j..] == os[j'..];
  }

  lemma {:induction false} EachEnd(before: seq<Tree>, was: Menu -> Conds, modules: Sym)
    ensures before + FinalEach([], [], was, modules) == before
  {
  }

  /** One child, with the siblings it takes. */
  method FinalizeNext(menu: Menu, parent: Menu, modules: Sym, ghost kids: seq<Tree>, ghost j: nat,
                      ghost before: seq<Tree>, ghost was: Menu -> Conds)
    returns (ghost t: Tree, ghost j': nat, ghost done: seq<Menu>)
    requires Distinct(kids) && j <= |kids| && parent !in Nodes(kids)
    requires Midway(parent.list, menu, before, kids, j, parent, parent, was, modules)
    requires TopsNarrowed(kids, parent.dep, was, modules)
    modifies Nodes(kids[j..])
    ensures t.node == menu && j < j' <= |kids| && done == Preorder([t])
    ensures Midway(parent.list, menu.next, before + [t], kids, j', parent, parent, was, modules)
    ensures TopsNarrowed(kids, parent.dep, was, modules)
    ensures Offers(kids) == old(Offers(kids))
    ensures (t, j' - j) == FinalFirst(kids[j..], old(Offers(kids))[j..], was, modules)
    decreases |Preorder(kids[j..])|, 3
  {
    hide Chain, Deep, Distinct, Preorder, Nodes, Below, Tidy, TidyInside, Propagated, PropagatedInside, Pending;
    hide PendingInside, Offer.Wants, Offers;
    hide FinalFirst;
    SliceNodes(kids, j);
    t, j', done := FinalizeAt(menu, modules, kids, j, parent.list, before, parent, parent, was);
    forall i | 0 <= i < |kids| ensures Narrowed(kids[i].node, parent.dep, was, modules) {
      assert old(Narrowed(kids[i].node, parent.dep, was, modules));
      assert Offers(kids)[i] == old(Offers(kids)[i]);
    }
    Advanced(parent.list, menu, before, t, kids, j', parent, was, modules);
  }

  /**
   Between two rounds of a loop over siblings: those before j have been finalized, and now hang in a chain
   from first on; the others are as they were.
   */
  ghost predicate Midway(first: Menu?, menu: Menu?, before: seq<Tree>, ts: seq<Tree>, j: nat, par: Menu, up: Menu?,
                         was: Menu -> Conds, modules: Sym)
    requires j <= |ts|
    reads Nodes(before), Nodes(ts)
  {
    TopsAndBelow(before);
    TopsAndBelow(ts[j..]);
    SliceNodes(ts, j);
    && Chain(first, menu, before, par) && Deep(before) && TidyInside(before) && Preorder(before) == Preorder(ts[..j])
    && Chain(menu, null, ts[j..], up) && Deep(ts[j..])
    && PropagatedInside(ts[..j], was, modules) && PendingInside(ts[j..], was)
  }

  lemma {:induction false} SliceNodes(ts: seq<Tree>, j: nat)
    requires j <= |ts|
    ensures Nodes(ts) == Nodes(ts[..j]) + Nodes(ts[j..]) && |Preorder(ts[j..])| <= |Preorder(ts)|
  {
    assert ts == ts[..j] + ts[j..];
    PreorderConcat(ts[..j], ts[j..]);
  }

  lemma {:induction false} Unstarted(first: Menu?, ts: seq<Tree>, par: Menu, up: Menu?, was: Menu -> Conds,
                                     modules: Sym)
    requires Chain(first, null, ts, up) && Deep(ts) && PendingInside(ts, was)
    ensures Midway(first, first, [], ts, 0, par, up, was, modules) && Preorder([]) == []
  {
    assert ts[0..] == ts;
    assert ts[..0] == [];
  }

  lemma {:induction false} Arrived(first: Menu?, before: seq<Tree>, ts: seq<Tree>, j: nat, par: Menu, up: Menu?,
                                   was: Menu -> Conds, modules: Sym)
    requires j <= |ts| && Midway(first, null, before, ts, j, par, up, was, modules)
    ensures Chain(first, null, before, par) && Deep(before) && TidyInside(before)
    ensures j == |ts| && Preorder(before) == Preorder(ts) && PropagatedInside(ts, was, modules)
  {
    ChainLinks(null, null, ts[j..], up);
    assert ts[..|ts|] == ts;
  }

  lemma {:induction false} Advanced(first: Menu?, menu: Menu, before: seq<Tree>, t: Tree, ts: seq<Tree>, j: nat,
                                    par: Menu, was: Menu -> Conds, modules: Sym)
    requires j <= |ts| && t.node == menu && Chain(first, menu, before, par) && Deep(before) && TidyInside(before)
    requires Tidy(t.kids)
    requires Preorder(before + [t]) == Preorder(ts[..j])
    requires Chain(menu, null, [t] + ts[j..], par) && Deep([t] + ts[j..])
    requires PropagatedInside(ts[..j], was, modules) && PendingInside(ts[j..], was)
    ensures Midway(first, menu.next, before + [t], ts, j, par, par, was, modules)
  {
    hide Deep, Preorder, Nodes, Below, Tidy, PropagatedInside, PendingInside;
    var after := Head(ts[j..], null);
    ChainConcat(menu, null, [t], ts[j..], par);
    ChainLinks(menu, after, [t], par);
    ChainConcat(first, after, before, [t], par);
    DeepConcat([t], ts[j..]);
    DeepConcat(before, [t]);
  }

  /** One recursive call, on sibling j: it finalizes that one and those it takes. */
  method FinalizeAt(menu: Menu, modules: Sym, ghost ts: seq<Tree>, ghost j: nat, ghost first: Menu?,
                    ghost before: seq<Tree>, ghost par: Menu, ghost up: Menu?, ghost was: Menu -> Conds)
    returns (ghost t: Tree, ghost j': nat, ghost done: seq<Menu>)
    requires Distinct(ts) && j <= |ts| && Midway(first, menu, before, ts, j, par, up, was, modules)
    modifies Nodes(ts[j..])
    ensures t.node == menu && j < j' <= |ts| && menu == ts[j].node && done == Preorder([t])
    ensures Chain(first, menu, before, par) && Deep(before) && TidyInside(before) && Tidy(t.kids)
    ensures Preorder(before + [t]) == Preorder(ts[..j'])
    ensures Chain(menu, null, [t] + ts[j'..], up) && Deep([t] + ts[j'..])
    ensures PropagatedInside(ts[..j'], was, modules) && PendingInside(ts[j'..], was)
    ensures Offers(ts) == old(Offers(ts))
    ensures (t, j' - j) == FinalFirst(ts[j..], old(Offers(ts))[j..], was, modules)
    decreases |Preorder(ts[j..])|, 2
  {
    hide Chain, Deep, Distinct, Preorder, Nodes, Below, Tidy, TidyInside, Narrowed, Propagated, PropagatedInside;
    hide Pending, PendingInside, Offer.Wants, Offers;
    hide FinalBelow, FinalFirst, Flat;
    Ready(menu, ts, j, first, before, par, up, was, modules);
    ghost var t0, rest := ts[j], ts[j + 1..];
    Allocated(before);
    Allocated(ts[..j]);
    OffersSlices(ts, j);
    ghost var os := Offers(ts);
    ghost var kids', k;
    kids', k, done := Finalize(menu, modules, t0.kids, rest, up, was);
    t := Tree(menu, kids');
    j' := j + 1 + k;
    assert rest[k..] == ts[j'..];
    InsideOne(t0, was, modules);
    Joined(ts, j, k, was, modules);
    JoinedPreorder(before, t0, t, ts, j, k);
    JoinedOffers(ts, j, os);
    FirstOf(ts, os, j, was, modules);
  }

  lemma {:induction false} FirstOf(ts: seq<Tree>, os: seq<Offer>, j: nat, was: Menu -> Conds, modules: Sym)
    requires j < |ts| == |os|
    ensures var below := FinalBelow(os[j], ts[j].kids, ts[j + 1..], os[j + 1..], was, modules);
            FinalFirst(ts[j..], os[j..], was, modules) == (Tree(ts[j].node, Flat(below.0)), 1 + below.1)
  {
    hide FinalBelow, Flat;
    assert ts[j..][1..] == ts[j + 1..] && os[j..][1..] == os[j + 1..];
  }

  /** The recursive call is in order, and leaves what has been finalized alone. */
  lemma {:induction false} Ready(menu: Menu?, ts: seq<Tree>, j: nat, first: Menu?, before: seq<Tree>, par: Menu,
                                 up: Menu?, was: Menu -> Conds, modules: Sym)
    requires Distinct(ts) && j <= |ts| && menu != null && Midway(first, menu, before, ts, j, par, up, was, modules)
    ensures j < |ts| && ts[j].node == menu && ts[j..] == [ts[j]] + ts[j + 1..]
    ensures Distinct(ts[j..]) && Pending(ts[j].kids, was) && PendingInside(ts[j + 1..], was)
    ensures Nodes(before) == Nodes(ts[..j]) && Nodes(before) !! Nodes(ts[j..])
    ensures Tops(before) <= Nodes(before) && Below(before) <= Nodes(before) && Tops(ts[..j]) <= Nodes(ts[..j])
  {
    hide Chain, Deep, Distinct, Preorder, Nodes, Below, TidyInside, PropagatedInside, Pending, PendingInside;
    ChainLinks(menu, null, ts[j..], up);
    assert ts[j..] == [ts[j]] + ts[j + 1..] && ts == ts[..j] + ts[j..];
    DistinctSplit(ts[..j], ts[j..]);
    SameNodes(before, ts[..j]);
    TopsAndBelow(before);
    TopsAndBelow(ts[..j]);
    PendingConcat([ts[j]], ts[j + 1..], was);
    InsideOne(ts[j], was, modules);
  }

  lemma {:induction false} JoinedOffers(ts: seq<Tree>, j: nat, os: seq<Offer>)
    requires j < |ts| && |os| == |ts|
    requires Offers(ts[..j]) == os[..j] && OfferOf(ts[j].node) == os[j] && Offers(ts[j + 1..]) == os[j + 1..]
    ensures Offers(ts) == os && Offers(ts)[j + 1..] == Offers(ts[j + 1..])
  {
    forall i | 0 <= i < |ts| ensures Offers(ts)[i] == os[i] {
      if i < j {
        assert ts[..j][i] == ts[i] && Offers(ts[..j])[i] == os[i];
      } else if i > j {
        assert ts[j + 1..][i - j - 1] == ts[i] && Offers(ts[j + 1..])[i - j - 1] == os[i];
      }
    }
  }

  lemma {:induction false} OffersSlices(ts: seq<Tree>, j: nat)
    requires j < |ts|
    ensures Offers(ts[..j]) == Offers(ts)[..j] && Offers(ts[j + 1..]) == Offers(ts)[j + 1..]
  {
    hide Offers;
  }

  lemma {:induction false} Joined(ts: seq<Tree>, j: nat, k: nat, was: Menu -> Conds, modules: Sym)
    requires j < |ts| && k <= |ts[j + 1..]|
    requires PropagatedInside(ts[..j], was, modules) && PropagatedInside([ts[j]], was, modules)
    requires PropagatedInside(ts[j + 1..][..k], was, modules)
    ensures PropagatedInside(ts[..j + 1 + k], was, modules)
  {
    hide PropagatedInside;
    InsideConcat(ts[..j], [ts[j]], was, modules);
    InsideConcat(ts[..j] + [ts[j]], ts[j + 1..][..k], was, modules);
    Middle(ts, j, k);
  }

  lemma {:induction false} JoinedPreorder(before: seq<Tree>, t0: Tree, t: Tree, ts: seq<Tree>, j: nat, k: nat)
    requires j < |ts| && k <= |ts[j + 1..]| && t0 == ts[j] && t.node == t0.node
    requires Preorder(before) == Preorder(ts[..j]) && Preorder(t.kids) == Preorder(t0.kids) + Preorder(ts[j + 1..][..k])
    ensures Preorder(before + [t]) == Preorder(ts[..j + 1 + k])
  {
    hide Preorder;
    var more := ts[j + 1..][..k];
    PreorderConcat(before, [t]);
    One(t);
    One(t0);
    PreorderConcat(ts[..j], [t0]);
    PreorderConcat(ts[..j] + [t0], more);
    Middle(ts, j, k);
    Associates([t.node], Preorder(t0.kids), Preorder(more));
    Associates(Preorder(before), [t.node] + Preorder(t0.kids), Preorder(more));
  }

  /** The search for an automatic submenu below a symbol without children. */
  method AutoSubmenu(parent: Menu, modules: Sym, ghost rest: seq<Tree>, ghost up: Menu?, ghost was: Menu -> Conds)
    returns (ghost mid: seq<Tree>, ghost k: nat, ghost done: seq<Menu>)
    requires parent.sym.Some? && parent.list == null && parent.parent == up && parent.next == Head(rest, null)
    requires Chain(Head(rest, null), null, rest, up) && Deep(rest) && Distinct(rest) && parent !in Nodes(rest)
    requires PendingInside(rest, was)
    modifies {parent}`next, {parent}`list, Nodes(rest)
    ensures k <= |rest|
    ensures Chain(parent.list, null, mid, parent) && Deep(mid) && TidyInside(mid)
    ensures Preorder(mid) == Preorder(rest[..k]) && done == Preorder(mid)
    ensures parent.next == Head(rest[k..], null) && Chain(Head(rest[k..], null), null, rest[k..], up) && Deep(rest[k..])
    ensures PropagatedInside(rest[..k], was, modules) && PendingInside(rest[k..], was)
    ensures Offers(rest) == old(Offers(rest))
    ensures (mid, k) == FinalTaken(OfferOf(parent), rest, Offers(rest), was, modules)
    ensures Chosen(OfferOf(parent), Offers(rest), k)
    ensures k < |rest| ==> !OfferOf(parent).Wants(OfferOf(rest[k].node))
    ensures k < |rest| ==> !AbsolutelyOn(OfferOf(rest[k].node).ElementDep(), parent.sym.value)
    decreases |Preorder(rest)|, 5
  {
    hide Midway, Chain, Deep, Distinct, Preorder, Nodes, Below, Tidy, TidyInside, Narrowed, Propagated;
    hide PropagatedInside, Pending, PendingInside, Chosen, Offer.Wants, Offers;
    hide FinalTaken;
    var menu, last;
    menu, last, mid, k, done := Collect(parent, modules, rest, up, was);
    Collected(parent.next, menu, mid, rest, k, parent, up, was, modules);
    if last != null {
      SliceNodes(rest, k);
      TopsAndBelow(rest);
      TopsAndBelow(rest[k..]);
      TopsAndBelow(mid);
      Allocated(rest);
      assert last in Tops(mid);
      Detach(parent, last, mid, rest[k..], menu, up);
    }
    NothingYet(parent, rest, was, modules);
    TakenChosen(OfferOf(parent), rest, Offers(rest), was, modules);
    NotTaken(OfferOf(parent), rest, k);
    NotAbsolute(OfferOf(parent), rest, k);
  }

  /** The sibling at which the taking ends has no absolute dependency on the symbol. */
  lemma {:induction false} NotAbsolute(p: Offer, rest: seq<Tree>, k: nat)
    requires k < |rest| ==> p.sym.Some? ==> !p.Wants(OfferOf(rest[k].node))
    ensures k < |rest| && p.sym.Some? ==> !AbsolutelyOn(OfferOf(rest[k].node).ElementDep(), p.sym.value)
  {
    hide AbsolutelyOn, GoesInSubmenu;
    if k < |rest| && p.sym.Some? && AbsolutelyOn(OfferOf(rest[k].node).ElementDep(), p.sym.value) {
      AbsoluteGoes(p.PromptDep(), p.sym.value, OfferOf(rest[k].node).ElementDep());
    }
  }

  lemma {:induction false} NotTaken(p: Offer, rest: seq<Tree>, k: nat)
    requires k < |rest| ==> Offers(rest)[k] == OfferOf(rest[k].node)
    ensures k < |rest| ==> p.Wants(Offers(rest)[k]) == p.Wants(OfferOf(rest[k].node))
  {
  }

  /** What is there when the search is over. */
  lemma {:induction false} Collected(first: Menu?, menu: Menu?, mid: seq<Tree>, ts: seq<Tree>, k: nat, par: Menu,
                                     up: Menu?, was: Menu -> Conds, modules: Sym)
    requires k <= |ts| && Distinct(ts) && Midway(first, menu, mid, ts, k, par, up, was, modules)
    ensures menu == Head(ts[k..], null) && (mid == [] ==> first == menu)
    ensures Distinct(mid + ts[k..]) && Nodes(mid) == Nodes(ts[..k])
    ensures Chain(first, menu, mid, par) && Deep(mid) && TidyInside(mid) && Preorder(mid) == Preorder(ts[..k])
    ensures Chain(menu, null, ts[k..], up) && Deep(ts[k..])
    ensures PropagatedInside(ts[..k], was, modules) && PendingInside(ts[k..], was)
  {
    hide Chain, Deep, Distinct, Preorder, Nodes, Below, TidyInside, PropagatedInside, PendingInside;
    ChainLinks(menu, null, ts[k..], up);
    ChainLinks(first, menu, mid, par);
    Halves(mid, ts, k);
  }

  /** The siblings that belong below the symbol, one after the other. */
  method Collect(parent: Menu, modules: Sym, ghost rest: seq<Tree>, ghost up: Menu?, ghost was: Menu -> Conds)
    returns (menu: Menu?, last: Menu?, ghost mid: seq<Tree>, ghost k: nat, ghost done: seq<Menu>)
    requires parent.sym.Some? && parent.list == null && parent.parent == up && parent.next == Head(rest, null)
    requires Chain(Head(rest, null), null, rest, up) && Deep(rest) && Distinct(rest) && parent !in Nodes(rest)
    requires PendingInside(rest, was)
    modifies Nodes(rest)
    ensures k <= |rest| && Midway(parent.next, menu, mid, rest, k, parent, up, was, modules) && done == Preorder(mid)
    ensures last == (if mid == [] then null else mid[|mid| - 1].node) && (mid == [] <==> k == 0)
    ensures Offers(rest) == old(Offers(rest))
    ensures (mid, k) == FinalTaken(OfferOf(parent), rest, Offers(rest), was, modules)
    decreases |Preorder(rest)|, 4
  {
    hide Midway, Chain, Deep, Distinct, Preorder, Nodes, Below, Tidy, TidyInside, Narrowed, Propagated;
    hide PropagatedInside, Pending, PendingInside, Offer.Wants, Offers;
    hide FinalTaken, FinalFirst;
    var offer := OfferOf(parent);
    last := null;
    menu := parent.next;
    k := 0;
    mid, done := [], [];
    Unstarted(menu, rest, parent, up, was, modules);
    ghost var os := Offers(rest);
    assert rest[0..] == rest && os[0..] == os;
    TakenAfter([], 0, FinalTaken(offer, rest, os, was, modules));
    while menu != null && offer.Wants(OfferOf(menu))
      invariant k <= |rest| && Midway(parent.next, menu, mid, rest, k, parent, up, was, modules)
      invariant done == Preorder(mid) && Offers(rest) == os
      invariant After(mid, k, FinalTaken(offer, rest[k..], os[k..], was, modules))
                == FinalTaken(offer, rest, os, was, modules)
      invariant last == if mid == [] then null else mid[|mid| - 1].node
      invariant mid == [] <==> k == 0
      decreases |rest| - k
    {
      SliceNodes(rest, k);
      Ready(menu, rest, k, parent.next, mid, parent, up, was, modules);
      assert offer.Wants(os[k]);
      ghost var t, k', d;
      t, k', d := AbsorbNext(menu, parent, modules, rest, k, mid, up, was);
      TakenOn(mid, rest, os, k, offer, t, k', was, modules);
      done := done + d;
      PreorderConcat(mid, [t]);
      mid, k := mid + [t], k';
      last := menu;
      menu := menu.next;
    }
    Collected(parent.next, menu, mid, rest, k, parent, up, was, modules);
    assert k < |rest| ==> os[k] == OfferOf(menu) by { assert k < |rest| ==> rest[k..][0] == rest[k]; }
    TakenEnd(rest, os, k, offer, was, modules);
    TakenAfter(mid, k, FinalTaken(offer, rest[k..], os[k..], was, modules));
  }

  lemma {:induction false} TakenEnd(ts: seq<Tree>, os: seq<Offer>, k: nat, p: Offer, was: Menu -> Conds, modules: Sym)
    requires k <= |ts| == |os| && (k < |ts| ==> !p.Wants(os[k]))
    ensures FinalTaken(p, ts[k..], os[k..], was, modules) == ([], 0)
  {
    hide Offer.Wants;
  }

  /** More siblings behind those taken so far. */
  ghost function After(mid: seq<Tree>, k: nat, more: (seq<Tree>, nat)): (seq<Tree>, nat) { (mid + more.0, k + more.1) }

  lemma {:induction false} TakenAfter(mid: seq<Tree>, k: nat, more: (seq<Tree>, nat))
    ensures After([], 0, more) == more && After(mid, k, ([], 0)) == (mid, k)
  {
    assert [] + more.0 == more.0 && mid + [] == mid;
  }

  lemma {:induction false} TakenOn(mid: seq<Tree>, ts: seq<Tree>, os: seq<Offer>, k: nat, p: Offer, t: Tree, k': nat,
                                   was: Menu -> Conds, modules: Sym)
    requires k < k' <= |ts| == |os| && p.Wants(os[k]) && (t, k' - k) == FinalFirst(ts[k..], os[k..], was, modules)
    ensures After(mid + [t], k', FinalTaken(p, ts[k'..], os[k'..], was, modules))
         == After(mid, k, FinalTaken(p, ts[k..], os[k..], was, modules))
  {
    hide FinalFirst, Offer.Wants;
    assert ts[k..][k' - k..] == ts[k'..] && os[k..][k' - k..] == os[k'..];
    var more := FinalTaken(p, ts[k'..], os[k'..], was, modules);
    assert mid + [t] + more.0 == mid + ([t] + more.0);
  }

  /** One sibling that belongs into the submenu: finalized where it is, then given its new parent. */
  method AbsorbNext(menu: Menu, parent: Menu, modules: Sym, ghost rest: seq<Tree>, ghost k: nat, ghost mid: seq<Tree>,
                    ghost up: Menu?, ghost was: Menu -> Conds)
    returns (ghost t: Tree, ghost k': nat, ghost done: seq<Menu>)
    requires Distinct(rest) && k <= |rest| && parent !in Nodes(rest)
    requires Midway(parent.next, menu, mid, rest, k, parent, up, was, modules)
    requires OfferOf(parent).Wants(OfferOf(menu))
    modifies Nodes(rest[k..])
    ensures t.node == menu && k < k' <= |rest| && done == Preorder([t])
    ensures Midway(parent.next, menu.next, mid + [t], rest, k', parent, up, was, modules)
    ensures Offers(rest) == old(Offers(rest))
    ensures (t, k' - k) == FinalFirst(rest[k..], Offers(rest)[k..], was, modules)
    decreases |Preorder(rest[k..])|, 3
  {
    hide Chain, Deep, Distinct, Preorder, Nodes, Below, Tidy, TidyInside, Narrowed, Propagated, PropagatedInside;
    hide Pending, PendingInside, Offer.Wants, Offers;
    hide FinalFirst;
    SliceNodes(rest, k);
    t, k', done := FinalizeAt(menu, modules, rest, k, parent.next, mid, parent, up, was);
    Halves(mid + [t], rest, k');
    assert mid + [t] + rest[k'..] == mid + ([t] + rest[k'..]);
    TopsAndBelow(rest[k..]);
    assert menu == rest[k..][0].node;
    Allocated(rest);
    SliceNodes(rest, k');
    TopsAndBelow(rest[k'..]);
    Reparent(menu, parent, parent.next, mid, t, rest[k'..], up);
    TidyInsideMore(mid, t);
  }

  lemma {:induction false} TidyInsideMore(ts: seq<Tree>, t: Tree)
    requires TidyInside(ts) && Tidy(t.kids)
    ensures TidyInside(ts + [t])
  {
  }

  /** Another forest with the same nodes in front of the same rest is as distinct. */
  lemma {:induction false} Halves(before: seq<Tree>, ts: seq<Tree>, k: nat)
    requires k <= |ts| && Distinct(ts) && Preorder(before) == Preorder(ts[..k])
    ensures Distinct(before + ts[k..]) && Nodes(before) == Nodes(ts[..k]) && Nodes(ts) == Nodes(before) + Nodes(ts[k..])
  {
    hide Preorder, Nodes, Distinct;
    assert ts == ts[..k] + ts[k..];
    PreorderConcat(ts[..k], ts[k..]);
    PreorderConcat(before, ts[k..]);
    SameNodes(ts, before + ts[k..]);
    SameNodes(before, ts[..k]);
  }

  /** `menu->parent = parent` for a sibling that moves into the submenu. */
  method Reparent(menu: Menu, parent: Menu, ghost first: Menu?, ghost mid: seq<Tree>, ghost t: Tree,
                  ghost rest: seq<Tree>, ghost up: Menu?)
    requires t.node == menu && Chain(first, menu, mid, parent) && Deep(mid)
    requires Chain(menu, null, [t] + rest, up) && Deep([t] + rest) && Distinct(mid + ([t] + rest))
    modifies menu`parent
    ensures Chain(first, menu.next, mid + [t], parent) && Deep(mid + [t])
    ensures Chain(menu.next, null, rest, up) && Deep(rest)
  {
    hide Chain, Deep, Distinct, Preorder, Nodes, Below;
    Taken(mid, t, rest);
    TopsAndBelow(mid);
    TopsAndBelow(rest);
    One(t);
    var after := Head(rest, null);
    ChainConcat(menu, null, [t], rest, up);
    ChainLinks(menu, after, [t], up);
    DeepConcat([t], rest);
    menu.parent := parent;
    LastNext(menu, after, [t], parent);
    ChainConcat(first, after, mid, [t], parent);
    DeepConcat(mid, [t]);
  }

  /** The siblings found become the list of the symbol's node. */
  method Detach(parent: Menu, last: Menu, ghost mid: seq<Tree>, ghost rest: seq<Tree>, ghost menu: Menu?,
                ghost up: Menu?)
    requires mid != [] && last == mid[|mid| - 1].node && Chain(parent.next, menu, mid, parent) && Deep(mid)
    requires Chain(menu, null, rest, up) && Deep(rest) && Distinct(mid + rest) && parent !in Nodes(mid)
    requires parent !in Nodes(rest)
    modifies {parent}`next, {parent}`list, {last}`next
    ensures Chain(parent.list, null, mid, parent) && Deep(mid)
    ensures parent.next == menu && Chain(menu, null, rest, up) && Deep(rest)
  {
    hide Chain, Deep, Distinct, Preorder, Nodes, Below;
    DistinctSplit(mid, rest);
    DistinctTops(mid);
    TopsAndBelow(mid);
    TopsAndBelow(rest);
    ChainLinks(parent.next, menu, mid, parent);
    assert last in Tops(mid);
    parent.list := parent.next;
    parent.next := last.next;
    last.next := null;
    LastNext(parent.list, null, mid, parent);
  }

}