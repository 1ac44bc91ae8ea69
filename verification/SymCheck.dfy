/**
 The search for recursive dependencies between symbols (scripts/config/symbol.c),
 for configurations without choice groups: a depth-first walk that marks symbols
 with two flag bits and keeps a stack of the symbols it is inside of, with the
 expression through which it left each of them.
 */
module SymCheck {
  import opened Basics
  import opened Expr

  datatype PropKind = Prompt | Comment | Menu | Default | Choice | Select | Imply | Range | Definition

  datatype Property = Property(kind: PropKind, visible: Option<Expr>, expr: Option<Expr>)

  /** What a symbol's dependencies are made of; an absent expression is a null pointer. */
  datatype Info = Info(dirDep: Option<Expr>, revDep: Option<Expr>, implied: Option<Expr>, props: seq<Property>)

  type Table = map<Sym, Info>

  function Mentioned(e: Option<Expr>): set<Sym> { if e.None? then {} else Mentions(e.value) }

  // ----- the dependency graph -----

  /** Where a dependency comes from: what `expr` and `prop` of a stack entry say. */
  datatype Place = DirDep | RevDep | ImpliedBy | Visible(prop: nat) | DefaultValue(prop: nat)

  predicate Skipped(p: Property) { p.kind == Choice || p.kind == Select || p.kind == Imply }

  function At(info: Info, p: Place): Option<Expr> {
    match p
    case DirDep => info.dirDep
    case RevDep => info.revDep
    case ImpliedBy => info.implied
    case Visible(k) => if k < |info.props| && !Skipped(info.props[k]) then info.props[k].visible else None
    case DefaultValue(k) => if k < |info.props| && info.props[k].kind == Default then info.props[k].expr else None
  }

  predicate Leads(table: Table, s: Sym, p: Place, t: Sym) { s in table && t in Mentioned(At(table[s], p)) }

  ghost predicate Edge(table: Table, s: Sym, t: Sym) { exists p :: Leads(table, s, p, t) }

  ghost predicate IsCycle(table: Table, path: seq<Sym>) {
    |path| >= 2 && path[0] == path[|path| - 1] && forall i :: 0 <= i < |path| - 1 ==> Edge(table, path[i], path[i + 1])
  }

  ghost predicate Cyclic(table: Table) { exists path :: IsCycle(table, path) }

  /** Every symbol an expression points to exists. */
  ghost predicate Closed(table: Table) { forall s, p, t :: Leads(table, s, p, t) ==> t in table }

  // ----- the stack and what is printed of it -----

  datatype Frame = Frame(sym: Sym, at: Place)

  /** Each entry leads to the next one. */
  predicate Linked(table: Table, stack: seq<Frame>) {
    forall i :: 0 <= i < |stack| - 1 ==> Leads(table, stack[i].sym, stack[i].at, stack[i + 1].sym)
  }

  /** A closed chain of dependencies, each for the reason recorded with it. */
  predicate Loop(table: Table, frames: seq<Frame>) {
    frames != [] && Linked(table, frames)
      && Leads(table, frames[|frames| - 1].sym, frames[|frames| - 1].at, frames[0].sym)
  }

  /** The entries are for different symbols, and these are the set. */
  ghost predicate StackOf(stack: seq<Frame>, syms: set<Sym>) {
    && (forall i, j :: 0 <= i < j < |stack| ==> stack[i].sym != stack[j].sym)
    && (forall i :: 0 <= i < |stack| ==> stack[i].sym in syms)
    && (forall s :: s in syms ==> OnStack(stack, s))
  }

  predicate OnStack(stack: seq<Frame>, s: Sym) { exists i :: 0 <= i < |stack| && stack[i].sym == s }

  lemma {:induction false} LoopIsCycle(table: Table, frames: seq<Frame>)
    requires Loop(table, frames)
    ensures Cyclic(table)
  {
    var path := seq(|frames|, i requires 0 <= i < |frames| => frames[i].sym) + [frames[0].sym];
    forall i | 0 <= i < |path| - 1 ensures Edge(table, path[i], path[i + 1]) {
      assert Leads(table, frames[i].sym, frames[i].at, path[i + 1]);
    }
    assert IsCycle(table, path);
  }

  // ----- the order in which symbols are finished -----

  predicate Precedes(order: seq<Sym>, i: nat, t: Sym) { exists j :: 0 <= j < i && j < |order| && order[j] == t }

  /** Exactly these symbols are finished, each after everything it depends on. */
  ghost predicate Finished(table: Table, order: seq<Sym>, syms: set<Sym>) {
    && (forall i, j :: 0 <= i < j < |order| ==> order[i] != order[j])
    && (forall i :: 0 <= i < |order| ==> order[i] in syms)
    && (forall s :: s in syms ==> Precedes(order, |order|, s))
    && (forall i, t :: 0 <= i < |order| && Edge(table, order[i], t) ==> Precedes(order, i, t))
  }

  lemma {:induction false} FinishOne(table: Table, order: seq<Sym>, syms: set<Sym>, s: Sym)
    requires Finished(table, order, syms) && s !in syms
    requires forall t :: Edge(table, s, t) ==> t in syms
    ensures Finished(table, order + [s], syms + {s})
  {
    var order' := order + [s];
    forall x | x in syms + {s} ensures Precedes(order', |order'|, x) {
      if x == s {
        assert order'[|order|] == s;
      } else {
        var j :| 0 <= j < |order| && order[j] == x;
        assert order'[j] == x;
      }
    }
    forall i, t | 0 <= i < |order'| && Edge(table, order'[i], t) ensures Precedes(order', i, t) {
      if i < |order| {
        assert Precedes(order, i, t);
        var j :| 0 <= j < i && order[j] == t;
        assert order'[j] == t;
      } else {
        assert Precedes(order, |order|, t);
        var j :| 0 <= j < |order| && order[j] == t;
        assert order'[j] == t;
      }
    }
  }

  /** Along a path the positions in the finishing order fall. */
  lemma {:induction false} PathDescends(table: Table, order: seq<Sym>, syms: set<Sym>, path: seq<Sym>, k: nat)
    returns (i: nat)
    requires Finished(table, order, syms) && k < |path| && path[0] in syms
    requires forall n :: 0 <= n < |path| - 1 ==> Edge(table, path[n], path[n + 1])
    ensures i < |order| && order[i] == path[k] && (k > 0 ==> forall n :: 0 <= n <= i ==> order[n] != path[0])
  {
    if k == 0 {
      i :| 0 <= i < |order| && order[i] == path[0];
    } else {
      var j := PathDescends(table, order, syms, path, k - 1);
      assert Edge(table, path[k - 1], path[k]) && Precedes(order, j, path[k]);
      i :| 0 <= i < j && order[i] == path[k];
    }
  }

  lemma {:induction false} FinishedAcyclic(table: Table, order: seq<Sym>, syms: set<Sym>)
    requires Finished(table, order, syms)
    requires forall s, t :: Edge(table, s, t) ==> s in syms
    ensures !Cyclic(table)
  {
    if Cyclic(table) {
      var path :| IsCycle(table, path);
      assert Edge(table, path[0], path[1]);
      var i := PathDescends(table, order, syms, path, |path| - 1);
    }
  }

  lemma {:induction false} Subset(a: set<Sym>, b: set<Sym>)
    requires a <= b
    ensures |a| <= |b| && (a != b ==> |a| < |b|)
    decreases |b|
  {
    if a != {} {
      var x :| x in a;
      Subset(a - {x}, b - {x});
      assert a == a - {x} + {x} && b == b - {x} + {x};
    } else if b != {} {
      assert |b| > 0;
    }
  }

  /** Every place has been looked at, so every dependency has. */
  lemma {:induction false} AllPlaces(table: Table, s: Sym, done: set<Sym>)
    requires s in table
    requires Mentioned(table[s].dirDep) <= done && Mentioned(table[s].revDep) <= done
    requires Mentioned(table[s].implied) <= done
    requires forall k: nat :: k < |table[s].props| ==>
             Mentioned(At(table[s], Visible(k))) <= done
             && Mentioned(At(table[s], DefaultValue(k))) <= done
    ensures forall t :: Edge(table, s, t) ==> t in done
  {
    forall t | Edge(table, s, t) ensures t in done {
      var p :| Leads(table, s, p, t);
      match p {
        case Visible(k) => assert k < |table[s].props|;
        case DefaultValue(k) => assert k < |table[s].props|;
        case _ =>
      }
    }
  }

  /**
   What a part of the walk does to the reports: a result means a new one, and a new one means a result if it
   is an error.
   */
  predicate Grown(isError: bool, before: seq<seq<Frame>>, after: seq<seq<Frame>>, r: Option<Sym>, check: set<Sym>) {
    && before <= after
    && (r.Some? ==> |after| > |before|)
    && (isError && |after| > |before| ==> r.Some?)
    && (!isError && r.Some? ==> r.value in check)
  }

  /**
   SYMBOL_CHECK is set on the symbols on the stack, and on those about to be put there; what is finished is in
   order.
   */
  ghost predicate HoldingOf(table: Table, check: set<Sym>, checked: set<Sym>, stack: seq<Frame>,
                            reports: seq<seq<Frame>>, order: seq<Sym>, extra: set<Sym>) {
    && Closed(table) && check <= checked <= table.Keys
    && extra <= check && StackOf(stack, check - extra) && Linked(table, stack)
    && (forall i :: 0 <= i < |reports| ==> Loop(table, reports[i]))
    && (reports == [] ==> Finished(table, order, checked - check))
  }

  lemma {:induction false} Entered(table: Table, check: set<Sym>, checked: set<Sym>, stack: seq<Frame>,
                                   reports: seq<seq<Frame>>, order: seq<Sym>, s: Sym)
    requires HoldingOf(table, check, checked, stack, reports, order, {}) && s in table && s !in checked
    ensures HoldingOf(table, check + {s}, checked + {s}, stack, reports, order, {s})
    ensures |table.Keys - (checked + {s})| < |table.Keys - checked|
  {
    hide StackOf, Linked, Loop, Finished;
    assert check + {s} - {s} == check - {};
    assert checked + {s} - (check + {s}) == checked - check;
    Subset(table.Keys - (checked + {s}), table.Keys - checked);
  }

  lemma {:induction false} Inserted(table: Table, check: set<Sym>, checked: set<Sym>, stack: seq<Frame>,
                                    reports: seq<seq<Frame>>, order: seq<Sym>, s: Sym)
    requires HoldingOf(table, check, checked, stack, reports, order, {s})
    requires stack != [] ==> Leads(table, stack[|stack| - 1].sym, stack[|stack| - 1].at, s)
    ensures HoldingOf(table, check, checked, stack + [Frame(s, DirDep)], reports, order, {})
  {
    hide Loop, Finished, Leads;
    var stack' := stack + [Frame(s, DirDep)];
    forall x | x in check ensures OnStack(stack', x) {
      if x == s {
        assert stack'[|stack|].sym == s;
      } else {
        assert x in check - {s} && OnStack(stack, x);
        var i :| 0 <= i < |stack| && stack[i].sym == x;
        assert stack'[i].sym == x;
      }
    }
  }

  lemma {:induction false} Removed(table: Table, check: set<Sym>, checked: set<Sym>, stack: seq<Frame>,
                                   reports: seq<seq<Frame>>, order: seq<Sym>)
    requires HoldingOf(table, check, checked, stack, reports, order, {}) && stack != []
    ensures HoldingOf(table, check, checked, stack[..|stack| - 1], reports, order, {stack[|stack| - 1].sym})
  {
    hide Loop, Finished, Leads;
    var n := |stack| - 1;
    forall x | x in check - {stack[n].sym} ensures OnStack(stack[..n], x) {
      assert x in check - {} && OnStack(stack, x);
      var i :| 0 <= i < |stack| && stack[i].sym == x;
      assert stack[..n][i].sym == x;
    }
  }

  lemma {:induction false} Left(table: Table, check: set<Sym>, checked: set<Sym>, stack: seq<Frame>,
                                reports: seq<seq<Frame>>, order: seq<Sym>, s: Sym)
    requires HoldingOf(table, check, checked, stack, reports, order, {s})
    requires reports == [] ==> forall t :: Edge(table, s, t) ==> t in checked - check
    ensures HoldingOf(table, check - {s}, checked, stack, reports, if reports == [] then order + [s] else order, {})
    ensures s in checked - (check - {s})
  {
    hide Loop, StackOf, Linked, Finished, Edge;
    assert check - {s} - {} == check - {s};
    if reports == [] {
      FinishOne(table, order, checked - check, s);
      assert checked - (check - {s}) == checked - check + {s};
    }
  }

  lemma {:induction false} TopIn(table: Table, check: set<Sym>, checked: set<Sym>, stack: seq<Frame>,
                                 reports: seq<seq<Frame>>, order: seq<Sym>, s: Sym)
    requires HoldingOf(table, check, checked, stack, reports, order, {}) && stack != []
    requires Leads(table, stack[|stack| - 1].sym, stack[|stack| - 1].at, s)
    ensures s in table
  {
  }

  lemma {:induction false} NothingMentioned()
    ensures Mentioned(None) == {}
  {
  }

  lemma {:induction false} TopLeadsAll(table: Table, s: Sym, p: Place)
    requires s in table
    ensures forall t :: t in Mentioned(At(table[s], p)) ==> Leads(table, s, p, t)
  {
  }

  lemma {:induction false} TopReplaced(table: Table, stack: seq<Frame>, check: set<Sym>, p: Place)
    requires StackOf(stack, check) && Linked(table, stack) && stack != []
    ensures var n := |stack| - 1; var stack' := stack[n := Frame(stack[n].sym, p)];
            StackOf(stack', check) && Linked(table, stack')
  {
    var n := |stack| - 1;
    var stack' := stack[n := Frame(stack[n].sym, p)];
    forall s | s in check ensures OnStack(stack', s) {
      var i :| 0 <= i < |stack| && stack[i].sym == s;
      assert stack'[i].sym == s;
    }
  }

  class DependencyCheck {
    const table: Table
    const recursiveIsError: bool
    /** The symbols whose SYMBOL_CHECK bit is set. */
    var check: set<Sym>
    /** The symbols whose SYMBOL_CHECKED bit is set. */
    var checked: set<Sym>
    /** The list that ends in `check_top`. */
    var stack: seq<Frame>
    /** The loops that have been printed. */
    var reports: seq<seq<Frame>>
    ghost var order: seq<Sym>

    constructor (table: Table, recursiveIsError: bool)
      requires Closed(table)
      ensures Valid() && stack == [] && check == {} && checked == {} && reports == []
      ensures this.table == table && this.recursiveIsError == recursiveIsError
    {
      this.table, this.recursiveIsError := table, recursiveIsError;
      check, checked, stack, reports, order := {}, {}, [], [], [];
    }

    ghost predicate Holding(extra: set<Sym>)
      reads this
    {
      HoldingOf(table, check, checked, stack, reports, order, extra)
    }

    ghost predicate Valid()
      reads this
    {
      Holding({})
    }

    ghost function Unchecked(): nat
      reads this
    {
      |table.Keys - checked|
    }

    /** The entry on top of the stack depends on s. */
    predicate TopLeads(s: Sym)
      reads this
    {
      stack != [] ==> Leads(table, stack[|stack| - 1].sym, stack[|stack| - 1].at, s)
    }

    /** What every part of the walk leaves behind; r is its result. */
    twostate predicate Walked(new r: Option<Sym>)
      reads this
    {
      && stack == old(stack) && check == old(check) && old(checked) <= checked
      && Grown(recursiveIsError, old(reports), reports, r, check)
    }

    /** `sym_check_print_recursive`: the entries from the symbol's own one up are a loop. */
    method PrintRecursive(s: Sym)
      requires Valid() && s in check && TopLeads(s)
      modifies this`reports
      ensures Valid() && |reports| == |old(reports)| + 1 && old(reports) <= reports
    {
      var i := |stack| - 1;
      while i >= 0
        invariant -1 <= i < |stack|
        invariant forall j :: i < j < |stack| ==> stack[j].sym != s
      {
        if stack[i].sym == s {
          break;
        }
        i := i - 1;
      }
      assert OnStack(stack, s);
      var loop := stack[i..];
      assert Linked(table, loop) by {
        forall j | 0 <= j < |loop| - 1 ensures Leads(table, loop[j].sym, loop[j].at, loop[j + 1].sym) {
          assert loop[j] == stack[i + j] && loop[j + 1] == stack[i + j + 1];
        }
      }
      reports := reports + [loop];
    }

    /** `sym_check_expr_deps` */
    method CheckExprDeps(e: Expr) returns (r: Option<Sym>)
      requires Valid() && stack != [] && forall t :: t in Mentions(e) ==> TopLeads(t)
      modifies this
      ensures Valid() && Walked(r)
      ensures reports == [] ==> Mentions(e) <= checked - check
      decreases Unchecked(), 1, Size(e), 1
    {
      hide HoldingOf, Leads;
      match e {
        case Bin(_, left, right) =>
          r := CheckTwoExprs(left, right);
        case Not(x) =>
          r := CheckExprDeps(x);
        case Comp(_, left, right) =>
          r := CheckTwoSyms(left, right);
        case Symbol(s) =>
          assert s in Mentions(e) && TopLeads(s);
          TopIn(table, check, checked, stack, reports, order, s);
          r := CheckDeps(s);
      }
    }

    /** The two operands of && or ||; the second one only if the first is fine. */
    method CheckTwoExprs(left: Expr, right: Expr) returns (r: Option<Sym>)
      requires Valid() && stack != [] && forall t :: t in Mentions(left) || t in Mentions(right) ==> TopLeads(t)
      modifies this
      ensures Valid() && Walked(r)
      ensures reports == [] ==> Mentions(left) <= checked - check && Mentions(right) <= checked - check
      decreases Unchecked(), 1, Size(left) + Size(right), 0
    {
      hide HoldingOf, Leads, Mentions;
      r := CheckExprDeps(left);
      if r.Some? {
        return;
      }
      UncheckedShrinks(old(checked));
      r := CheckExprDeps(right);
    }

    /** The two symbols of a comparison. */
    method CheckTwoSyms(left: Sym, right: Sym) returns (r: Option<Sym>)
      requires Valid() && stack != [] && TopLeads(left) && TopLeads(right)
      modifies this
      ensures Valid() && Walked(r)
      ensures reports == [] ==> left in checked - check && right in checked - check
      decreases Unchecked(), 1, 0, 0
    {
      hide HoldingOf, Leads;
      TopIn(table, check, checked, stack, reports, order, left);
      TopIn(table, check, checked, stack, reports, order, right);
      r := CheckDeps(left);
      if r.Some? {
        return;
      }
      UncheckedShrinks(old(checked));
      r := CheckDeps(right);
    }

    lemma {:induction false} UncheckedShrinks(before: set<Sym>)
      requires before <= checked
      ensures |table.Keys - checked| <= |table.Keys - before|
    {
      Subset(table.Keys - checked, table.Keys - before);
    }

    /** One expression of the symbol on top of the stack, with the reason set in its entry. */
    method CheckPlace(p: Place, e: Option<Expr>) returns (r: Option<Sym>)
      requires Valid() && stack != [] && stack[|stack| - 1].sym in table && e == At(table[stack[|stack| - 1].sym], p)
      modifies this
      ensures Valid() && check == old(check) && old(checked) <= checked
      ensures stack == old(stack)[|old(stack)| - 1 := Frame(old(stack)[|old(stack)| - 1].sym, p)]
      ensures Grown(recursiveIsError, old(reports), reports, r, check)
      ensures reports == [] ==> Mentioned(e) <= checked - check
      decreases Unchecked(), 2, 0
    {
      hide Leads, Finished, Loop;
      var n := |stack| - 1;
      TopReplaced(table, stack, check, p);
      stack := stack[n := Frame(stack[n].sym, p)];
      r := None;
      if e.Some? {
        TopLeadsAll(table, stack[n].sym, p);
        r := CheckExprDeps(e.value);
      }
    }

    /** `sym_check_sym_deps` */
    method CheckSymDeps(s: Sym) returns (r: Option<Sym>)
      requires Holding({s}) && s in table && TopLeads(s)
      modifies this
      ensures Holding({s}) && Walked(r)
      ensures reports == [] ==> forall t :: Edge(table, s, t) ==> t in checked - check
      decreases Unchecked(), 3, 0
    {
      hide HoldingOf, Leads, Edge;
      Inserted(table, check, checked, stack, reports, order, s);
      stack := stack + [Frame(s, DirDep)];
      r := CheckPlaces(s);
      Removed(table, check, checked, stack, reports, order);
      stack := stack[..|stack| - 1];
    }

    /** Everything a symbol depends on, in the source's order. */
    method CheckPlaces(s: Sym) returns (r: Option<Sym>)
      requires Valid() && s in table && stack != [] && stack[|stack| - 1].sym == s
      modifies this
      ensures Valid() && check == old(check) && old(checked) <= checked
      ensures |stack| == |old(stack)| && stack[..|stack| - 1] == old(stack)[..|stack| - 1]
      ensures stack[|stack| - 1].sym == s
      ensures Grown(recursiveIsError, old(reports), reports, r, check)
      ensures reports == [] ==> forall t :: Edge(table, s, t) ==> t in checked - check
      decreases Unchecked(), 2, 3
    {
      hide HoldingOf, Leads, Mentioned, Edge;
      var info := table[s];
      r := CheckPlace(DirDep, info.dirDep);
      if r.Some? {
        return;
      }
      UncheckedShrinks(old(checked));
      r := CheckPlace(RevDep, info.revDep);
      if r.Some? {
        return;
      }
      UncheckedShrinks(old(checked));
      r := CheckPlace(ImpliedBy, info.implied);
      if r.Some? {
        return;
      }
      UncheckedShrinks(old(checked));
      r := CheckProps(s);
      if reports == [] {
        AllPlaces(table, s, checked - check);
      }
    }

    /** The loop of `sym_check_sym_deps` over the properties. */
    method CheckProps(s: Sym) returns (r: Option<Sym>)
      requires Valid() && s in table && stack != [] && stack[|stack| - 1].sym == s
      modifies this
      ensures Valid() && check == old(check) && old(checked) <= checked
      ensures |stack| == |old(stack)| && stack[..|stack| - 1] == old(stack)[..|stack| - 1]
      ensures stack[|stack| - 1].sym == s
      ensures Grown(recursiveIsError, old(reports), reports, r, check)
      ensures r.None? && reports == [] ==> forall k: nat :: k < |table[s].props| ==>
                Mentioned(At(table[s], Visible(k))) <= checked - check
                  && Mentioned(At(table[s], DefaultValue(k))) <= checked - check
      decreases Unchecked(), 2, 2
    {
      hide HoldingOf, Leads, Mentioned;
      var props := table[s].props;
      r := None;
      var k := 0;
      while k < |props|
        invariant k <= |props|
        invariant Valid() && check == old(check) && old(checked) <= checked
        invariant |stack| == |old(stack)| && stack[..|stack| - 1] == old(stack)[..|stack| - 1]
        invariant stack[|stack| - 1].sym == s
        invariant r.None? && Grown(recursiveIsError, old(reports), reports, r, check)
        invariant reports == [] ==> forall j: nat :: j < k ==>
                    Mentioned(At(table[s], Visible(j))) <= checked - check
                      && Mentioned(At(table[s], DefaultValue(j))) <= checked - check
      {
        UncheckedShrinks(old(checked));
        r := CheckProperty(s, k);
        if r.Some? {
          return;
        }
        k := k + 1;
      }
    }

    /** One property: its visibility, and the value if it is a default. */
    method CheckProperty(s: Sym, k: nat) returns (r: Option<Sym>)
      requires Valid() && s in table && stack != [] && stack[|stack| - 1].sym == s && k < |table[s].props|
      modifies this
      ensures Valid() && check == old(check) && old(checked) <= checked
      ensures |stack| == |old(stack)| && stack[..|stack| - 1] == old(stack)[..|stack| - 1]
      ensures stack[|stack| - 1].sym == s
      ensures Grown(recursiveIsError, old(reports), reports, r, check)
      ensures r.None? && reports == [] ==>
                Mentioned(At(table[s], Visible(k))) <= checked - check
                  && Mentioned(At(table[s], DefaultValue(k))) <= checked - check
      decreases Unchecked(), 2, 1
    {
      hide HoldingOf, Leads, Mentioned;
      var p := table[s].props[k];
      r := None;
      NothingMentioned();
      if Skipped(p) {
        return;
      }
      r := CheckPlace(Visible(k), p.visible);
      if r.Some? || p.kind != Default {
        return;
      }
      UncheckedShrinks(old(checked));
      r := CheckPlace(DefaultValue(k), p.expr);
    }

    /** `sym_check_deps`: null when no recursive dependency is reached from here. */
    method CheckDeps(s: Sym) returns (r: Option<Sym>)
      requires Valid() && s in table && TopLeads(s)
      modifies this
      ensures Valid() && Walked(r)
      ensures reports == [] ==> s in checked - check
      decreases Unchecked(), 0, 0
    {
      hide HoldingOf, Leads;
      if s in check {
        PrintRecursive(s);
        return Some(s);
      }
      if s in checked {
        return None;
      }
      Entered(table, check, checked, stack, reports, order, s);
      check, checked := check + {s}, checked + {s};
      r := CheckSymDeps(s);
      Left(table, check, checked, stack, reports, order, s);
      if reports == [] {
        order := order + [s];
      }
      check := check - {s};
      if !recursiveIsError && r == Some(s) {
        r := None;
      }
    }

    /**
     The sweep over all symbols after parsing. A loop is printed exactly when the dependencies are cyclic,
     whatever `recursive_is_error` says; it counts as an error exactly when that is set as well.
     */
    method Sweep(syms: seq<Sym>) returns (errors: nat)
      requires Valid() && stack == [] && check == {} && reports == []
      requires (forall i :: 0 <= i < |syms| ==> syms[i] in table) && (forall s, t :: Edge(table, s, t) ==> s in syms)
      modifies this
      ensures Valid() && stack == [] && check == {}
      ensures reports != [] <==> Cyclic(table)
      ensures errors > 0 <==> recursiveIsError && Cyclic(table)
    {
      hide HoldingOf, Leads, Edge;
      errors := 0;
      for i := 0 to |syms|
        invariant Valid() && stack == [] && check == {}
        invariant errors > 0 <==> recursiveIsError && reports != []
        invariant reports == [] ==> forall j :: 0 <= j < i ==> syms[j] in checked
      {
        var r := CheckDeps(syms[i]);
        if r.Some? {
          errors := errors + 1;
        }
      }
      Swept(table, checked, stack, reports, order, syms);
    }
  }

  lemma {:induction false} Swept(table: Table, checked: set<Sym>, stack: seq<Frame>, reports: seq<seq<Frame>>,
                                 order: seq<Sym>, syms: seq<Sym>)
    requires HoldingOf(table, {}, checked, stack, reports, order, {})
    requires reports == [] ==> forall j :: 0 <= j < |syms| ==> syms[j] in checked
    requires forall s, t :: Edge(table, s, t) ==> s in syms
    ensures reports != [] <==> Cyclic(table)
  {
    if reports != [] {
      LoopIsCycle(table, reports[0]);
    } else {
      FinishedAcyclic(table, order, checked - {});
    }
  }

  /**
   Without `recursive_is_error` a null result says nothing: a symbol that depends on itself is printed,
   and passes.
   */
  method SelfDependencyPasses(s: Sym) returns (table: Table, errors: nat)
    ensures Closed(table) && Cyclic(table) && errors == 0
  {
    table := map[s := Info(Some(Symbol(s)), None, None, [])];
    assert Leads(table, s, DirDep, s);
    assert Edge(table, s, s);
    assert IsCycle(table, [s, s]);
    var walk := new DependencyCheck(table, false);
    errors := walk.Sweep([s]);
  }
}
