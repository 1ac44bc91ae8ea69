/**
 The simplifier as the source runs it: one tree rewritten in place through its
 slots, and the global counter `trans_count` that drives the loop of
 `expr_eliminate_dups` and that `expr_eq` must put back.
 */
module Simplifier {
  import opened Basics
  import opened Expr
  import opened Equality
  import opened Dups

  lemma {:induction false} SlotOfSlot(t: Expr, b: Path, p: Path, x: Expr)
    requires HasSlot(t, b) && HasSlot(At(t, b), p)
    ensures HasSlot(t, b + p) && At(t, b + p) == At(At(t, b), p)
    ensures Put(t, b + p, x) == Put(t, b, Put(At(t, b), p, x))
  {
    if b == [] {
      assert b + p == p;
    } else {
      assert (b + p)[1..] == b[1..] + p;
      SlotOfSlot(Child(t, b[0]), b[1..], p, x);
    }
  }

  lemma {:induction false} PutTwice(t: Expr, p: Path, x: Expr, y: Expr)
    requires HasSlot(t, p)
    ensures Put(Put(t, p, x), p, y) == Put(t, p, y)
  {
    if p != [] {
      PutTwice(Child(t, p[0]), p[1..], x, y);
    }
  }

  class Simplifier {
    var root: Expr
    var transCount: nat

    constructor (e: Expr, count: nat)
      ensures root == e && transCount == count
    {
      root, transCount := e, count;
    }

    /** `__expr_eliminate_eq`: the two slots come in as e1, e2 and go out as r1, r2. */
    method EliminateEq1(op: Op, e1: Expr, e2: Expr) returns (r1: Expr, r2: Expr)
      modifies this`transCount
      ensures old(transCount) <= transCount
      ensures Pair(r1, r2, transCount - old(transCount)) == ElimEq1(op, e1, e2)
      decreases Size(e1) + Size(e2), if IsOp(op, e1) || IsOp(op, e2) then 0 else 3
    {
      if IsOp(op, e1) {
        var l, m := EliminateEq1(op, e1.left, e2);
        var r;
        r, r2 := EliminateEq1(op, e1.right, m);
        return Bin(op, l, r), r2;
      }
      if IsOp(op, e2) {
        var m, l := EliminateEq1(op, e1, e2.left);
        var r;
        r1, r := EliminateEq1(op, m, e2.right);
        return r1, Bin(op, l, r);
      }
      if e1 == e2 && (e1 == Symbol(SymYes) || e1 == Symbol(SymNo)) {
        return e1, e2;
      }
      var same := Equal(e1, e2);
      if !same {
        return e1, e2;
      }
      transCount := transCount + 1;
      return Neutral(op), Neutral(op);
    }

    /** `expr_eliminate_eq` */
    method EliminateEq(e1: Expr, e2: Expr) returns (r1: Expr, r2: Expr)
      modifies this`transCount
      ensures old(transCount) <= transCount
      ensures Pair(r1, r2, transCount - old(transCount)) == ElimEq(e1, e2)
      decreases Size(e1) + Size(e2), 1
    {
      r1, r2 := e1, e2;
      if r1.Bin? {
        r1, r2 := EliminateEq1(r1.op, r1, r2);
      }
      if r2.Bin? && !IsOp(r2.op, r1) {
        r1, r2 := EliminateEq1(r2.op, r1, r2);
      }
      r1, r2 := ElimYn(r1), ElimYn(r2);
    }

    /** `expr_eq`: whatever the elimination on the copies counted is forgotten again. */
    method Equal(e1: Expr, e2: Expr) returns (res: bool)
      modifies this`transCount
      ensures res == ExprEq(e1, e2) && transCount == old(transCount)
      decreases Size(e1) + Size(e2), 2
    {
      match e1 {
        case Symbol(_) => return e1 == e2;
        case Comp(_, _, _) => return e1 == e2;
        case Not(x) =>
          if !e2.Not? {
            return false;
          }
          res := Equal(x, e2.arg);
        case Bin(op, _, _) =>
          if !IsOp(op, e2) {
            return false;
          }
          var oldCount := transCount;
          var c1, c2 := EliminateEq(e1, e2);
          res := c1.Symbol? && c1 == c2;
          transCount := oldCount;
      }
    }

    /**
     `expr_eliminate_dups1` on two slots below the slot `base`: the subtree at
     `base` becomes what the pass makes of it, and nothing outside is touched.
     */
    method EliminateDups1(op: Op, ep1: Path, ep2: Path, ghost base: Path, ghost p1: Path, ghost p2: Path)
      requires HasSlot(root, base) && OnLevel(op, At(root, base), p1) && OnLevel(op, At(root, base), p2)
      requires ep1 == base + p1 && ep2 == base + p2
      modifies this
      ensures HasSlot(old(root), base)
      ensures var r := Dups1(op, At(old(root), base), p1, p2);
              root == Put(old(root), base, r.tree) && transCount == old(transCount) + r.count
      decreases Size(At(root, base)),
                (OnLevelHasSlot(op, At(root, base), p1); LevelNodes(op, At(At(root, base), p1))),
                (OnLevelHasSlot(op, At(root, base), p2); 1 + LevelNodes(op, At(At(root, base), p2)))
    {
      ghost var t := At(root, base);
      OnLevelHasSlot(op, t, p1);
      OnLevelHasSlot(op, t, p2);
      SlotOfSlot(root, base, p1, At(t, p1));
      SlotOfSlot(root, base, p2, At(t, p2));
      if IsOp(op, At(root, ep1)) {
        DescendFirst(op, ep1, ep2, base, p1, p2);
      } else if IsOp(op, At(root, ep2)) {
        DescendSecond(op, ep1, ep2, base, p1, p2);
      } else if ep1 == ep2 {
        assert p1 == ep1[|base|..] == p2;
        PutBack(root, base);
      } else {
        assert p1 != p2;
        JoinLeaves(op, ep1, ep2, base, p1, p2);
      }
    }

    method DescendFirst(op: Op, ep1: Path, ep2: Path, ghost base: Path, ghost p1: Path, ghost p2: Path)
      requires HasSlot(root, base) && OnLevel(op, At(root, base), p1) && OnLevel(op, At(root, base), p2)
      requires HasSlot(At(root, base), p1) && HasSlot(At(root, base), p2)
      requires IsOp(op, At(At(root, base), p1))
      requires ep1 == base + p1 && ep2 == base + p2
      modifies this
      ensures HasSlot(old(root), base)
      ensures var r := Dups1(op, At(old(root), base), p1, p2);
              root == Put(old(root), base, r.tree) && transCount == old(transCount) + r.count
      decreases Size(At(root, base)), LevelNodes(op, At(At(root, base), p1)),
                1 + LevelNodes(op, At(At(root, base), p2)), 0
    {
      ghost var t := At(root, base);
      ghost var a, b := Descend1(op, t, p1, p2);
      PutBack(root, base);
      PutTwice(root, base, a.tree, b.tree);
      assert base + (p1 + [false]) == ep1 + [false] && base + (p1 + [true]) == ep1 + [true];
      EliminateDups1(op, ep1 + [false], ep2, base, p1 + [false], p2);
      assert root == Put(old(root), base, a.tree) && At(root, base) == a.tree;
      EliminateDups1(op, ep1 + [true], ep2, base, p1 + [true], p2);
    }

    method DescendSecond(op: Op, ep1: Path, ep2: Path, ghost base: Path, ghost p1: Path, ghost p2: Path)
      requires HasSlot(root, base) && OnLevel(op, At(root, base), p1) && OnLevel(op, At(root, base), p2)
      requires HasSlot(At(root, base), p1) && HasSlot(At(root, base), p2)
      requires !IsOp(op, At(At(root, base), p1)) && IsOp(op, At(At(root, base), p2))
      requires ep1 == base + p1 && ep2 == base + p2
      modifies this
      ensures HasSlot(old(root), base)
      ensures var r := Dups1(op, At(old(root), base), p1, p2);
              root == Put(old(root), base, r.tree) && transCount == old(transCount) + r.count
      decreases Size(At(root, base)), LevelNodes(op, At(At(root, base), p1)),
                1 + LevelNodes(op, At(At(root, base), p2)), 0
    {
      ghost var t := At(root, base);
      ghost var a, b := Descend2(op, t, p1, p2);
      PutBack(root, base);
      PutTwice(root, base, a.tree, b.tree);
      assert base + (p2 + [false]) == ep2 + [false] && base + (p2 + [true]) == ep2 + [true];
      EliminateDups1(op, ep1, ep2 + [false], base, p1, p2 + [false]);
      assert root == Put(old(root), base, a.tree) && At(root, base) == a.tree;
      EliminateDups1(op, ep1, ep2 + [true], base, p1, p2 + [true]);
    }

    /** The rest of `expr_eliminate_dups1`, for two different leaves of the level. */
    method JoinLeaves(op: Op, ep1: Path, ep2: Path, ghost base: Path, ghost p1: Path, ghost p2: Path)
      requires HasSlot(root, base) && OnLevel(op, At(root, base), p1) && OnLevel(op, At(root, base), p2)
      requires HasSlot(At(root, base), p1) && HasSlot(At(root, base), p2) && p1 != p2
      requires !IsOp(op, At(At(root, base), p1)) && !IsOp(op, At(At(root, base), p2))
      requires ep1 == base + p1 && ep2 == base + p2
      modifies this
      ensures HasSlot(old(root), base)
      ensures var r := Dups1(op, At(old(root), base), p1, p2);
              root == Put(old(root), base, r.tree) && transCount == old(transCount) + r.count
      decreases Size(At(root, base)), 1, 1
    {
      ghost var t := At(root, base);
      ghost var e1 := At(t, p1);
      ghost var a := if e1.Bin? then Dups1(e1.op, e1, [], []) else Pass(e1, 0);
      OnLevelHasSlot(op, t, p1);
      SlotOfSlot(root, base, p1, a.tree);
      PutLeaf(op, t, p1, a.tree);
      PutElsewhere(op, t, p1, p2, a.tree);
      PutBack(t, p1);
      PutBack(root, base);
      ghost var t1 := Put(t, p1, a.tree);
      SameLevelSlots(op, t, t1, p1);
      SameLevelSlots(op, t, t1, p2);
      if At(root, ep1).Bin? {
        assert ep1 + [] == ep1;
        EliminateDups1(At(root, ep1).op, ep1, ep1, ep1, [], []);
      }
      assert root == Put(old(root), base, t1) && transCount == old(transCount) + a.count;
      JoinAt(op, ep1, ep2, base, p1, p2);
      PutTwice(old(root), base, t1, JoinSlots(op, t1, p1, p2).tree);
    }

    /** Joins the operands in two leaf slots, if they can be joined. */
    method JoinAt(op: Op, ep1: Path, ep2: Path, ghost base: Path, ghost p1: Path, ghost p2: Path)
      requires HasSlot(root, base) && OnLevel(op, At(root, base), p1) && OnLevel(op, At(root, base), p2)
      requires HasSlot(At(root, base), p1) && HasSlot(At(root, base), p2) && p1 != p2
      requires !IsOp(op, At(At(root, base), p1)) && !IsOp(op, At(At(root, base), p2))
      requires ep1 == base + p1 && ep2 == base + p2
      modifies this
      ensures HasSlot(old(root), base)
      ensures var r := JoinSlots(op, At(old(root), base), p1, p2);
              root == Put(old(root), base, r.tree) && transCount == old(transCount) + r.count
    {
      ghost var t := At(root, base);
      PutBack(root, base);
      SlotOfSlot(root, base, p1, Neutral(op));
      SlotOfSlot(root, base, p2, Neutral(op));
      var tmp := JoinSlotValues(op, At(root, ep1), At(root, ep2));
      if tmp.Some? {
        ghost var t2 := Put(t, p1, Neutral(op));
        PutLeaf(op, t, p1, Neutral(op));
        PutElsewhere(op, t, p1, p2, Neutral(op));
        root := Put(root, ep1, Neutral(op));
        assert root == Put(old(root), base, t2) && At(root, base) == t2;
        SlotOfSlot(root, base, p2, tmp.value);
        PutTwice(old(root), base, t2, Put(t2, p2, tmp.value));
        root := Put(root, ep2, tmp.value);
        transCount := transCount + 1;
      }
    }

    /** `expr_join_or` or `expr_join_and`, by the operator. */
    method JoinSlotValues(op: Op, e1: Expr, e2: Expr) returns (tmp: Option<Expr>)
      modifies this`transCount
      ensures tmp == Join(op, e1, e2) && transCount == old(transCount)
    {
      if op == OrOp {
        tmp := ExprJoinOr(e1, e2);
      } else {
        tmp := ExprJoinAnd(e1, e2);
      }
    }

    /** `expr_join_or`: after the comparison, which hands the counter back, one case after the other. */
    method ExprJoinOr(e1: Expr, e2: Expr) returns (r: Option<Expr>)
      modifies this`transCount
      ensures r == JoinOr(e1, e2) && transCount == old(transCount)
    {
      hide ExprEq;
      var same := Equal(e1, e2);
      if same {
        return Some(e1);
      }
      var subject := CommonSymbol(e1, e2);
      if subject.None? {
        return None;
      }
      var sym1 := subject.value;
      if sym1.Type() == Tristate && e1.Comp? && e1.rel == Eq && e2.Comp? && e2.rel == Eq {
        if (e1.rhs == SymYes && e2.rhs == SymMod) || (e1.rhs == SymMod && e2.rhs == SymYes) {
          return Some(Comp(Ne, sym1, SymNo));
        }
        if (e1.rhs == SymYes && e2.rhs == SymNo) || (e1.rhs == SymNo && e2.rhs == SymYes) {
          return Some(Comp(Ne, sym1, SymMod));
        }
        if (e1.rhs == SymMod && e2.rhs == SymNo) || (e1.rhs == SymNo && e2.rhs == SymMod) {
          return Some(Comp(Ne, sym1, SymYes));
        }
      }
      if sym1.Type() == Boolean {
        if (e1.Not? && e1.arg.Symbol? && e2.Symbol?) || (e2.Not? && e2.arg.Symbol? && e1.Symbol?) {
          return Some(Symbol(SymYes));
        }
      }
      r := None;
    }

    /** `expr_join_and` */
    method ExprJoinAnd(e1: Expr, e2: Expr) returns (r: Option<Expr>)
      modifies this`transCount
      ensures r == JoinAnd(e1, e2) && transCount == old(transCount)
    {
      hide ExprEq;
      var same := Equal(e1, e2);
      if same {
        return Some(e1);
      }
      var subject := CommonSymbol(e1, e2);
      if subject.None? {
        return None;
      }
      var sym1 := subject.value;
      if Compares(e1, Eq, e2, SymYes) || Compares(e2, Eq, e1, SymYes) {
        return Some(Comp(Eq, sym1, SymYes));
      }
      if Compares(e1, Ne, e2, SymNo) || Compares(e2, Ne, e1, SymNo) {
        return Some(Symbol(sym1));
      }
      if Compares(e1, Ne, e2, SymMod) || Compares(e2, Ne, e1, SymMod) {
        return Some(Comp(Eq, sym1, SymYes));
      }
      if sym1.Type() == Tristate && e1.Comp? && e2.Comp? {
        r := JoinComparisons(sym1, e1, e2);
        return;
      }
      r := None;
    }

    /** The part of `expr_join_and` that is about two comparisons of a tristate symbol. */
    method JoinComparisons(sym1: Sym, e1: Expr, e2: Expr) returns (r: Option<Expr>)
      requires Subject(e1, e2) == Some(sym1) && sym1.Type() == Tristate && e1.Comp? && e2.Comp? && !ExprEq(e1, e2)
      ensures r == JoinAnd(e1, e2)
    {
      hide ExprEq;
      if e1.rel == Eq && e2.rel == Ne {
        var sym2 := e1.rhs;
        if e2.rhs.IsConst() && sym2.IsConst() {
          return Some(if sym2 != e2.rhs then Comp(Eq, sym1, sym2) else Symbol(SymNo));
        }
      }
      if e1.rel == Ne && e2.rel == Eq {
        var sym2 := e2.rhs;
        if e1.rhs.IsConst() && sym2.IsConst() {
          return Some(if sym2 != e1.rhs then Comp(Eq, sym1, sym2) else Symbol(SymNo));
        }
      }
      if e1.rel == Ne && e2.rel == Ne {
        if (e1.rhs == SymYes && e2.rhs == SymNo) || (e1.rhs == SymNo && e2.rhs == SymYes) {
          return Some(Comp(Eq, sym1, SymMod));
        }
        if (e1.rhs == SymYes && e2.rhs == SymMod) || (e1.rhs == SymMod && e2.rhs == SymYes) {
          return Some(Comp(Eq, sym1, SymNo));
        }
        if (e1.rhs == SymMod && e2.rhs == SymNo) || (e1.rhs == SymNo && e2.rhs == SymMod) {
          return Some(Comp(Eq, sym1, SymYes));
        }
      }
      r := None;
    }

    /** The first half of both functions: the bool or tristate symbol that both operands are about. */
    method CommonSymbol(e1: Expr, e2: Expr) returns (r: Option<Sym>)
      ensures r == Subject(e1, e2)
    {
      if !(e1.Comp? && (e1.rel == Eq || e1.rel == Ne)) && !e1.Symbol? && !e1.Not? {
        return None;
      }
      if !(e2.Comp? && (e2.rel == Eq || e2.rel == Ne)) && !e2.Symbol? && !e2.Not? {
        return None;
      }
      var sym1, sym2;
      if e1.Not? {
        var tmp := e1.arg;
        if !(tmp.Comp? && (tmp.rel == Eq || tmp.rel == Ne)) && !tmp.Symbol? {
          return None;
        }
        sym1 := if tmp.Symbol? then tmp.sym else tmp.lhs;
      } else {
        sym1 := if e1.Symbol? then e1.sym else e1.lhs;
      }
      if e2.Not? {
        if !e2.arg.Symbol? {
          return None;
        }
        sym2 := e2.arg.sym;
      } else {
        sym2 := if e2.Symbol? then e2.sym else e2.lhs;
      }
      if sym1 != sym2 {
        return None;
      }
      if sym1.Type() != Boolean && sym1.Type() != Tristate {
        return None;
      }
      r := Some(sym1);
    }

    /** `expr_eliminate_dups`: the value of the tree is kept, the counter is handed back unchanged. */
    method RemoveDups()
      modifies this
      ensures root == EliminateDups(old(root)) && transCount == old(transCount)
      ensures OnePass(root).count == 0
      ensures forall v: Valuation :: WellTyped(v) && Plain(old(root), v) ==> Eval(root, v) == Eval(old(root), v)
    {
      var oldCount := transCount;
      while true
        invariant EliminateDups(root) == EliminateDups(old(root))
        decreases Size(root)
      {
        transCount := 0;
        OnePassShrinks(root);
        ghost var before := root;
        if root.Bin? {
          EliminateDups1(root.op, [], [], [], [], []);
        }
        assert root == OnePass(before).tree && transCount == OnePass(before).count;
        if transCount == 0 {
          break;
        }
        root := ElimYn(root);
      }
      transCount := oldCount;
      forall v: Valuation | WellTyped(v) && Plain(old(root), v) ensures Eval(root, v) == Eval(old(root), v) {
        EliminateDupsValue(old(root), v);
      }
    }
  }

  /** One operand is a symbol, and the other compares with c. */
  predicate Compares(e: Expr, r: Rel, other: Expr, c: Sym) {
    e.Symbol? && other.Comp? && other.rel == r && other.rhs == c
  }
}
