/**
 Structural comparison of expressions: `expr_eliminate_yn`, `expr_eliminate_eq`
 and `expr_eq`. The three are mutually recursive in the source; the two trees
 handed to them are distinct allocations, so each call maps the pair of slots it
 is given to the pair of expressions it leaves there.
 */
module Equality {
  import opened Expr

  /** `expr_eliminate_yn`: drops y under && and n under ||, and folds n and y. */
  function ElimYn(e: Expr): (r: Expr)
    ensures Size(r) <= Size(e)
  {
    match e
    case Bin(AndOp, l, r) =>
      var l', r' := ElimYn(l), ElimYn(r);
      if l' == Symbol(SymNo) then Symbol(SymNo)
      else if l' == Symbol(SymYes) then r'
      else if r' == Symbol(SymNo) then Symbol(SymNo)
      else if r' == Symbol(SymYes) then l'
      else And(l', r')
    case Bin(OrOp, l, r) =>
      var l', r' := ElimYn(l), ElimYn(r);
      if l' == Symbol(SymNo) then r'
      else if l' == Symbol(SymYes) then Symbol(SymYes)
      else if r' == Symbol(SymNo) then l'
      else if r' == Symbol(SymYes) then Symbol(SymYes)
      else Or(l', r')
    case _ => e
  }

  /** What a walk over two slots leaves there, and how far it advanced `trans_count`. */
  datatype Pair = Pair(e1: Expr, e2: Expr, count: nat)

  /** `__expr_eliminate_eq`: equal leaves of the two `op` levels become neutral. */
  function ElimEq1(op: Op, e1: Expr, e2: Expr): (r: Pair)
    ensures Size(r.e1) <= Size(e1) && Size(r.e2) <= Size(e2)
    ensures IsOp(op, e1) ==> IsOp(op, r.e1)
    decreases Size(e1) + Size(e2), if IsOp(op, e1) || IsOp(op, e2) then 0 else 3
  {
    if IsOp(op, e1) then
      var a := ElimEq1(op, e1.left, e2);
      var b := ElimEq1(op, e1.right, a.e2);
      Pair(Bin(op, a.e1, b.e1), b.e2, a.count + b.count)
    else if IsOp(op, e2) then
      var a := ElimEq1(op, e1, e2.left);
      var b := ElimEq1(op, a.e1, e2.right);
      Pair(b.e1, Bin(op, a.e2, b.e2), a.count + b.count)
    else if e1 == e2 && (e1 == Symbol(SymYes) || e1 == Symbol(SymNo)) then
      Pair(e1, e2, 0)
    else if !ExprEq(e1, e2) then
      Pair(e1, e2, 0)
    else
      Pair(Neutral(op), Neutral(op), 1)
  }

  /** `expr_eliminate_eq` on two non-null slots. */
  function ElimEq(e1: Expr, e2: Expr): (r: Pair)
    ensures Size(r.e1) <= Size(e1) && Size(r.e2) <= Size(e2)
    decreases Size(e1) + Size(e2), 1
  {
    var a := if e1.Bin? then ElimEq1(e1.op, e1, e2) else Pair(e1, e2, 0);
    var b := if a.e2.Bin? && !IsOp(a.e2.op, a.e1) then ElimEq1(a.e2.op, a.e1, a.e2) else Pair(a.e1, a.e2, 0);
    Pair(ElimYn(b.e1), ElimYn(b.e2), a.count + b.count)
  }

  /** `expr_eq` on two non-null expressions; it puts `trans_count` back. */
  predicate ExprEq(e1: Expr, e2: Expr)
    decreases Size(e1) + Size(e2), 2
  {
    match e1
    case Comp(_, _, _) => e1 == e2
    case Symbol(_) => e1 == e2
    case Not(x) => e2.Not? && ExprEq(x, e2.arg)
    case Bin(op, _, _) =>
      IsOp(op, e2) &&
      var r := ElimEq(e1, e2);
      r.e1.Symbol? && r.e1 == r.e2
  }

  // ----- no constants inside -----

  predicate IsConstant(e: Expr) { e == Symbol(SymYes) || e == Symbol(SymNo) }

  /** Neither the expression nor an operand of && or || in it is y or n. */
  predicate Inner(e: Expr) {
    match e
    case Bin(_, l, r) => Inner(l) && Inner(r)
    case _ => !IsConstant(e)
  }

  lemma {:induction false} InnerStays(e: Expr)
    requires Inner(e)
    ensures ElimYn(e) == e
  {
    if e.Bin? {
      InnerStays(e.left);
      InnerStays(e.right);
    }
  }

  // ----- what elimination does to values -----

  lemma {:induction false} ElimYnValue(e: Expr, v: Valuation)
    requires WellTyped(v)
    ensures Eval(ElimYn(e), v) == Eval(e, v)
  {
    if e.Bin? {
      ElimYnValue(e.left, v);
      ElimYnValue(e.right, v);
    }
  }

  /**
   A walk at level `op` splits one common value t off both expressions: each
   original is the residual combined with t.
   */
  lemma {:induction false} ElimEq1Splits(op: Op, e1: Expr, e2: Expr, v: Valuation) returns (t: Tri)
    requires WellTyped(v)
    ensures var r := ElimEq1(op, e1, e2);
            Eval(e1, v) == Apply(op, Eval(r.e1, v), t) && Eval(e2, v) == Apply(op, Eval(r.e2, v), t)
    decreases Size(e1) + Size(e2), if IsOp(op, e1) || IsOp(op, e2) then 0 else 4
  {
    if IsOp(op, e1) {
      var a := ElimEq1(op, e1.left, e2);
      var b := ElimEq1(op, e1.right, a.e2);
      var t1 := ElimEq1Splits(op, e1.left, e2, v);
      var t2 := ElimEq1Splits(op, e1.right, a.e2, v);
      t := Apply(op, t1, t2);
      ApplyRegroup(op, Eval(a.e1, v), t1, Eval(b.e1, v), t2);
      ApplyAssoc(op, Eval(b.e2, v), t2, t1);
    } else if IsOp(op, e2) {
      var a := ElimEq1(op, e1, e2.left);
      var b := ElimEq1(op, a.e1, e2.right);
      var t1 := ElimEq1Splits(op, e1, e2.left, v);
      var t2 := ElimEq1Splits(op, a.e1, e2.right, v);
      t := Apply(op, t1, t2);
      ApplyRegroup(op, Eval(a.e2, v), t1, Eval(b.e2, v), t2);
      ApplyAssoc(op, Eval(b.e1, v), t2, t1);
    } else {
      ElimEq1LeafSplits(op, e1, e2, v);
      t := if ElimEq1(op, e1, e2).count == 1 then Eval(e1, v) else Eval(Neutral(op), v);
    }
  }

  lemma {:induction false} ElimEq1LeafSplits(op: Op, e1: Expr, e2: Expr, v: Valuation)
    requires WellTyped(v) && !IsOp(op, e1) && !IsOp(op, e2)
    ensures var r := ElimEq1(op, e1, e2);
            var t := if r.count == 1 then Eval(e1, v) else Eval(Neutral(op), v);
            Eval(e1, v) == Apply(op, Eval(r.e1, v), t) && Eval(e2, v) == Apply(op, Eval(r.e2, v), t)
    decreases Size(e1) + Size(e2), 3
  {
    var r := ElimEq1(op, e1, e2);
    if r.count == 1 {
      ExprEqSound(e1, e2, v);
    } else {
      assert r == Pair(e1, e2, 0);
    }
  }

  lemma {:induction false} ApplyRegroup(op: Op, a: Tri, b: Tri, c: Tri, d: Tri)
    ensures Apply(op, Apply(op, a, b), Apply(op, c, d)) == Apply(op, Apply(op, a, c), Apply(op, b, d))
  {
  }

  lemma {:induction false} ApplyAssoc(op: Op, a: Tri, b: Tri, c: Tri)
    ensures Apply(op, Apply(op, a, b), c) == Apply(op, a, Apply(op, c, b))
  {
  }

  /**
   Elimination reflects order: when the residuals are ordered, so are the
   originals, in either direction; equal residuals mean equal originals.
   */
  lemma {:induction false} ElimEqReflectsOrder(e1: Expr, e2: Expr, v: Valuation)
    requires WellTyped(v)
    ensures var r := ElimEq(e1, e2);
            && (Eval(r.e1, v) <= Eval(r.e2, v) ==> Eval(e1, v) <= Eval(e2, v))
            && (Eval(r.e2, v) <= Eval(r.e1, v) ==> Eval(e2, v) <= Eval(e1, v))
    decreases Size(e1) + Size(e2), 1
  {
    var a := if e1.Bin? then ElimEq1(e1.op, e1, e2) else Pair(e1, e2, 0);
    var b := if a.e2.Bin? && !IsOp(a.e2.op, a.e1) then ElimEq1(a.e2.op, a.e1, a.e2) else Pair(a.e1, a.e2, 0);
    if e1.Bin? {
      var t := ElimEq1Splits(e1.op, e1, e2, v);
      SplitReflectsOrder(e1.op, Eval(e1, v), Eval(e2, v), Eval(a.e1, v), Eval(a.e2, v), t);
    }
    if a.e2.Bin? && !IsOp(a.e2.op, a.e1) {
      var t := ElimEq1Splits(a.e2.op, a.e1, a.e2, v);
      SplitReflectsOrder(a.e2.op, Eval(a.e1, v), Eval(a.e2, v), Eval(b.e1, v), Eval(b.e2, v), t);
    }
    ElimYnValue(b.e1, v);
    ElimYnValue(b.e2, v);
  }

  lemma {:induction false} SplitReflectsOrder(op: Op, x1: Tri, x2: Tri, r1: Tri, r2: Tri, t: Tri)
    requires x1 == Apply(op, r1, t) && x2 == Apply(op, r2, t)
    ensures (r1 <= r2 ==> x1 <= x2) && (r2 <= r1 ==> x2 <= x1)
  {
  }

  /** Expressions found equal have the same value under every valuation. */
  lemma {:induction false} ExprEqSound(e1: Expr, e2: Expr, v: Valuation)
    requires WellTyped(v) && ExprEq(e1, e2)
    ensures Eval(e1, v) == Eval(e2, v)
    decreases Size(e1) + Size(e2), 2
  {
    match e1
    case Not(x) => ExprEqSound(x, e2.arg, v);
    case Bin(_, _, _) => ElimEqReflectsOrder(e1, e2, v);
    case _ =>
  }

  // ----- every expression equals itself -----

  /** An `op` level whose leaves are all y or n. */
  predicate Settled(op: Op, e: Expr) {
    if IsOp(op, e) then Settled(op, e.left) && Settled(op, e.right) else e == Symbol(SymYes) || e == Symbol(SymNo)
  }

  /** The `op` level with every leaf but y and n made neutral. */
  function Settle(op: Op, e: Expr): (r: Expr)
    ensures Settled(op, r)
    ensures IsOp(op, e) ==> IsOp(op, r)
  {
    if IsOp(op, e) then Bin(op, Settle(op, e.left), Settle(op, e.right))
    else if e == Symbol(SymYes) || e == Symbol(SymNo) then e
    else Neutral(op)
  }

  lemma {:induction false} SettledIsInert(op: Op, x: Expr, c: Expr)
    requires Settled(op, c)
    ensures ElimEq1(op, x, c) == Pair(x, c, 0)
    ensures ElimEq1(op, c, x) == Pair(c, x, 0)
    decreases Size(x) + Size(c)
  {
    if IsOp(op, x) {
      SettledIsInert(op, x.left, c);
      SettledIsInert(op, x.right, c);
    }
    if IsOp(op, c) {
      SettledIsInert(op, x, c.left);
      SettledIsInert(op, x, c.right);
    }
  }

  /** The walk may as well go down the second tree first: the pairs it swaps share no slot. */
  lemma {:induction false} WalkInterchange(op: Op, x: Expr, p: Expr, q: Expr)
    ensures var a := ElimEq1(op, x, p);
            var b := ElimEq1(op, a.e1, q);
            var r := ElimEq1(op, x, Bin(op, p, q));
            r.e1 == b.e1 && r.e2 == Bin(op, a.e2, b.e2)
  {
    if IsOp(op, x) {
      var a1 := ElimEq1(op, x.left, p);
      var a2 := ElimEq1(op, a1.e1, q);
      WalkInterchange(op, x.left, p, q);
      WalkInterchange(op, x.right, a1.e2, a2.e2);
    }
  }

  lemma {:induction false} SelfWalk(op: Op, e: Expr)
    ensures var r := ElimEq1(op, e, e); r.e1 == Settle(op, e) && r.e2 == Settle(op, e)
    decreases Size(e), if IsOp(op, e) then 0 else 2
  {
    if IsOp(op, e) {
      var l, r := e.left, e.right;
      var sl := Settle(op, l);
      SelfWalk(op, l);
      WalkInterchange(op, l, l, r);
      SettledIsInert(op, r, sl);
      SelfWalk(op, r);
      WalkInterchange(op, r, sl, r);
    } else {
      ExprEqReflexive(e);
    }
  }

  lemma {:induction false} SettledReduces(op: Op, e: Expr)
    requires Settled(op, e)
    ensures ElimYn(e) == Symbol(SymYes) || ElimYn(e) == Symbol(SymNo)
  {
    if IsOp(op, e) {
      SettledReduces(op, e.left);
      SettledReduces(op, e.right);
    }
  }

  lemma {:induction false} ExprEqReflexive(e: Expr)
    ensures ExprEq(e, e)
    decreases Size(e), 1
  {
    match e
    case Not(x) => ExprEqReflexive(x);
    case Bin(op, _, _) =>
      SelfWalk(op, e);
      SettledReduces(op, Settle(op, e));
    case _ =>
  }
}
