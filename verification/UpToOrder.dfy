/**
 What `expr_eq` (scripts/config/expr.c) decides: whether two expressions are the
 same up to the order and the grouping of the operands of each && and ||.
 */
module UpToOrder {
  import opened Expr
  import opened Equality

  /** The larger of two sizes. */
  function Larger(a: nat, b: nat): nat { if a < b then b else a }

  /**
   The same operation on the same operands, in any order and grouping: each operand occurs as often, up to this
   very relation, on one side as on the other.
   */
  predicate Same(e1: Expr, e2: Expr)
    decreases Larger(Size(e1), Size(e2)), 1
  {
    match e1
    case Symbol(_) => e1 == e2
    case Comp(_, _, _) => e1 == e2
    case Not(x) => e2.Not? && Same(x, e2.arg)
    case Bin(op, _, _) =>
      IsOp(op, e2) &&
      var s1, s2 := Operands(op, e1), Operands(op, e2);
      OperandsSmaller(op, e1);
      OperandsSmaller(op, e2);
      var n := Larger(Size(e1), Size(e2));
      && (forall i :: 0 <= i < |s1| ==> Count(s1[i], s1, n) == Count(s1[i], s2, n))
      && (forall i :: 0 <= i < |s2| ==> Count(s2[i], s1, n) == Count(s2[i], s2, n))
  }

  /** How many of the expressions are the same as x, all of them of sizes below n. */
  function Count(x: Expr, s: seq<Expr>, n: nat): nat
    requires Size(x) < n && Below(s, n)
    decreases n, 0, |s|
  {
    if s == [] then 0
    else
      assert s[0] in s;
      BelowTail(s, n);
      (if Same(x, s[0]) then 1 else 0) + Count(x, s[1..], n)
  }

  predicate Below(s: seq<Expr>, n: nat) { forall i :: 0 <= i < |s| ==> Size(s[i]) < n }

  lemma {:induction false} BelowTail(s: seq<Expr>, n: nat)
    requires Below(s, n) && s != []
    ensures Below(s[1..], n)
  {
  }

  lemma {:induction false} OperandsSmaller(op: Op, e: Expr)
    ensures forall i :: 0 <= i < |Operands(op, e)| ==> Size(Operands(op, e)[i]) <= Size(e)
    ensures IsOp(op, e) ==> Below(Operands(op, e), Size(e))
  {
    if IsOp(op, e) {
      OperandsSmaller(op, e.left);
      OperandsSmaller(op, e.right);
    }
  }

  // ----- an equivalence -----

  lemma {:induction false} CountAny(x: Expr, s: seq<Expr>, n: nat, k: nat)
    requires Size(x) < n && Size(x) < k && Below(s, n) && Below(s, k)
    ensures Count(x, s, n) == Count(x, s, k)
    decreases |s|
  {
    if s != [] {
      BelowTail(s, n);
      BelowTail(s, k);
      CountAny(x, s[1..], n, k);
    }
  }

  lemma {:induction false} CountConcat(x: Expr, s: seq<Expr>, t: seq<Expr>, n: nat)
    requires Size(x) < n && Below(s, n) && Below(t, n)
    ensures Below(s + t, n) && Count(x, s + t, n) == Count(x, s, n) + Count(x, t, n)
    decreases |s|
  {
    if s == [] {
      assert s + t == t;
    } else {
      assert (s + t)[1..] == s[1..] + t;
      BelowTail(s, n);
      CountConcat(x, s[1..], t, n);
    }
  }

  /** What is counted is there. */
  lemma {:induction false} Counted(x: Expr, s: seq<Expr>, n: nat)
    requires Size(x) < n && Below(s, n)
    ensures Count(x, s, n) > 0 <==> exists k :: 0 <= k < |s| && Same(x, s[k])
    decreases |s|
  {
    hide Same;
    if s != [] {
      BelowTail(s, n);
      Counted(x, s[1..], n);
      if Count(x, s[1..], n) > 0 {
        var k :| 0 <= k < |s[1..]| && Same(x, s[1..][k]);
        assert s[k + 1] == s[1..][k];
      }
      if k :| 0 < k < |s| && Same(x, s[k]) {
        assert s[1..][k - 1] == s[k];
      }
    }
  }

  lemma {:induction false} SameReflexive(e: Expr)
    ensures Same(e, e)
  {
    hide Count;
    if e.Not? {
      SameReflexive(e.arg);
    }
  }

  lemma {:induction false} SameSymmetric(e1: Expr, e2: Expr)
    requires Same(e1, e2)
    ensures Same(e2, e1)
    decreases Size(e1)
  {
    hide Count;
    if e1.Not? {
      SameSymmetric(e1.arg, e2.arg);
    }
  }

  /** What each operand of e1 has in the counts, each of e2 has, and the other way round. */
  lemma {:induction false} SameLevels(op: Op, e1: Expr, e2: Expr, n: nat)
    requires Same(e1, e2) && IsOp(op, e1) && Below(Operands(op, e1), n) && Below(Operands(op, e2), n)
    ensures IsOp(op, e2)
    ensures var s1, s2 := Operands(op, e1), Operands(op, e2);
            && (forall i :: 0 <= i < |s1| ==> Count(s1[i], s1, n) == Count(s1[i], s2, n))
            && (forall i :: 0 <= i < |s2| ==> Count(s2[i], s1, n) == Count(s2[i], s2, n))
  {
    hide Count;
    var s1, s2, k := Operands(op, e1), Operands(op, e2), Larger(Size(e1), Size(e2));
    OperandsSmaller(op, e1);
    OperandsSmaller(op, e2);
    forall i | 0 <= i < |s1| ensures Count(s1[i], s1, n) == Count(s1[i], s2, n) {
      CountAny(s1[i], s1, n, k);
      CountAny(s1[i], s2, n, k);
    }
    forall i | 0 <= i < |s2| ensures Count(s2[i], s1, n) == Count(s2[i], s2, n) {
      CountAny(s2[i], s1, n, k);
      CountAny(s2[i], s2, n, k);
    }
  }

  lemma {:induction false} LevelsSame(op: Op, e1: Expr, e2: Expr, n: nat)
    requires IsOp(op, e1) && IsOp(op, e2) && Below(Operands(op, e1), n) && Below(Operands(op, e2), n)
    requires var s1, s2 := Operands(op, e1), Operands(op, e2);
             && (forall i :: 0 <= i < |s1| ==> Count(s1[i], s1, n) == Count(s1[i], s2, n))
             && (forall i :: 0 <= i < |s2| ==> Count(s2[i], s1, n) == Count(s2[i], s2, n))
    ensures Same(e1, e2)
  {
    hide Count;
    var s1, s2, k := Operands(op, e1), Operands(op, e2), Larger(Size(e1), Size(e2));
    OperandsSmaller(op, e1);
    OperandsSmaller(op, e2);
    forall i | 0 <= i < |s1| ensures Count(s1[i], s1, k) == Count(s1[i], s2, k) {
      CountAny(s1[i], s1, n, k);
      CountAny(s1[i], s2, n, k);
    }
    forall i | 0 <= i < |s2| ensures Count(s2[i], s1, k) == Count(s2[i], s2, k) {
      CountAny(s2[i], s1, n, k);
      CountAny(s2[i], s2, n, k);
    }
  }

  lemma {:induction false} SameTransitive(e1: Expr, e2: Expr, e3: Expr, n: nat)
    requires Same(e1, e2) && Same(e2, e3) && Size(e1) < n && Size(e2) < n && Size(e3) < n
    ensures Same(e1, e3)
    decreases n, 0
  {
    hide Count, Same;
    if e1.Bin? {
      var op := e1.op;
      SameOp(e1, e2);
      SameOp(e2, e3);
      OperandsSmaller(op, e1);
      OperandsSmaller(op, e2);
      OperandsSmaller(op, e3);
      SameLevels(op, e1, e2, n - 1);
      SameLevels(op, e2, e3, n - 1);
      CountsThrough(Operands(op, e1), Operands(op, e2), Operands(op, e3), n - 1);
      CountsThrough(Operands(op, e3), Operands(op, e2), Operands(op, e1), n - 1);
      LevelsSame(op, e1, e3, n - 1);
    } else {
      SameLeaf(e1, e2);
      SameLeaf(e2, e3);
      if e1.Not? {
        SameTransitive(e1.arg, e2.arg, e3.arg, n - 1);
        NotSame(e1, e3);
      }
    }
  }

  lemma {:induction false} SameOp(e1: Expr, e2: Expr)
    requires Same(e1, e2) && e1.Bin?
    ensures IsOp(e1.op, e2)
  {
    hide Count;
  }

  lemma {:induction false} SameLeaf(e1: Expr, e2: Expr)
    requires Same(e1, e2) && !e1.Bin?
    ensures if e1.Not? then e2.Not? && Same(e1.arg, e2.arg) else e1 == e2
  {
    hide Count;
  }

  lemma {:induction false} NotSame(e1: Expr, e2: Expr)
    requires e1.Not? && e2.Not? && Same(e1.arg, e2.arg)
    ensures Same(e1, e2)
  {
    hide Count;
  }

  /** What is the same is counted the same. */
  lemma {:induction false} CountSame(x: Expr, y: Expr, s: seq<Expr>, n: nat)
    requires Same(x, y) && Size(x) < n && Size(y) < n && Below(s, n)
    ensures Count(x, s, n) == Count(y, s, n)
    decreases n, 1, |s|
  {
    hide Same;
    if s != [] {
      BelowTail(s, n);
      SameSymmetric(x, y);
      if Same(x, s[0]) {
        SameTransitive(y, x, s[0], n);
      }
      if Same(y, s[0]) {
        SameTransitive(x, y, s[0], n);
      }
      CountSame(x, y, s[1..], n);
    }
  }

  lemma {:induction false} CountsThrough(s1: seq<Expr>, s2: seq<Expr>, s3: seq<Expr>, n: nat)
    requires Below(s1, n) && Below(s2, n) && Below(s3, n)
    requires forall i :: 0 <= i < |s1| ==> Count(s1[i], s1, n) == Count(s1[i], s2, n)
    requires forall i :: 0 <= i < |s2| ==> Count(s2[i], s2, n) == Count(s2[i], s3, n)
    ensures forall i :: 0 <= i < |s1| ==> Count(s1[i], s1, n) == Count(s1[i], s3, n)
    decreases n, 2
  {
    hide Count, Same;
    forall i | 0 <= i < |s1| ensures Count(s1[i], s1, n) == Count(s1[i], s3, n) {
      var x := s1[i];
      SameReflexive(x);
      Counted(x, s1, n);
      Counted(x, s2, n);
      var k :| 0 <= k < |s2| && Same(x, s2[k]);
      CountSame(x, s2[k], s2, n);
      CountSame(x, s2[k], s3, n);
    }
  }

  // ----- what the walk leaves -----

  /** No operand of a && or || in the expression is y or n. */
  predicate Free(e: Expr) {
    match e
    case Bin(_, l, r) => !IsConstant(l) && !IsConstant(r) && Free(l) && Free(r)
    case Not(x) => Free(x)
    case _ => true
  }

  lemma {:induction false} FreeInner(e: Expr)
    requires Free(e) && !IsConstant(e)
    ensures Inner(e)
  {
    if e.Bin? {
      FreeInner(e.left);
      FreeInner(e.right);
    }
  }

  /** An operand that the walk may still take. */
  predicate Left(op: Op, o: Expr, n: nat) { !IsOp(op, o) && !IsConstant(o) && Free(o) && Size(o) < n }

  /** The operands of a level in the middle of the walk: taken, or left. */
  predicate Level(op: Op, s: seq<Expr>, n: nat) {
    forall i :: 0 <= i < |s| ==> s[i] == Neutral(op) || Left(op, s[i], n)
  }

  predicate AllLeft(op: Op, s: seq<Expr>, n: nat) { forall i :: 0 <= i < |s| ==> Left(op, s[i], n) }

  lemma {:induction false} FreeLevel(op: Op, e: Expr)
    requires Free(e) && (IsOp(op, e) || !IsConstant(e))
    ensures AllLeft(op, Operands(op, e), Size(e) + 1)
    ensures IsOp(op, e) ==> AllLeft(op, Operands(op, e), Size(e))
  {
    if IsOp(op, e) {
      FreeLevel(op, e.left);
      FreeLevel(op, e.right);
    }
  }

  lemma {:induction false} LeftLevel(op: Op, s: seq<Expr>, k: nat, n: nat)
    requires AllLeft(op, s, k) && k <= n
    ensures AllLeft(op, s, n) && Level(op, s, n) && Below(s, n)
  {
  }

  /** Operands that are left on both sides are not the same. */
  predicate Apart(op: Op, s: seq<Expr>, t: seq<Expr>) {
    forall i, j :: 0 <= i < |s| && 0 <= j < |t| && s[i] != Neutral(op) && t[j] != Neutral(op) ==> !Same(s[i], t[j])
  }

  /** What is left was there before. */
  predicate Survives(op: Op, s: seq<Expr>, t: seq<Expr>) {
    forall i :: 0 <= i < |t| ==> t[i] == Neutral(op) || t[i] in s
  }

  /** What a walk does to two levels s and t, of which it leaves s' and t'. */
  ghost predicate Walked(op: Op, s: seq<Expr>, t: seq<Expr>, s': seq<Expr>, t': seq<Expr>, n: nat)
    requires Below(s, n) && Below(t, n) && Below(s', n) && Below(t', n)
  {
    && Survives(op, s, s') && Survives(op, t, t') && Apart(op, s', t')
    && forall z :: Left(op, z, n) ==> Count(z, s', n) - Count(z, t', n) == Count(z, s, n) - Count(z, t, n)
  }

  lemma {:induction false} LevelConcat(op: Op, s: seq<Expr>, t: seq<Expr>, n: nat)
    requires Level(op, s, n) && Level(op, t, n)
    ensures Level(op, s + t, n)
  {
  }

  lemma {:induction false} ApartLater(op: Op, s: seq<Expr>, t: seq<Expr>, t': seq<Expr>)
    requires Apart(op, s, t) && Survives(op, t, t')
    ensures Apart(op, s, t')
  {
    hide Same;
    forall i, j | 0 <= i < |s| && 0 <= j < |t'| && s[i] != Neutral(op) && t'[j] != Neutral(op)
      ensures !Same(s[i], t'[j])
    {
      var k :| 0 <= k < |t| && t[k] == t'[j];
    }
  }

  lemma {:induction false} ApartConcat(op: Op, s1: seq<Expr>, s2: seq<Expr>, t: seq<Expr>)
    requires Apart(op, s1, t) && Apart(op, s2, t)
    ensures Apart(op, s1 + s2, t)
  {
    hide Same;
    forall i, j | 0 <= i < |s1 + s2| && 0 <= j < |t| && (s1 + s2)[i] != Neutral(op) && t[j] != Neutral(op)
      ensures !Same((s1 + s2)[i], t[j])
    {
      assert (s1 + s2)[i] == if i < |s1| then s1[i] else s2[i - |s1|];
    }
  }

  lemma {:induction false} SurvivesConcat(op: Op, s1: seq<Expr>, s2: seq<Expr>, s1': seq<Expr>, s2': seq<Expr>)
    requires Survives(op, s1, s1') && Survives(op, s2, s2')
    ensures Survives(op, s1 + s2, s1' + s2')
  {
    forall i | 0 <= i < |s1' + s2'| ensures (s1' + s2')[i] == Neutral(op) || (s1' + s2')[i] in s1 + s2 {
      assert (s1' + s2')[i] == if i < |s1'| then s1'[i] else s2'[i - |s1'|];
    }
  }

  lemma {:induction false} SurvivesOn(op: Op, s: seq<Expr>, t: seq<Expr>, u: seq<Expr>)
    requires Survives(op, s, t) && Survives(op, t, u)
    ensures Survives(op, s, u)
  {
  }

  /** One part of a level walks along the other level, and then the other part along what is left of it. */
  lemma {:induction false} WalkedTwice(op: Op, s1: seq<Expr>, s2: seq<Expr>, t: seq<Expr>, s1': seq<Expr>,
                                       t1: seq<Expr>, s2': seq<Expr>, t2: seq<Expr>, n: nat)
    requires Below(s1, n) && Below(s2, n) && Below(t, n) && Below(s1', n) && Below(t1, n) && Below(s2', n)
    requires Below(t2, n) && Walked(op, s1, t, s1', t1, n) && Walked(op, s2, t1, s2', t2, n)
    ensures Below(s1 + s2, n) && Below(s1' + s2', n) && Walked(op, s1 + s2, t, s1' + s2', t2, n)
  {
    hide Same, Count, Survives, Apart;
    ApartLater(op, s1', t1, t2);
    ApartConcat(op, s1', s2', t2);
    SurvivesConcat(op, s1, s2, s1', s2');
    SurvivesOn(op, t, t1, t2);
    BelowConcat(s1, s2, n);
    BelowConcat(s1', s2', n);
    forall z | Left(op, z, n)
      ensures Count(z, s1' + s2', n) - Count(z, t2, n) == Count(z, s1 + s2, n) - Count(z, t, n)
    {
      CountConcat(z, s1, s2, n);
      CountConcat(z, s1', s2', n);
    }
  }

  lemma {:induction false} BelowConcat(s: seq<Expr>, t: seq<Expr>, n: nat)
    requires Below(s, n) && Below(t, n)
    ensures Below(s + t, n)
  {
  }

  lemma {:induction false} WalkedSwapped(op: Op, s: seq<Expr>, t: seq<Expr>, s': seq<Expr>, t': seq<Expr>, n: nat)
    requires Below(s, n) && Below(t, n) && Below(s', n) && Below(t', n) && Walked(op, s, t, s', t', n)
    ensures Walked(op, t, s, t', s', n)
  {
    hide Same, Count, Survives;
    forall i, j | 0 <= i < |t'| && 0 <= j < |s'| && t'[i] != Neutral(op) && s'[j] != Neutral(op)
      ensures !Same(t'[i], s'[j])
    {
      if Same(t'[i], s'[j]) {
        SameSymmetric(t'[i], s'[j]);
      }
    }
    forall z | Left(op, z, n) ensures Count(z, t', n) - Count(z, s', n) == Count(z, t, n) - Count(z, s, n) {
      assert Count(z, s', n) - Count(z, t', n) == Count(z, s, n) - Count(z, t, n);
    }
  }

  /** Two operands that are the same are taken, and two others are left. */
  lemma {:induction false} WalkedLeaf(op: Op, x: Expr, y: Expr, n: nat)
    requires Level(op, [x], n) && Level(op, [y], n) && n >= 2 && Below([x], n) && Below([y], n)
    ensures if x != Neutral(op) && Same(x, y)
            then Below([Neutral(op)], n) && Walked(op, [x], [y], [Neutral(op)], [Neutral(op)], n)
            else Walked(op, [x], [y], [x], [y], n)
  {
    hide Same, Count;
    assert [x][0] == x && [y][0] == y;
    if x != Neutral(op) && Same(x, y) {
      forall z | Left(op, z, n)
        ensures Count(z, [Neutral(op)], n) - Count(z, [Neutral(op)], n) == Count(z, [x], n) - Count(z, [y], n)
      {
        SameSymmetric(x, y);
        CountOne(z, x, n);
        CountOne(z, y, n);
        if Same(z, x) {
          SameTransitive(z, x, y, n);
        }
        if Same(z, y) {
          SameTransitive(z, y, x, n);
        }
      }
    }
  }

  lemma {:induction false} CountOne(z: Expr, x: Expr, n: nat)
    requires Size(z) < n && Size(x) < n
    ensures Below([x], n) && Count(z, [x], n) == if Same(z, x) then 1 else 0
  {
    hide Same;
    assert [x][1..] == [];
  }

  // ----- what the comparison decides -----

  /** Walking along two levels takes operands that are the same, one for one, until none are left. */
  lemma {:induction false} WalkTakes(op: Op, x: Expr, y: Expr, n: nat)
    requires n >= 2 && Level(op, Operands(op, x), n) && Level(op, Operands(op, y), n)
    requires Below(Operands(op, x), n) && Below(Operands(op, y), n)
    ensures var r := ElimEq1(op, x, y); var s', t' := Operands(op, r.e1), Operands(op, r.e2);
            && Level(op, s', n) && Level(op, t', n) && Below(s', n) && Below(t', n)
            && Walked(op, Operands(op, x), Operands(op, y), s', t', n)
            && (IsOp(op, x) <==> IsOp(op, r.e1)) && (IsOp(op, y) <==> IsOp(op, r.e2))
    decreases n, 0, Size(x) + Size(y)
  {
    hide Level, Below, Walked, ExprEq;
    if IsOp(op, x) {
      LevelParts(op, x.left, x.right, n);
      var a := ElimEq1(op, x.left, y);
      WalkTakes(op, x.left, y, n);
      WalkTakes(op, x.right, a.e2, n);
      var b := ElimEq1(op, x.right, a.e2);
      WalkedTwice(op, Operands(op, x.left), Operands(op, x.right), Operands(op, y), Operands(op, a.e1),
                  Operands(op, a.e2), Operands(op, b.e1), Operands(op, b.e2), n);
      LevelConcat(op, Operands(op, a.e1), Operands(op, b.e1), n);
    } else if IsOp(op, y) {
      LevelParts(op, y.left, y.right, n);
      var a := ElimEq1(op, x, y.left);
      WalkTakes(op, x, y.left, n);
      WalkTakes(op, a.e1, y.right, n);
      var b := ElimEq1(op, a.e1, y.right);
      var s, s1, s2 := Operands(op, x), Operands(op, a.e1), Operands(op, b.e1);
      var t1, t2, t1', t2' := Operands(op, y.left), Operands(op, y.right), Operands(op, a.e2), Operands(op, b.e2);
      WalkedSwapped(op, s, t1, s1, t1', n);
      WalkedSwapped(op, s1, t2, s2, t2', n);
      WalkedTwice(op, t1, t2, s, t1', s1, t2', s2, n);
      WalkedSwapped(op, t1 + t2, s, t1' + t2', s2, n);
      LevelConcat(op, t1', t2', n);
    } else {
      LeafTakes(op, x, y, n);
    }
  }

  lemma {:induction false} LevelParts(op: Op, l: Expr, r: Expr, n: nat)
    requires Level(op, Operands(op, Bin(op, l, r)), n) && Below(Operands(op, Bin(op, l, r)), n)
    ensures Level(op, Operands(op, l), n) && Below(Operands(op, l), n)
    ensures Level(op, Operands(op, r), n) && Below(Operands(op, r), n)
    ensures Operands(op, Bin(op, l, r)) == Operands(op, l) + Operands(op, r)
  {
    var s, t := Operands(op, l), Operands(op, r);
    assert forall i :: 0 <= i < |s| ==> s[i] == (s + t)[i];
    assert forall i :: 0 <= i < |t| ==> t[i] == (s + t)[|s| + i];
  }

  lemma {:induction false} LeafTakes(op: Op, x: Expr, y: Expr, n: nat)
    requires n >= 2 && !IsOp(op, x) && !IsOp(op, y) && Level(op, [x], n) && Level(op, [y], n)
    requires Below([x], n) && Below([y], n)
    ensures var r := ElimEq1(op, x, y);
            && Level(op, [r.e1], n) && Level(op, [r.e2], n) && Below([r.e1], n) && Below([r.e2], n)
            && !IsOp(op, r.e1) && !IsOp(op, r.e2) && Walked(op, [x], [y], [r.e1], [r.e2], n)
    decreases n, 0, 0
  {
    hide Same, Walked;
    WalkedLeaf(op, x, y, n);
    assert [x][0] == x && [y][0] == y;
    if x == Neutral(op) {
      assert ElimEq1(op, x, y) == Pair(x, y, 0);
    } else if y == Neutral(op) {
      NeutralApart(op, x);
    } else {
      ExprEqUpToOrder(x, y);
    }
  }

  lemma {:induction false} NeutralApart(op: Op, x: Expr)
    requires x != Neutral(op)
    ensures !ExprEq(x, Neutral(op)) && !Same(x, Neutral(op))
  {
  }

  /** Two expressions without y and n as operands compare equal if and only if they are the same up to order. */
  lemma {:induction false} ExprEqUpToOrder(e1: Expr, e2: Expr)
    requires Free(e1) && Free(e2)
    ensures ExprEq(e1, e2) <==> Same(e1, e2)
    decreases Larger(Size(e1), Size(e2)), 1, 0
  {
    match e1
    case Not(x) =>
      if e2.Not? {
        ExprEqUpToOrder(x, e2.arg);
      }
    case Bin(op, _, _) =>
      if IsOp(op, e2) {
        var n := Larger(Size(e1), Size(e2));
        FreeLevels(op, e1, e2);
        WalkTakes(op, e1, e2, n);
        Decided(op, e1, e2, n);
      }
    case _ =>
  }

  lemma {:induction false} FreeLevels(op: Op, e1: Expr, e2: Expr)
    requires Free(e1) && Free(e2) && IsOp(op, e1) && IsOp(op, e2)
    ensures var n := Larger(Size(e1), Size(e2)); var s, t := Operands(op, e1), Operands(op, e2);
            && n >= 2 && Level(op, s, n) && Level(op, t, n) && Below(s, n) && Below(t, n)
            && AllLeft(op, s, n) && AllLeft(op, t, n)
  {
    FreeLevel(op, e1);
    FreeLevel(op, e2);
    var n := Larger(Size(e1), Size(e2));
    LeftLevel(op, Operands(op, e1), Size(e1), n);
    LeftLevel(op, Operands(op, e2), Size(e2), n);
  }

  predicate AllNeutral(op: Op, s: seq<Expr>) { forall i :: 0 <= i < |s| ==> s[i] == Neutral(op) }

  lemma {:induction false} NeutralConcat(op: Op, s: seq<Expr>, t: seq<Expr>)
    ensures AllNeutral(op, s + t) <==> AllNeutral(op, s) && AllNeutral(op, t)
  {
    var st := s + t;
    if AllNeutral(op, st) {
      assert forall i :: 0 <= i < |s| ==> s[i] == st[i];
      assert forall i :: 0 <= i < |t| ==> t[i] == st[|s| + i];
    } else if AllNeutral(op, s) && AllNeutral(op, t) {
      assert forall i :: 0 <= i < |st| ==> st[i] == if i < |s| then s[i] else t[i - |s|];
    }
  }

  /** A level of which everything has been taken is neutral; otherwise a symbol can only remain as an operand. */
  lemma {:induction false} LevelReduces(op: Op, e: Expr, n: nat)
    requires Level(op, Operands(op, e), n) && Below(Operands(op, e), n)
    ensures AllNeutral(op, Operands(op, e)) <==> ElimYn(e) == Neutral(op)
    ensures ElimYn(e).Symbol? ==> ElimYn(e) in Operands(op, e)
    ensures IsConstant(ElimYn(e)) ==> ElimYn(e) == Neutral(op)
  {
    hide Level, AllNeutral;
    if IsOp(op, e) {
      LevelParts(op, e.left, e.right, n);
      NeutralConcat(op, Operands(op, e.left), Operands(op, e.right));
      LevelReduces(op, e.left, n);
      LevelReduces(op, e.right, n);
    } else {
      OperandReduces(op, e, n);
    }
  }

  lemma {:induction false} OperandReduces(op: Op, e: Expr, n: nat)
    requires !IsOp(op, e) && Level(op, [e], n)
    ensures ElimYn(e) == e && (AllNeutral(op, [e]) <==> e == Neutral(op))
    ensures IsConstant(e) ==> e == Neutral(op)
  {
    assert [e][0] == e;
    if e != Neutral(op) {
      FreeInner(e);
      InnerStays(e);
    }
  }

  lemma {:induction false} ExprEqOfLevels(op: Op, e1: Expr, e2: Expr)
    requires IsOp(op, e1) && IsOp(op, e2)
    requires var r := ElimEq1(op, e1, e2); IsOp(op, r.e1) && IsOp(op, r.e2)
    ensures var r := ElimEq1(op, e1, e2); ExprEq(e1, e2) <==> ElimYn(r.e1).Symbol? && ElimYn(r.e1) == ElimYn(r.e2)
  {
  }

  /** So the two levels compare equal exactly when nothing is left, and that is when they have the same operands. */
  lemma {:induction false} Decided(op: Op, e1: Expr, e2: Expr, n: nat)
    requires IsOp(op, e1) && IsOp(op, e2) && n >= 2
    requires var s, t := Operands(op, e1), Operands(op, e2);
             AllLeft(op, s, n) && AllLeft(op, t, n) && Below(s, n) && Below(t, n)
    requires var r := ElimEq1(op, e1, e2); var s', t' := Operands(op, r.e1), Operands(op, r.e2);
             && Level(op, s', n) && Level(op, t', n) && Below(s', n) && Below(t', n)
             && Walked(op, Operands(op, e1), Operands(op, e2), s', t', n) && IsOp(op, r.e1) && IsOp(op, r.e2)
    ensures ExprEq(e1, e2) <==> Same(e1, e2)
  {
    hide Level, Below, Walked, Same, Count, ExprEq, AllLeft, AllNeutral, ElimYn, ElimEq1, Operands;
    var r := ElimEq1(op, e1, e2);
    var s, t, s', t' := Operands(op, e1), Operands(op, e2), Operands(op, r.e1), Operands(op, r.e2);
    LevelReduces(op, r.e1, n);
    LevelReduces(op, r.e2, n);
    ExprEqOfLevels(op, e1, e2);
    if ExprEq(e1, e2) {
      NothingCommon(op, s, t, s', t', n, ElimYn(r.e1));
      AllTaken(op, s, t, s', t', n);
      LevelsSame(op, e1, e2, n);
    }
    if Same(e1, e2) {
      SameLevels(op, e1, e2, n);
      NothingLeft(op, s, t, s', t', n);
    }
  }

  /** No operand is left on both sides. */
  lemma {:induction false} NothingCommon(op: Op, s: seq<Expr>, t: seq<Expr>, s': seq<Expr>, t': seq<Expr>, n: nat,
                                         x: Expr)
    requires Below(s, n) && Below(t, n) && Below(s', n) && Below(t', n) && Walked(op, s, t, s', t', n)
    ensures x in s' && x in t' ==> x == Neutral(op)
  {
    hide Same, Count;
    SameReflexive(x);
  }

  lemma {:induction false} CountNeutral(op: Op, x: Expr, s: seq<Expr>, n: nat)
    requires Left(op, x, n) && Below(s, n) && AllNeutral(op, s)
    ensures Count(x, s, n) == 0
  {
    hide Count;
    Counted(x, s, n);
    NeutralApart(op, x);
  }

  lemma {:induction false} AllTaken(op: Op, s: seq<Expr>, t: seq<Expr>, s': seq<Expr>, t': seq<Expr>, n: nat)
    requires Below(s, n) && Below(t, n) && Below(s', n) && Below(t', n) && Walked(op, s, t, s', t', n)
    requires AllLeft(op, s, n) && AllLeft(op, t, n) && AllNeutral(op, s') && AllNeutral(op, t')
    ensures forall i :: 0 <= i < |s| ==> Count(s[i], s, n) == Count(s[i], t, n)
    ensures forall i :: 0 <= i < |t| ==> Count(t[i], s, n) == Count(t[i], t, n)
  {
    hide Same, Count, Survives, Apart, AllNeutral;
    forall z | Left(op, z, n) ensures Count(z, s, n) == Count(z, t, n) {
      CountNeutral(op, z, s', n);
      CountNeutral(op, z, t', n);
      assert Count(z, s', n) - Count(z, t', n) == Count(z, s, n) - Count(z, t, n);
    }
  }

  lemma {:induction false} NothingLeft(op: Op, s: seq<Expr>, t: seq<Expr>, s': seq<Expr>, t': seq<Expr>, n: nat)
    requires Below(s, n) && Below(t, n) && Below(s', n) && Below(t', n) && Walked(op, s, t, s', t', n)
    requires Level(op, s', n) && Level(op, t', n)
    requires forall i :: 0 <= i < |s| ==> Count(s[i], s, n) == Count(s[i], t, n)
    requires forall i :: 0 <= i < |t| ==> Count(t[i], s, n) == Count(t[i], t, n)
    ensures AllNeutral(op, s') && AllNeutral(op, t')
  {
    hide Same, Count;
    forall i | 0 <= i < |s'| ensures s'[i] == Neutral(op) {
      if s'[i] != Neutral(op) {
        NoneLeft(op, s, t, s', t', n, i);
      }
    }
    WalkedSwapped(op, s, t, s', t', n);
    forall i | 0 <= i < |t'| ensures t'[i] == Neutral(op) {
      if t'[i] != Neutral(op) {
        NoneLeft(op, t, s, t', s', n, i);
      }
    }
  }

  /** An operand that is left and occurs as often on both sides would have met its like. */
  lemma {:induction false} NoneLeft(op: Op, s: seq<Expr>, t: seq<Expr>, s': seq<Expr>, t': seq<Expr>, n: nat, i: nat)
    requires Below(s, n) && Below(t, n) && Below(s', n) && Below(t', n) && Walked(op, s, t, s', t', n)
    requires Level(op, s', n) && i < |s'| && s'[i] != Neutral(op)
    ensures exists k :: 0 <= k < |s| && s[k] == s'[i] && Count(s[k], s, n) != Count(s[k], t, n)
  {
    hide Same, Count;
    var x := s'[i];
    SameReflexive(x);
    Counted(x, s', n);
    Counted(x, t', n);
    NeutralApart(op, x);
    var k :| 0 <= k < |s| && s[k] == x;
    assert Left(op, x, n);
    assert Count(x, s', n) - Count(x, t', n) == Count(x, s, n) - Count(x, t, n);
  }
}
