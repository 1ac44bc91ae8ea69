/**
 `expr_eliminate_dups`: repeatedly walk one && or || level against itself,
 joining pairs of operands, until a pass joins nothing.

 The source hands the same tree to the walk twice, as `&e, &e`. A slot of that
 tree is named here by its path from the root, so two pointers alias exactly
 when their paths are equal.
 */
module Dups {
  import opened Basics
  import opened Expr
  import opened Equality

  // ----- joining two operands -----

  predicate Joinable(e: Expr) { e.Symbol? || e.Not? || (e.Comp? && (e.rel == Eq || e.rel == Ne)) }

  /** The symbol the first operand is about; a negation may wrap a comparison. */
  function Subject1(e: Expr): Option<Sym>
    requires Joinable(e)
  {
    match e
    case Symbol(s) => Some(s)
    case Comp(_, l, _) => Some(l)
    case Not(Symbol(s)) => Some(s)
    case Not(Comp(r, l, _)) => if r == Eq || r == Ne then Some(l) else None
    case Not(_) => None
  }

  /** The symbol the second operand is about; a negation must wrap a symbol. */
  function Subject2(e: Expr): Option<Sym>
    requires Joinable(e)
  {
    match e
    case Symbol(s) => Some(s)
    case Comp(_, l, _) => Some(l)
    case Not(Symbol(s)) => Some(s)
    case Not(_) => None
  }

  /** The common bool or tristate subject of two operands that may be joined. */
  function Subject(e1: Expr, e2: Expr): Option<Sym> {
    if !Joinable(e1) || !Joinable(e2) then None
    else
      var s1, s2 := Subject1(e1), Subject2(e2);
      if s1.Some? && s1 == s2 && s1.value.IsLogic() then s1 else None
  }

  predicate Is(r: Rel, c: Sym, e: Expr) { e.Comp? && e.rel == r && e.rhs == c }

  /** The two operands are `a r b` and `a r c`, in either order. */
  predicate Both(r: Rel, b: Sym, c: Sym, e1: Expr, e2: Expr) {
    (Is(r, b, e1) && Is(r, c, e2)) || (Is(r, c, e1) && Is(r, b, e2))
  }

  /** One operand is a symbol and the other compares it with c. */
  predicate SymbolAnd(r: Rel, c: Sym, e1: Expr, e2: Expr) {
    (e1.Symbol? && Is(r, c, e2)) || (e2.Symbol? && Is(r, c, e1))
  }

  predicate Negated(e1: Expr, e2: Expr) { e1.Not? && e1.arg.Symbol? && e2.Symbol? }

  /** `expr_join_or` */
  function JoinOr(e1: Expr, e2: Expr): Option<Expr> {
    if ExprEq(e1, e2) then Some(e1)
    else if Subject(e1, e2).None? then None
    else
      var a := Subject(e1, e2).value;
      if a.Type() == Tristate && Both(Eq, SymYes, SymMod, e1, e2) then Some(Comp(Ne, a, SymNo))
      else if a.Type() == Tristate && Both(Eq, SymYes, SymNo, e1, e2) then Some(Comp(Ne, a, SymMod))
      else if a.Type() == Tristate && Both(Eq, SymMod, SymNo, e1, e2) then Some(Comp(Ne, a, SymYes))
      else if a.Type() == Boolean && (Negated(e1, e2) || Negated(e2, e1)) then Some(Symbol(SymYes))
      else None
  }

  /** `expr_join_and` */
  function JoinAnd(e1: Expr, e2: Expr): Option<Expr> {
    if ExprEq(e1, e2) then Some(e1)
    else if Subject(e1, e2).None? then None
    else
      var a := Subject(e1, e2).value;
      if SymbolAnd(Eq, SymYes, e1, e2) then Some(Comp(Eq, a, SymYes))
      else if SymbolAnd(Ne, SymNo, e1, e2) then Some(Symbol(a))
      else if SymbolAnd(Ne, SymMod, e1, e2) then Some(Comp(Eq, a, SymYes))
      else if a.Type() != Tristate then None
      else if e1.Comp? && e1.rel == Eq && e2.Comp? && e2.rel == Ne && e2.rhs.IsConst() && e1.rhs.IsConst() then
        Some(if e1.rhs != e2.rhs then Comp(Eq, a, e1.rhs) else Symbol(SymNo))
      else if e1.Comp? && e1.rel == Ne && e2.Comp? && e2.rel == Eq && e1.rhs.IsConst() && e2.rhs.IsConst() then
        Some(if e2.rhs != e1.rhs then Comp(Eq, a, e2.rhs) else Symbol(SymNo))
      else if Both(Ne, SymYes, SymNo, e1, e2) then Some(Comp(Eq, a, SymMod))
      else if Both(Ne, SymYes, SymMod, e1, e2) then Some(Comp(Eq, a, SymNo))
      else if Both(Ne, SymMod, SymNo, e1, e2) then Some(Comp(Eq, a, SymYes))
      else None
  }

  function Join(op: Op, e1: Expr, e2: Expr): Option<Expr> {
    if op == OrOp then JoinOr(e1, e2) else JoinAnd(e1, e2)
  }

  /** Under n, m and y a logic symbol is decided by its comparisons with them. */
  lemma {:induction false} Decided(a: Sym, v: Valuation)
    requires WellTyped(v) && a.IsLogic()
    ensures v.cmp(a, SymYes) == 0 <==> v.tri(a) == YES
    ensures v.cmp(a, SymMod) == 0 <==> v.tri(a) == MOD
    ensures v.cmp(a, SymNo) == 0 <==> v.tri(a) == NO
    ensures a.Type() == Boolean ==> v.tri(a) != MOD
    ensures v.tri(SymYes) == YES && v.tri(SymMod) == MOD && v.tri(SymNo) == NO
  {
  }

  lemma {:induction false} JoinOrSound(e1: Expr, e2: Expr, v: Valuation)
    requires WellTyped(v) && JoinOr(e1, e2).Some?
    ensures Eval(JoinOr(e1, e2).value, v) == TriOr(Eval(e1, v), Eval(e2, v))
  {
    if ExprEq(e1, e2) {
      ExprEqSound(e1, e2, v);
    } else {
      var a := Subject(e1, e2).value;
      Decided(a, v);
      if a.Type() == Tristate {
        assert e1.Comp? && e2.Comp? && e1.lhs == a && e2.lhs == a;
      }
    }
  }

  /** One operand says that the symbol equals a constant, the other that it does not equal another; it equals both. */
  predicate Clash(e1: Expr, e2: Expr, v: Valuation) {
    e1.Comp? && e2.Comp? && e1.lhs == e2.lhs && e1.lhs.Type() == Tristate
    && ((e1.rel == Eq && e2.rel == Ne) || (e1.rel == Ne && e2.rel == Eq))
    && e1.rhs.IsConst() && e2.rhs.IsConst() && e1.rhs != e2.rhs
    && v.cmp(e1.lhs, e1.rhs) == 0 && v.cmp(e2.lhs, e2.rhs) == 0
  }

  /** `expr_join_and` keeps the value of the pair if and only if the two do not clash. */
  lemma {:induction false} JoinAndExact(e1: Expr, e2: Expr, v: Valuation)
    requires WellTyped(v) && JoinAnd(e1, e2).Some?
    ensures Eval(JoinAnd(e1, e2).value, v) == TriAnd(Eval(e1, v), Eval(e2, v)) <==> !Clash(e1, e2, v)
  {
    hide ExprEq, WellTyped;
    if ExprEq(e1, e2) {
      ExprEqSound(e1, e2, v);
    } else if e1.Comp? && e2.Comp? {
      JoinComparisonsExact(e1, e2, v);
    } else {
      Decided(Subject(e1, e2).value, v);
    }
  }

  lemma {:induction false} JoinComparisonsExact(e1: Expr, e2: Expr, v: Valuation)
    requires WellTyped(v) && e1.Comp? && e2.Comp? && !ExprEq(e1, e2) && JoinAnd(e1, e2).Some?
    ensures Eval(JoinAnd(e1, e2).value, v) == TriAnd(Eval(e1, v), Eval(e2, v)) <==> !Clash(e1, e2, v)
  {
    hide ExprEq, WellTyped;
    var a := Subject(e1, e2).value;
    assert e1.lhs == a && e2.lhs == a;
    Decided(a, v);
    assert ExprEq(e1, e2) == (e1 == e2) by { ComparisonsEq(e1, e2); }
  }

  lemma {:induction false} ComparisonsEq(e1: Expr, e2: Expr)
    requires e1.Comp?
    ensures ExprEq(e1, e2) == (e1 == e2)
  {
  }

  lemma {:induction false} PlainIsNoClash(e1: Expr, e2: Expr, v: Valuation)
    requires Plain(e1, v) && Plain(e2, v) && WellTyped(v)
    ensures !Clash(e1, e2, v)
  {
  }

  /** A join keeps the value of the pair. */
  lemma {:induction false} JoinSound(op: Op, e1: Expr, e2: Expr, v: Valuation)
    requires WellTyped(v) && Plain(e1, v) && Plain(e2, v) && Join(op, e1, e2).Some?
    ensures Eval(Join(op, e1, e2).value, v) == Apply(op, Eval(e1, v), Eval(e2, v))
  {
    if op == OrOp {
      JoinOrSound(e1, e2, v);
    } else {
      JoinAndExact(e1, e2, v);
      PlainIsNoClash(e1, e2, v);
    }
  }

  /** A join leaves room for the neutral operand it pays for, and is no new level. */
  lemma {:induction false} JoinFits(op: Op, e1: Expr, e2: Expr)
    requires Join(op, e1, e2).Some?
    ensures var j := Join(op, e1, e2).value;
            Size(j) < Size(e1) + Size(e2) && (!IsOp(op, e1) ==> !IsOp(op, j))
  {
  }

  // ----- slots of a tree -----

  /** A slot: false goes to the left operand, true to the right one. */
  type Path = seq<bool>

  function Child(e: Expr, right: bool): Expr
    requires e.Bin?
  {
    if right then e.right else e.left
  }

  predicate HasSlot(t: Expr, p: Path)
  {
    p == [] || (t.Bin? && HasSlot(Child(t, p[0]), p[1..]))
  }

  /** What the slot p holds. */
  function At(t: Expr, p: Path): Expr
    requires HasSlot(t, p)
  {
    if p == [] then t else At(Child(t, p[0]), p[1..])
  }

  /** The tree after storing x into the slot p. */
  function Put(t: Expr, p: Path, x: Expr): (r: Expr)
    requires HasSlot(t, p)
    ensures Size(r) == Size(t) - Size(At(t, p)) + Size(x)
    ensures HasSlot(r, p) && At(r, p) == x
  {
    if p == [] then x
    else if p[0] then Bin(t.op, t.left, Put(t.right, p[1..], x))
    else Bin(t.op, Put(t.left, p[1..], x), t.right)
  }

  /** The slot p is on the top `op` level of t: every node above it is an `op`. */
  predicate OnLevel(op: Op, t: Expr, p: Path) {
    p == [] || (IsOp(op, t) && OnLevel(op, Child(t, p[0]), p[1..]))
  }

  lemma {:induction false} OnLevelHasSlot(op: Op, t: Expr, p: Path)
    requires OnLevel(op, t, p)
    ensures HasSlot(t, p)
    ensures p != [] ==> IsOp(op, t) && Size(At(t, p)) < Size(t)
    ensures Size(At(t, p)) <= Size(t)
  {
    if p != [] {
      OnLevelHasSlot(op, Child(t, p[0]), p[1..]);
    }
  }

  lemma {:induction false} OnLevelChild(op: Op, t: Expr, p: Path, right: bool)
    requires OnLevel(op, t, p) && HasSlot(t, p) && IsOp(op, At(t, p))
    ensures OnLevel(op, t, p + [right]) && HasSlot(t, p + [right])
    ensures At(t, p + [right]) == Child(At(t, p), right)
  {
    if p != [] {
      OnLevelChild(op, Child(t, p[0]), p[1..], right);
      assert (p + [right])[1..] == p[1..] + [right];
    } else {
      assert p + [right] == [right];
    }
  }

  /** The number of nodes of the top `op` level, its leaves included. */
  function LevelNodes(op: Op, e: Expr): nat {
    if IsOp(op, e) then LevelNodes(op, e.left) + LevelNodes(op, e.right) + 1 else 1
  }

  function LevelNodesAt(op: Op, t: Expr, p: Path): nat { if HasSlot(t, p) then LevelNodes(op, At(t, p)) else 0 }

  /** The two trees have the same `op` level; only its leaves may differ. */
  predicate SameLevel(op: Op, a: Expr, b: Expr) {
    IsOp(op, a) == IsOp(op, b) &&
    (IsOp(op, a) ==> SameLevel(op, a.left, b.left) && SameLevel(op, a.right, b.right))
  }

  lemma {:induction false} SameLevelSlots(op: Op, a: Expr, b: Expr, p: Path)
    requires SameLevel(op, a, b) && OnLevel(op, a, p)
    ensures OnLevel(op, b, p) && HasSlot(a, p) && HasSlot(b, p)
    ensures SameLevel(op, At(a, p), At(b, p)) && LevelNodes(op, At(a, p)) == LevelNodes(op, At(b, p))
  {
    if p != [] {
      SameLevelSlots(op, Child(a, p[0]), Child(b, p[0]), p[1..]);
    } else {
      SameLevelLeaves(op, a, b);
    }
  }

  lemma {:induction false} SameLevelLeaves(op: Op, a: Expr, b: Expr)
    requires SameLevel(op, a, b)
    ensures LevelNodes(op, a) == LevelNodes(op, b)
  {
    if IsOp(op, a) {
      SameLevelLeaves(op, a.left, b.left);
      SameLevelLeaves(op, a.right, b.right);
    }
  }

  lemma {:induction false} SameLevelTrans(op: Op, a: Expr, b: Expr, c: Expr)
    requires SameLevel(op, a, b) && SameLevel(op, b, c)
    ensures SameLevel(op, a, c)
  {
    if IsOp(op, a) {
      SameLevelTrans(op, a.left, b.left, c.left);
      SameLevelTrans(op, a.right, b.right, c.right);
    }
  }

  lemma {:induction false} SameLevelRefl(op: Op, a: Expr)
    ensures SameLevel(op, a, a)
  {
    if IsOp(op, a) {
      SameLevelRefl(op, a.left);
      SameLevelRefl(op, a.right);
    }
  }

  lemma {:induction false} PutLeaf(op: Op, t: Expr, p: Path, x: Expr)
    requires OnLevel(op, t, p) && HasSlot(t, p) && !IsOp(op, At(t, p)) && !IsOp(op, x)
    ensures SameLevel(op, t, Put(t, p, x))
  {
    if p != [] {
      PutLeaf(op, Child(t, p[0]), p[1..], x);
      SameLevelRefl(op, Child(t, !p[0]));
    }
  }

  /** Storing into one leaf leaves every other leaf alone. */
  lemma {:induction false} PutElsewhere(op: Op, t: Expr, p: Path, q: Path, x: Expr)
    requires OnLevel(op, t, p) && OnLevel(op, t, q) && HasSlot(t, p) && HasSlot(t, q) && p != q
    requires !IsOp(op, At(t, p)) && !IsOp(op, At(t, q))
    ensures HasSlot(Put(t, p, x), q) && At(Put(t, p, x), q) == At(t, q)
  {
    assert p != [] && q != [];
    assert p == [p[0]] + p[1..] && q == [q[0]] + q[1..];
    if p[0] == q[0] {
      PutElsewhere(op, Child(t, p[0]), p[1..], q[1..], x);
    }
  }

  // ----- one pass -----

  datatype Pass = Pass(tree: Expr, count: nat)

  /** Both slots are leaves of the level: the body of `expr_eliminate_dups1` after its descent. */
  function JoinSlots(op: Op, t: Expr, p1: Path, p2: Path): (r: Pass)
    requires OnLevel(op, t, p1) && OnLevel(op, t, p2) && HasSlot(t, p1) && HasSlot(t, p2) && p1 != p2
    requires !IsOp(op, At(t, p1)) && !IsOp(op, At(t, p2))
    ensures SameLevel(op, t, r.tree) && Size(r.tree) <= Size(t)
  {
    var j := Join(op, At(t, p1), At(t, p2));
    if j.None? then
      SameLevelRefl(op, t);
      Pass(t, 0)
    else
      var n := Neutral(op);
      JoinFits(op, At(t, p1), At(t, p2));
      PutElsewhere(op, t, p1, p2, n);
      PutLeaf(op, t, p1, n);
      var t1 := Put(t, p1, n);
      SameLevelSlots(op, t, t1, p2);
      PutLeaf(op, t1, p2, j.value);
      SameLevelTrans(op, t, t1, Put(t1, p2, j.value));
      Pass(Put(t1, p2, j.value), 1)
  }

  /** `expr_eliminate_dups1` on the slots p1 and p2 of the tree t. */
  function Dups1(op: Op, t: Expr, p1: Path, p2: Path): (r: Pass)
    requires OnLevel(op, t, p1) && OnLevel(op, t, p2)
    ensures SameLevel(op, t, r.tree) && Size(r.tree) <= Size(t)
    decreases Size(t), LevelNodesAt(op, t, p1), LevelNodesAt(op, t, p2)
  {
    OnLevelHasSlot(op, t, p1);
    OnLevelHasSlot(op, t, p2);
    var e1, e2 := At(t, p1), At(t, p2);
    if IsOp(op, e1) then
      OnLevelChild(op, t, p1, false);
      OnLevelChild(op, t, p1, true);
      var a := Dups1(op, t, p1 + [false], p2);
      SameLevelSlots(op, t, a.tree, p1 + [true]);
      SameLevelSlots(op, t, a.tree, p2);
      var b := Dups1(op, a.tree, p1 + [true], p2);
      SameLevelTrans(op, t, a.tree, b.tree);
      Pass(b.tree, a.count + b.count)
    else if IsOp(op, e2) then
      OnLevelChild(op, t, p2, false);
      OnLevelChild(op, t, p2, true);
      var a := Dups1(op, t, p1, p2 + [false]);
      SameLevelSlots(op, t, a.tree, p1);
      SameLevelSlots(op, t, a.tree, p2 + [true]);
      var b := Dups1(op, a.tree, p1, p2 + [true]);
      SameLevelTrans(op, t, a.tree, b.tree);
      Pass(b.tree, a.count + b.count)
    else if p1 == p2 then
      SameLevelRefl(op, t);
      Pass(t, 0)
    else
      var a := if e1.Bin? then Dups1(e1.op, e1, [], []) else Pass(e1, 0);
      PutLeaf(op, t, p1, a.tree);
      PutElsewhere(op, t, p1, p2, a.tree);
      var t1 := Put(t, p1, a.tree);
      SameLevelSlots(op, t, t1, p2);
      SameLevelSlots(op, t, t1, p1);
      var b := JoinSlots(op, t1, p1, p2);
      SameLevelTrans(op, t, t1, b.tree);
      Pass(b.tree, a.count + b.count)
  }

  /** The descent through the first slot: its two halves, one after the other. */
  lemma {:induction false} Descend1(op: Op, t: Expr, p1: Path, p2: Path) returns (a: Pass, b: Pass)
    requires OnLevel(op, t, p1) && OnLevel(op, t, p2) && HasSlot(t, p1) && IsOp(op, At(t, p1))
    ensures OnLevel(op, t, p1 + [false]) && a == Dups1(op, t, p1 + [false], p2)
    ensures OnLevel(op, a.tree, p1 + [true]) && OnLevel(op, a.tree, p2) && b == Dups1(op, a.tree, p1 + [true], p2)
    ensures Dups1(op, t, p1, p2) == Pass(b.tree, a.count + b.count)
    ensures Size(a.tree) <= Size(t)
    ensures HasSlot(t, p1 + [false]) && LevelNodes(op, At(t, p1 + [false])) < LevelNodes(op, At(t, p1))
    ensures HasSlot(a.tree, p1 + [true]) && LevelNodes(op, At(a.tree, p1 + [true])) < LevelNodes(op, At(t, p1))
  {
    OnLevelHasSlot(op, t, p1);
    OnLevelHasSlot(op, t, p2);
    OnLevelChild(op, t, p1, false);
    OnLevelChild(op, t, p1, true);
    a := Dups1(op, t, p1 + [false], p2);
    SameLevelSlots(op, t, a.tree, p1 + [true]);
    SameLevelSlots(op, t, a.tree, p2);
    b := Dups1(op, a.tree, p1 + [true], p2);
  }

  /** The descent through the second slot, once the first is a leaf. */
  lemma {:induction false} Descend2(op: Op, t: Expr, p1: Path, p2: Path) returns (a: Pass, b: Pass)
    requires OnLevel(op, t, p1) && OnLevel(op, t, p2) && HasSlot(t, p1) && HasSlot(t, p2)
    requires !IsOp(op, At(t, p1)) && IsOp(op, At(t, p2))
    ensures OnLevel(op, t, p2 + [false]) && a == Dups1(op, t, p1, p2 + [false])
    ensures OnLevel(op, a.tree, p1) && OnLevel(op, a.tree, p2 + [true]) && b == Dups1(op, a.tree, p1, p2 + [true])
    ensures Dups1(op, t, p1, p2) == Pass(b.tree, a.count + b.count)
    ensures Size(a.tree) <= Size(t)
    ensures HasSlot(a.tree, p1) && LevelNodes(op, At(a.tree, p1)) == LevelNodes(op, At(t, p1))
    ensures HasSlot(t, p2 + [false]) && LevelNodes(op, At(t, p2 + [false])) < LevelNodes(op, At(t, p2))
    ensures HasSlot(a.tree, p2 + [true]) && LevelNodes(op, At(a.tree, p2 + [true])) < LevelNodes(op, At(t, p2))
  {
    OnLevelHasSlot(op, t, p1);
    OnLevelHasSlot(op, t, p2);
    OnLevelChild(op, t, p2, false);
    OnLevelChild(op, t, p2, true);
    a := Dups1(op, t, p1, p2 + [false]);
    SameLevelSlots(op, t, a.tree, p1);
    SameLevelSlots(op, t, a.tree, p2 + [true]);
    b := Dups1(op, a.tree, p1, p2 + [true]);
  }

  // ----- what a pass keeps -----

  /** A property of expressions that is one of their parts, and that joining respects. */
  ghost predicate Respected(p: Expr -> bool) {
    && p(Symbol(SymYes)) && p(Symbol(SymNo))
    && (forall op, l, r :: p(Bin(op, l, r)) <==> p(l) && p(r))
    && (forall op, e1, e2 :: p(e1) && p(e2) && Join(op, e1, e2).Some? ==> p(Join(op, e1, e2).value))
  }

  lemma {:induction false} ElimYnKeeps(p: Expr -> bool, e: Expr)
    requires Respected(p) && p(e)
    ensures p(ElimYn(e))
  {
    if e.Bin? {
      assert p(Bin(e.op, e.left, e.right));
      ElimYnKeeps(p, e.left);
      ElimYnKeeps(p, e.right);
      assert p(Bin(e.op, ElimYn(e.left), ElimYn(e.right)));
    }
  }

  lemma {:induction false} PutKeeps(p: Expr -> bool, t: Expr, slot: Path, x: Expr)
    requires Respected(p) && HasSlot(t, slot) && p(t) && p(x)
    ensures p(Put(t, slot, x)) && p(At(t, slot))
  {
    if slot != [] {
      assert p(Bin(t.op, t.left, t.right));
      PutKeeps(p, Child(t, slot[0]), slot[1..], x);
    }
  }

  lemma {:induction false} JoinSlotsKeeps(p: Expr -> bool, op: Op, t: Expr, p1: Path, p2: Path)
    requires OnLevel(op, t, p1) && OnLevel(op, t, p2) && HasSlot(t, p1) && HasSlot(t, p2) && p1 != p2
    requires !IsOp(op, At(t, p1)) && !IsOp(op, At(t, p2)) && Respected(p) && p(t)
    ensures p(JoinSlots(op, t, p1, p2).tree)
  {
    var j, n := Join(op, At(t, p1), At(t, p2)), Neutral(op);
    PutKeeps(p, t, p1, n);
    PutKeeps(p, t, p2, n);
    if j.Some? {
      var t1 := Put(t, p1, n);
      PutElsewhere(op, t, p1, p2, n);
      PutLeaf(op, t, p1, n);
      SameLevelSlots(op, t, t1, p2);
      PutKeeps(p, t1, p2, j.value);
    }
  }

  lemma {:induction false} Dups1Keeps(p: Expr -> bool, op: Op, t: Expr, p1: Path, p2: Path)
    requires OnLevel(op, t, p1) && OnLevel(op, t, p2) && Respected(p) && p(t)
    ensures p(Dups1(op, t, p1, p2).tree)
    decreases Size(t), LevelNodesAt(op, t, p1), LevelNodesAt(op, t, p2)
  {
    OnLevelHasSlot(op, t, p1);
    OnLevelHasSlot(op, t, p2);
    var e1, e2 := At(t, p1), At(t, p2);
    if IsOp(op, e1) {
      var a, b := Descend1(op, t, p1, p2);
      Dups1Keeps(p, op, t, p1 + [false], p2);
      Dups1Keeps(p, op, a.tree, p1 + [true], p2);
    } else if IsOp(op, e2) {
      var a, b := Descend2(op, t, p1, p2);
      Dups1Keeps(p, op, t, p1, p2 + [false]);
      Dups1Keeps(p, op, a.tree, p1, p2 + [true]);
    } else if p1 != p2 {
      var a := if e1.Bin? then Dups1(e1.op, e1, [], []) else Pass(e1, 0);
      PutKeeps(p, t, p1, Neutral(op));
      if e1.Bin? {
        Dups1Keeps(p, e1.op, e1, [], []);
      }
      PutLeaf(op, t, p1, a.tree);
      PutElsewhere(op, t, p1, p2, a.tree);
      var t1 := Put(t, p1, a.tree);
      SameLevelSlots(op, t, t1, p2);
      SameLevelSlots(op, t, t1, p1);
      PutKeeps(p, t, p1, a.tree);
      JoinSlotsKeeps(p, op, t1, p1, p2);
    }
  }

  /** Joining adds no comparison with a constant other than y, m and n. */
  lemma {:induction false} PlainRespected(v: Valuation)
    ensures Respected((e: Expr) => Plain(e, v))
  {
  }

  // ----- a pass keeps the value -----

  /** The level is one big && or ||: a leaf contributes its value to the rest. */
  lemma {:induction false} PutValue(op: Op, t: Expr, p: Path, x: Expr, v: Valuation)
    requires WellTyped(v) && OnLevel(op, t, p) && HasSlot(t, p)
    ensures Eval(Put(t, p, x), v) == Apply(op, Eval(Put(t, p, Neutral(op)), v), Eval(x, v))
  {
    if p != [] {
      PutValue(op, Child(t, p[0]), p[1..], x, v);
      var c := Eval(Put(Child(t, p[0]), p[1..], Neutral(op)), v);
      Reassociate(op, c, Eval(x, v), Eval(Child(t, !p[0]), v));
    }
  }

  lemma {:induction false} Reassociate(op: Op, a: Tri, b: Tri, c: Tri)
    ensures Apply(op, Apply(op, a, b), c) == Apply(op, Apply(op, a, c), b)
    ensures Apply(op, c, Apply(op, a, b)) == Apply(op, Apply(op, c, a), b)
    ensures Apply(op, c, Apply(op, a, b)) == Apply(op, c, Apply(op, b, a))
  {
  }

  lemma {:induction false} PutBack(t: Expr, p: Path)
    requires HasSlot(t, p)
    ensures Put(t, p, At(t, p)) == t
  {
    if p != [] {
      PutBack(Child(t, p[0]), p[1..]);
    }
  }

  lemma {:induction false} JoinSlotsValue(op: Op, t: Expr, p1: Path, p2: Path, v: Valuation)
    requires WellTyped(v) && Plain(t, v)
    requires OnLevel(op, t, p1) && OnLevel(op, t, p2) && HasSlot(t, p1) && HasSlot(t, p2) && p1 != p2
    requires !IsOp(op, At(t, p1)) && !IsOp(op, At(t, p2))
    ensures Eval(JoinSlots(op, t, p1, p2).tree, v) == Eval(t, v)
  {
    var e1, e2 := At(t, p1), At(t, p2);
    var j := Join(op, e1, e2);
    if j.Some? {
      var n := Neutral(op);
      var t1 := Put(t, p1, n);
      PutElsewhere(op, t, p1, p2, n);
      PutLeaf(op, t, p1, n);
      SameLevelSlots(op, t, t1, p2);
      PutBack(t, p1);
      PutValue(op, t, p1, e1, v);
      PutBack(t1, p2);
      PutValue(op, t1, p2, e2, v);
      PutValue(op, t1, p2, j.value, v);
      PlainAt(t, p1, v);
      PlainAt(t, p2, v);
      JoinSound(op, e1, e2, v);
      Reassociate(op, Eval(e1, v), Eval(e2, v), Eval(Put(t1, p2, n), v));
      Reassociate(op, Eval(Put(t1, p2, n), v), Eval(e2, v), Eval(e1, v));
    }
  }

  lemma {:induction false} PlainAt(t: Expr, p: Path, v: Valuation)
    requires HasSlot(t, p) && Plain(t, v)
    ensures Plain(At(t, p), v)
  {
    if p != [] {
      PlainAt(Child(t, p[0]), p[1..], v);
    }
  }

  lemma {:induction false} Dups1Plain(op: Op, t: Expr, p1: Path, p2: Path, v: Valuation)
    requires OnLevel(op, t, p1) && OnLevel(op, t, p2) && Plain(t, v)
    ensures Plain(Dups1(op, t, p1, p2).tree, v)
  {
    PlainRespected(v);
    Dups1Keeps((e: Expr) => Plain(e, v), op, t, p1, p2);
  }

  /** A pass over one tree, given as both arguments, keeps its value. */
  lemma {:induction false} Dups1Value(op: Op, t: Expr, p1: Path, p2: Path, v: Valuation)
    requires WellTyped(v) && Plain(t, v) && OnLevel(op, t, p1) && OnLevel(op, t, p2)
    ensures Eval(Dups1(op, t, p1, p2).tree, v) == Eval(t, v)
    decreases Size(t), LevelNodesAt(op, t, p1), LevelNodesAt(op, t, p2)
  {
    OnLevelHasSlot(op, t, p1);
    OnLevelHasSlot(op, t, p2);
    var e1, e2 := At(t, p1), At(t, p2);
    if IsOp(op, e1) {
      var a, b := Descend1(op, t, p1, p2);
      Dups1Value(op, t, p1 + [false], p2, v);
      Dups1Plain(op, t, p1 + [false], p2, v);
      Dups1Value(op, a.tree, p1 + [true], p2, v);
    } else if IsOp(op, e2) {
      var a, b := Descend2(op, t, p1, p2);
      Dups1Value(op, t, p1, p2 + [false], v);
      Dups1Plain(op, t, p1, p2 + [false], v);
      Dups1Value(op, a.tree, p1, p2 + [true], v);
    } else if p1 != p2 {
      var a := if e1.Bin? then Dups1(e1.op, e1, [], []) else Pass(e1, 0);
      PlainAt(t, p1, v);
      if e1.Bin? {
        Dups1Value(e1.op, e1, [], [], v);
        Dups1Plain(e1.op, e1, [], [], v);
      }
      PlainRespected(v);
      PutKeeps((e: Expr) => Plain(e, v), t, p1, a.tree);
      PutLeaf(op, t, p1, a.tree);
      PutElsewhere(op, t, p1, p2, a.tree);
      var t1 := Put(t, p1, a.tree);
      SameLevelSlots(op, t, t1, p2);
      SameLevelSlots(op, t, t1, p1);
      PutBack(t, p1);
      PutValue(op, t, p1, e1, v);
      PutValue(op, t, p1, a.tree, v);
      JoinSlotsValue(op, t1, p1, p2, v);
    }
  }

  // ----- a pass that joined something shrinks under elimination -----

  /** Elimination finds something to remove. */
  predicate Reducible(e: Expr) { Size(ElimYn(e)) < Size(e) }

  /** The count of a pass is zero when the pass changed nothing, and only if elimination has work after it. */
  predicate Honest(before: Expr, r: Pass) {
    if r.count == 0 then r.tree == before else Reducible(r.tree)
  }

  lemma {:induction false} HonestThen(t: Expr, a: Pass, b: Pass)
    requires Honest(t, a) && Honest(a.tree, b)
    ensures Honest(t, Pass(b.tree, a.count + b.count))
  {
  }

  lemma {:induction false} ReducibleUp(op: Op, t: Expr, p: Path)
    requires OnLevel(op, t, p) && HasSlot(t, p)
    requires Reducible(At(t, p)) || (p != [] && At(t, p) == Neutral(op))
    ensures Reducible(t)
  {
    if p != [] {
      var c := Child(t, p[0]);
      if |p| == 1 {
        assert At(t, p) == c;
      }
      if p[1..] != [] || Reducible(c) {
        ReducibleUp(op, c, p[1..]);
      }
    }
  }

  lemma {:induction false} JoinSlotsShrinks(op: Op, t: Expr, p1: Path, p2: Path)
    requires OnLevel(op, t, p1) && OnLevel(op, t, p2) && HasSlot(t, p1) && HasSlot(t, p2) && p1 != p2
    requires !IsOp(op, At(t, p1)) && !IsOp(op, At(t, p2))
    ensures Honest(t, JoinSlots(op, t, p1, p2))
  {
    var j := Join(op, At(t, p1), At(t, p2));
    if j.Some? {
      var n := Neutral(op);
      var t1 := Put(t, p1, n);
      JoinFits(op, At(t, p1), At(t, p2));
      PutElsewhere(op, t, p1, p2, n);
      PutLeaf(op, t, p1, n);
      SameLevelSlots(op, t, t1, p1);
      SameLevelSlots(op, t, t1, p2);
      PutElsewhere(op, t1, p2, p1, j.value);
      PutLeaf(op, t1, p2, j.value);
      SameLevelSlots(op, t1, Put(t1, p2, j.value), p1);
      assert p1 != [];
      ReducibleUp(op, Put(t1, p2, j.value), p1);
    }
  }

  /** `trans_count` stays put exactly when the pass changed nothing; otherwise a neutral operand is left. */
  lemma {:induction false} Dups1Shrinks(op: Op, t: Expr, p1: Path, p2: Path)
    requires OnLevel(op, t, p1) && OnLevel(op, t, p2)
    ensures Honest(t, Dups1(op, t, p1, p2))
    decreases Size(t), LevelNodesAt(op, t, p1), LevelNodesAt(op, t, p2)
  {
    OnLevelHasSlot(op, t, p1);
    OnLevelHasSlot(op, t, p2);
    var e1, e2 := At(t, p1), At(t, p2);
    if IsOp(op, e1) {
      var a, b := Descend1(op, t, p1, p2);
      Dups1Shrinks(op, t, p1 + [false], p2);
      Dups1Shrinks(op, a.tree, p1 + [true], p2);
      HonestThen(t, a, b);
    } else if IsOp(op, e2) {
      var a, b := Descend2(op, t, p1, p2);
      Dups1Shrinks(op, t, p1, p2 + [false]);
      Dups1Shrinks(op, a.tree, p1, p2 + [true]);
      HonestThen(t, a, b);
    } else if p1 != p2 {
      var a := if e1.Bin? then Dups1(e1.op, e1, [], []) else Pass(e1, 0);
      if e1.Bin? {
        Dups1Shrinks(e1.op, e1, [], []);
      }
      LeafPairShrinks(op, t, p1, p2, a);
    }
  }

  /** The leaf case: an inner pass leaves `a` in the slot p1, then the two leaves are joined. */
  lemma {:induction false} LeafPairShrinks(op: Op, t: Expr, p1: Path, p2: Path, a: Pass)
    requires OnLevel(op, t, p1) && OnLevel(op, t, p2) && HasSlot(t, p1) && HasSlot(t, p2) && p1 != p2
    requires !IsOp(op, At(t, p1)) && !IsOp(op, At(t, p2))
    requires a == if At(t, p1).Bin? then Dups1(At(t, p1).op, At(t, p1), [], []) else Pass(At(t, p1), 0)
    requires Honest(At(t, p1), a)
    ensures Honest(t, Dups1(op, t, p1, p2))
  {
    PutLeaf(op, t, p1, a.tree);
    PutElsewhere(op, t, p1, p2, a.tree);
    var t1 := Put(t, p1, a.tree);
    SameLevelSlots(op, t, t1, p2);
    SameLevelSlots(op, t, t1, p1);
    PutBack(t, p1);
    JoinSlotsShrinks(op, t1, p1, p2);
    if a.count > 0 {
      ReducibleUp(op, t1, p1);
    }
  }

  // ----- the loop -----

  /** One iteration of the loop of `expr_eliminate_dups`, before its test of `trans_count`. */
  function OnePass(e: Expr): (r: Pass)
    ensures Size(r.tree) <= Size(e)
  {
    if e.Bin? then Dups1(e.op, e, [], []) else Pass(e, 0)
  }

  lemma {:induction false} OnePassShrinks(e: Expr)
    ensures var r := OnePass(e); if r.count == 0 then r.tree == e else Size(ElimYn(r.tree)) < Size(e)
  {
    if e.Bin? {
      Dups1Shrinks(e.op, e, [], []);
    }
  }

  /** `expr_eliminate_dups` on a non-null expression. */
  function EliminateDups(e: Expr): (r: Expr)
    ensures Size(r) <= Size(e)
    decreases Size(e)
  {
    var p := OnePass(e);
    OnePassShrinks(e);
    if p.count == 0 then p.tree else EliminateDups(ElimYn(p.tree))
  }

  lemma {:induction false} EliminateDupsKeeps(p: Expr -> bool, e: Expr)
    requires Respected(p) && p(e)
    ensures p(EliminateDups(e))
    decreases Size(e)
  {
    var pass := OnePass(e);
    OnePassShrinks(e);
    if e.Bin? {
      Dups1Keeps(p, e.op, e, [], []);
    }
    if pass.count != 0 {
      ElimYnKeeps(p, pass.tree);
      EliminateDupsKeeps(p, ElimYn(pass.tree));
    }
  }

  /** Removing duplicates never changes what an expression means. */
  lemma {:induction false} EliminateDupsValue(e: Expr, v: Valuation)
    requires WellTyped(v) && Plain(e, v)
    ensures Eval(EliminateDups(e), v) == Eval(e, v)
    decreases Size(e)
  {
    var p := OnePass(e);
    OnePassShrinks(e);
    if e.Bin? {
      Dups1Value(e.op, e, [], [], v);
      Dups1Plain(e.op, e, [], [], v);
    }
    if p.count != 0 {
      ElimYnValue(p.tree, v);
      PlainRespected(v);
      ElimYnKeeps((x: Expr) => Plain(x, v), p.tree);
      EliminateDupsValue(ElimYn(p.tree), v);
    }
  }

  /** The result has nothing left to join: running it again changes nothing. */
  lemma {:induction false} EliminateDupsIdempotent(e: Expr)
    ensures OnePass(EliminateDups(e)) == Pass(EliminateDups(e), 0)
    ensures EliminateDups(EliminateDups(e)) == EliminateDups(e)
    decreases Size(e)
  {
    var p := OnePass(e);
    OnePassShrinks(e);
    if p.count != 0 {
      EliminateDupsIdempotent(ElimYn(p.tree));
    }
  }

  // ----- what is left has no duplicates -----

  /** A leaf of the top level. */
  predicate LeafSlot(op: Op, t: Expr, p: Path) { OnLevel(op, t, p) && HasSlot(t, p) && !IsOp(op, At(t, p)) }

  lemma {:induction false} BelowLeaf(op: Op, t: Expr, p: Path, q: Path)
    requires HasSlot(t, p) && OnLevel(op, t, q) && p <= q && !IsOp(op, At(t, p))
    ensures p == q
  {
    if p == [] {
      assert q == [];
    } else {
      assert p == [p[0]] + p[1..] && q == [q[0]] + q[1..];
      BelowLeaf(op, Child(t, p[0]), p[1..], q[1..]);
    }
  }

  /** A pass that changes nothing has compared every pair of leaves, and finished each leaf that is a tree itself. */
  lemma {:induction false} PairLeftAlone(op: Op, t: Expr, p1: Path, p2: Path, p: Path, q: Path)
    requires OnLevel(op, t, p1) && OnLevel(op, t, p2) && Dups1(op, t, p1, p2).count == 0
    requires LeafSlot(op, t, p) && LeafSlot(op, t, q) && p1 <= p && p2 <= q && p != q
    ensures Join(op, At(t, p), At(t, q)).None? && OnePass(At(t, p)).count == 0
    decreases LevelNodesAt(op, t, p1), LevelNodesAt(op, t, p2)
  {
    hide Join, Dups1, OnLevel, HasSlot, At, LevelNodes, OnePass;
    OnLevelHasSlot(op, t, p1);
    OnLevelHasSlot(op, t, p2);
    if IsOp(op, At(t, p1)) {
      var a, b := Descend1(op, t, p1, p2);
      Dups1Shrinks(op, t, p1 + [false], p2);
      assert a.tree == t && p1 != p;
      if p[|p1|] {
        PairLeftAlone(op, t, p1 + [true], p2, p, q);
      } else {
        PairLeftAlone(op, t, p1 + [false], p2, p, q);
      }
    } else if IsOp(op, At(t, p2)) {
      var a, b := Descend2(op, t, p1, p2);
      Dups1Shrinks(op, t, p1, p2 + [false]);
      assert a.tree == t && p2 != q;
      if q[|p2|] {
        PairLeftAlone(op, t, p1, p2 + [true], p, q);
      } else {
        PairLeftAlone(op, t, p1, p2 + [false], p, q);
      }
    } else {
      BelowLeaf(op, t, p1, p);
      BelowLeaf(op, t, p2, q);
      LeavesLeftAlone(op, t, p, q);
    }
  }

  lemma {:induction false} LeavesLeftAlone(op: Op, t: Expr, p: Path, q: Path)
    requires LeafSlot(op, t, p) && LeafSlot(op, t, q) && p != q && Dups1(op, t, p, q).count == 0
    ensures Join(op, At(t, p), At(t, q)).None? && OnePass(At(t, p)).count == 0
  {
    hide Join, OnLevel, HasSlot, At;
    OnePassShrinks(At(t, p));
    PutBack(t, p);
  }

  /** Two of a=y, a=m and a=n for one tristate symbol, or b and !b for one bool symbol. */
  predicate OrDuplicates(x: Expr, y: Expr) {
    || (x.Comp? && y.Comp? && x.rel == Eq && y.rel == Eq && x.lhs == y.lhs && x.lhs.Type() == Tristate
        && x.rhs.IsYMN() && y.rhs.IsYMN() && x.rhs != y.rhs)
    || (x.Symbol? && y == Not(x) && x.sym.Type() == Boolean)
  }

  /** A bool or tristate symbol and its comparison a=y, a!=m or a!=n; two comparisons of one tristate with constants. */
  predicate AndDuplicates(x: Expr, y: Expr) {
    || (x.Symbol? && x.sym.IsLogic()
        && (y == Comp(Eq, x.sym, SymYes) || y == Comp(Ne, x.sym, SymMod) || y == Comp(Ne, x.sym, SymNo)))
    || (x.Comp? && y.Comp? && x.lhs == y.lhs && x.lhs.Type() == Tristate && y.rel == Ne
        && ((x.rel == Eq && x.rhs.IsConst() && y.rhs.IsConst())
            || (x.rel == Ne && x.rhs.IsYMN() && y.rhs.IsYMN() && x.rhs != y.rhs)))
  }

  lemma {:induction false} DuplicatesJoin(op: Op, x: Expr, y: Expr)
    requires ExprEq(x, y) || (if op == OrOp then OrDuplicates(x, y) else AndDuplicates(x, y))
    ensures Join(op, x, y).Some?
  {
    hide ExprEq;
  }

  /** Whatever the expression was, no two operands of the result are equal, or could be said as one. */
  lemma {:induction false} NoDuplicatesLeft(e: Expr, p: Path, q: Path)
    requires var r := EliminateDups(e); r.Bin? && LeafSlot(r.op, r, p) && LeafSlot(r.op, r, q) && p != q
    ensures var r := EliminateDups(e); var x, y := At(r, p), At(r, q);
            !ExprEq(x, y) && (if r.op == OrOp then !OrDuplicates(x, y) else !AndDuplicates(x, y))
    ensures var x := At(EliminateDups(e), p); EliminateDups(x) == x
  {
    hide ExprEq, Join, OrDuplicates, AndDuplicates;
    var r := EliminateDups(e);
    var x, y := At(r, p), At(r, q);
    EliminateDupsIdempotent(e);
    PairLeftAlone(r.op, r, [], [], p, q);
    OnePassShrinks(x);
    if ExprEq(x, y) || (if r.op == OrOp then OrDuplicates(x, y) else AndDuplicates(x, y)) {
      DuplicatesJoin(r.op, x, y);
    }
  }

  // ----- when removing duplicates is right -----

  lemma {:induction false} Unjoined(op: Op, t: Expr, p: Path, q: Path)
    requires OnLevel(op, t, p) && HasSlot(t, p) && !At(t, p).Bin?
    requires OnLevel(op, t, q) && HasSlot(t, q) && !At(t, q).Bin? && p != q
    requires Join(op, At(t, p), At(t, q)).None?
    ensures Dups1(op, t, p, q) == Pass(t, 0)
  {
    PutBack(t, p);
  }

  lemma {:induction false} LeafAlone(op: Op, t: Expr, p: Path, q: Path)
    requires p == q && OnLevel(op, t, p) && HasSlot(t, p) && !IsOp(op, At(t, p))
    ensures Dups1(op, t, p, q) == Pass(t, 0)
  {
  }

  /** A level of two leaves is left alone when no ordered pair of them changes anything. */
  lemma {:induction false} TwoLeaves(op: Op, t: Expr)
    requires IsOp(op, t) && !IsOp(op, t.left) && !IsOp(op, t.right)
    requires forall a: bool, b: bool :: Dups1(op, t, [a], [b]) == Pass(t, 0)
    ensures Dups1(op, t, [], []) == Pass(t, 0)
  {
    forall a: bool ensures Dups1(op, t, [a], []) == Pass(t, 0) {
      assert [] + [false] == [false] && [] + [true] == [true];
      assert OnLevel(op, t, [a]) && At(t, [a]) == Child(t, a);
    }
    assert [] + [false] == [false] && [] + [true] == [true];
  }

  /** No tristate symbol equals a constant other than y, m and n. */
  ghost predicate NoNumbers(v: Valuation) {
    forall a: Sym, c: Sym {:trigger v.cmp(a, c)} ::
      a.Type() == Tristate && c.IsConst() && !c.IsYMN() ==> v.cmp(a, c) != 0
  }

  lemma {:induction false} NoNumbersPlain(e: Expr, v: Valuation)
    requires NoNumbers(v)
    ensures Plain(e, v)
  {
    match e
    case Not(x) => NoNumbersPlain(x, v);
    case Bin(_, l, r) =>
      NoNumbersPlain(l, v);
      NoNumbersPlain(r, v);
    case _ =>
  }

  /** Removing duplicates keeps the value of every expression if and only if no tristate symbol equals a number. */
  lemma {:induction false} EliminateDupsExactly(v: Valuation)
    requires WellTyped(v)
    ensures (forall e: Expr :: Eval(EliminateDups(e), v) == Eval(e, v)) <==> NoNumbers(v)
  {
    if NoNumbers(v) {
      forall e: Expr ensures Eval(EliminateDups(e), v) == Eval(e, v) {
        NoNumbersPlain(e, v);
        EliminateDupsValue(e, v);
      }
    } else {
      var a: Sym, c: Sym :| a.Type() == Tristate && c.IsConst() && !c.IsYMN() && v.cmp(a, c) == 0;
      var e := NumberLost(a, c, v);
    }
  }

  /** The other way to write the symbol's value gets lost. */
  lemma {:induction false} NumberLost(a: Sym, c: Sym, v: Valuation) returns (e: Expr)
    requires WellTyped(v) && a.Type() == Tristate && c.IsConst() && !c.IsYMN() && v.cmp(a, c) == 0
    ensures Eval(EliminateDups(e), v) != Eval(e, v)
  {
    Decided(a, v);
    var b := if v.tri(a) == YES then SymYes else if v.tri(a) == MOD then SymMod else SymNo;
    e := And(Comp(Eq, a, c), Comp(Ne, a, b));
    PairJoined(a, c, b);
    assert Eval(Comp(Ne, a, b), v) == NO && Eval(Comp(Eq, a, c), v) == YES;
  }

  lemma {:induction false} PairJoined(a: Sym, c: Sym, b: Sym)
    requires a.Type() == Tristate && c.IsConst() && b.IsConst() && b != c
    ensures EliminateDups(And(Comp(Eq, a, c), Comp(Ne, a, b))) == Comp(Eq, a, c)
  {
    var x, y := Comp(Eq, a, c), Comp(Ne, a, b);
    var t, t' := And(x, y), And(Symbol(SymYes), x);
    PairPass(x, y, x);
    assert ElimYn(t') == x;
    assert EliminateDups(x) == x;
    assert EliminateDups(t) == EliminateDups(ElimYn(t'));
  }

  /** A pair that is joined, and then left alone. */
  lemma {:induction false} PairPass(x: Expr, y: Expr, z: Expr)
    requires x.Comp? && y.Comp? && JoinAnd(x, y) == Some(z) && z.Comp? && z.lhs != SymYes
    ensures OnePass(And(x, y)) == Pass(And(Symbol(SymYes), z), 1)
  {
    var t, t' := And(x, y), And(Symbol(SymYes), z);
    assert At(t, [false]) == x && At(t, [true]) == y && At(t', [true]) == z && At(t', [false]) == Symbol(SymYes);
    LeafAlone(AndOp, t, [false], [false]);
    PutBack(t, [false]);
    assert JoinSlots(AndOp, t, [false], [true]) == Pass(t', 1);
    assert Dups1(AndOp, t, [false], [true]) == Pass(t', 1);
    assert [] + [false] == [false] && [] + [true] == [true];
    assert Dups1(AndOp, t, [false], []) == Pass(t', 1);
    assert JoinAnd(z, Symbol(SymYes)) == None;
    Unjoined(AndOp, t', [true], [false]);
    LeafAlone(AndOp, t', [true], [true]);
    assert Dups1(AndOp, t', [true], []) == Pass(t', 0);
    assert Dups1(AndOp, t, [], []) == Pass(t', 1);
  }
}
