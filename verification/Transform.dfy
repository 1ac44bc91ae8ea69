/**
 `expr_transform`, `expr_trans_bool` and `expr_trans_compare`, and the superset
 test `menu_finalize` builds from them.
 */
module Transform {
  import opened Basics
  import opened Expr
  import opened Equality
  import opened Dups

  /** Termination measure: negation doubles, so pushing it inwards pays off. */
  function Weight(e: Expr): (n: nat)
    ensures n >= 1
  {
    match e
    case Symbol(_) => 1
    case Comp(_, _, _) => 2
    case Not(x) => 2 * Weight(x)
    case Bin(_, l, r) => Weight(l) + Weight(r) + 1
  }

  function Opposite(r: Rel): Rel {
    match r
    case Eq => Ne
    case Ne => Eq
    case Le => Gt
    case Ge => Lt
    case Lt => Ge
    case Gt => Le
  }

  function Dual(op: Op): Op { if op == AndOp then OrOp else AndOp }

  /** The rewriting of a comparison at the top of `expr_transform`. */
  function TransformComp(r: Rel, a: Sym, b: Sym): (e: Expr)
    ensures Weight(e) <= 2
  {
    if a.Type() != Boolean || !b.IsYMN() then Comp(r, a, b)
    else match r
      case Eq => if b == SymNo then Not(Symbol(a)) else if b == SymMod then Symbol(SymNo) else Symbol(a)
      case Ne => if b == SymNo then Symbol(a) else if b == SymMod then Symbol(SymYes) else Not(Symbol(a))
      case _ => Comp(r, a, b)
  }

  lemma {:induction false} PushedInwards(op: Op, y: Expr, z: Expr)
    ensures Weight(Bin(Dual(op), Not(y), Not(z))) < 2 * Weight(Bin(op, y, z))
  {
    assert Weight(Not(y)) == 2 * Weight(y) && Weight(Not(z)) == 2 * Weight(z);
  }

  /** `expr_transform` on a non-null expression. */
  function Transform(e: Expr): (r: Expr)
    ensures Weight(r) <= Weight(e)
    decreases Weight(e)
  {
    match e
    case Symbol(_) => e
    case Comp(r, a, b) => TransformComp(r, a, b)
    case Bin(op, x, y) => Bin(op, Transform(x), Transform(y))
    case Not(x) =>
      match Transform(x)
      case Not(y) => Transform(y)
      case Comp(r, a, b) => Comp(Opposite(r), a, b)
      case Bin(op, y, z) => PushedInwards(op, y, z); Transform(Bin(Dual(op), Not(y), Not(z)))
      case Symbol(SymYes) => Symbol(SymNo)
      case Symbol(SymMod) => Symbol(SymMod)
      case Symbol(SymNo) => Symbol(SymYes)
      case Symbol(s) => Not(Symbol(s))
  }

  /** Transforming keeps the value: De Morgan holds in the three-valued logic. */
  lemma {:induction false} TransformValue(e: Expr, v: Valuation)
    requires WellTyped(v)
    ensures Eval(Transform(e), v) == Eval(e, v)
    decreases Weight(e)
  {
    match e
    case Symbol(_) =>
    case Comp(r, a, b) =>
      if a.Type() == Boolean {
        Decided(a, v);
      }
    case Bin(op, x, y) =>
      TransformValue(x, v);
      TransformValue(y, v);
    case Not(x) =>
      TransformValue(x, v);
      var x' := Transform(x);
      if x'.Not? {
        TransformValue(x'.arg, v);
      } else if x'.Bin? {
        PushedInwards(x'.op, x'.left, x'.right);
        TransformValue(Bin(Dual(x'.op), Not(x'.left), Not(x'.right)), v);
      }
  }

  /**
   The form `expr_transform` produces: negation sits only on symbols other than
   y, m and n, and no bool symbol is tested for equality with y, m or n.
   */
  predicate Normal(e: Expr) {
    match e
    case Symbol(_) => true
    case Comp(r, a, b) => !((r == Eq || r == Ne) && a.Type() == Boolean && b.IsYMN())
    case Not(x) => x.Symbol? && !x.sym.IsYMN()
    case Bin(_, l, r) => Normal(l) && Normal(r)
  }

  lemma {:induction false} TransformNormal(e: Expr)
    ensures Normal(Transform(e))
    decreases Weight(e)
  {
    match e
    case Symbol(_) =>
    case Comp(r, a, b) =>
    case Bin(op, x, y) =>
      TransformNormal(x);
      TransformNormal(y);
    case Not(x) =>
      TransformNormal(x);
      var x' := Transform(x);
      if x'.Not? {
        TransformNormal(x'.arg);
      } else if x'.Bin? {
        PushedInwards(x'.op, x'.left, x'.right);
        TransformNormal(Bin(Dual(x'.op), Not(x'.left), Not(x'.right)));
      }
  }

  lemma {:induction false} TransformFixesNormal(e: Expr)
    requires Normal(e)
    ensures Transform(e) == e
  {
    if e.Bin? {
      TransformFixesNormal(e.left);
      TransformFixesNormal(e.right);
    }
  }

  /** An expression is fixed by the transformation exactly when it is in normal form. */
  lemma {:induction false} TransformIdempotent(e: Expr)
    ensures Transform(Transform(e)) == Transform(e)
    ensures Transform(e) == e <==> Normal(e)
  {
    TransformNormal(e);
    TransformFixesNormal(Transform(e));
    if Normal(e) {
      TransformFixesNormal(e);
    }
  }

  lemma {:induction false} TransformPlain(e: Expr, v: Valuation)
    requires Plain(e, v)
    ensures Plain(Transform(e), v)
    decreases Weight(e)
  {
    match e
    case Symbol(_) =>
    case Comp(r, a, b) =>
    case Bin(op, x, y) =>
      TransformPlain(x, v);
      TransformPlain(y, v);
    case Not(x) =>
      TransformPlain(x, v);
      var x' := Transform(x);
      if x'.Not? {
        TransformPlain(x'.arg, v);
      } else if x'.Bin? {
        PushedInwards(x'.op, x'.left, x'.right);
        TransformPlain(Bin(Dual(x'.op), Not(x'.left), Not(x'.right)), v);
      }
  }

  // ----- expr_trans_bool -----

  /** `expr_trans_bool`; the source tests for S_TRISTATE although its comment says bool. */
  function TransBool(e: Expr): Expr {
    match e
    case Symbol(_) => e
    case Comp(r, a, b) => if r == Ne && a.Type() == Tristate && b == SymNo then Symbol(a) else e
    case Not(x) => Not(TransBool(x))
    case Bin(op, l, r) => Bin(op, TransBool(l), TransBool(r))
  }

  /** Some part of the expression says that a tristate symbol is not n. */
  predicate SaysNotN(e: Expr) {
    match e
    case Symbol(_) => false
    case Comp(r, a, b) => r == Ne && a.Type() == Tristate && b == SymNo
    case Not(x) => SaysNotN(x)
    case Bin(_, l, r) => SaysNotN(l) || SaysNotN(r)
  }

  /** The rewriting leaves no `a!=n` of a tristate symbol, and changes nothing if there is none. */
  lemma {:induction false} TransBoolExactly(e: Expr)
    ensures !SaysNotN(TransBool(e)) && (TransBool(e) == e <==> !SaysNotN(e))
  {
    match e
    case Not(x) => TransBoolExactly(x);
    case Bin(_, l, r) =>
      TransBoolExactly(l);
      TransBoolExactly(r);
    case _ =>
  }

  /** On normal forms the rewriting may turn y into m, but n stays n and nothing else becomes n. */
  lemma {:induction false} TransBoolKeepsNonN(e: Expr, v: Valuation)
    requires WellTyped(v) && Normal(e)
    ensures Eval(TransBool(e), v) <= Eval(e, v)
    ensures Eval(TransBool(e), v) == NO <==> Eval(e, v) == NO
  {
    match e
    case Comp(r, a, b) =>
      if a.Type() == Tristate {
        Decided(a, v);
      }
    case Bin(op, x, y) =>
      TransBoolKeepsNonN(x, v);
      TransBoolKeepsNonN(y, v);
    case _ =>
  }

  /**
   Away from normal forms the rewriting can lose "not n" under a negation; for a
   negated comparison it does so exactly when the compared symbol is m.
   */
  lemma {:induction false} TransBoolUnderNot(a: Sym, v: Valuation)
    requires WellTyped(v) && a.Type() == Tristate
    ensures var e := Not(Comp(Ne, a, SymNo));
            (Eval(TransBool(e), v) == NO <==> Eval(e, v) == NO) <==> v.tri(a) != MOD
  {
    Decided(a, v);
  }

  // ----- expr_trans_compare -----

  /**
   `expr_trans_compare` on a non-null expression: compare e with the constant s,
   for equality or for inequality. For m the source falls back on e itself
   under && and ||.
   */
  function TransCompare(e: Expr, equal: bool, s: Sym): Expr
    requires s.IsYMN()
  {
    match e
    case Bin(op, l, r) =>
      var l', r' := TransCompare(l, true, s), TransCompare(r, true, s);
      var c := if s == SymYes then Bin(op, l', r') else if s == SymNo then Bin(Dual(op), l', r') else e;
      if equal then c else Not(c)
    case Not(x) => TransCompare(x, !equal, s)
    case Comp(_, _, _) =>
      if equal then
        if s == SymYes then e else if s == SymMod then Symbol(SymNo) else Not(e)
      else
        if s == SymYes then Not(e) else if s == SymMod then Symbol(SymYes) else e
    case Symbol(a) => Comp(if equal then Eq else Ne, a, s)
  }

  lemma {:induction false} TransComparePlain(e: Expr, equal: bool, s: Sym, v: Valuation)
    requires s.IsYMN() && Plain(e, v)
    ensures Plain(TransCompare(e, equal, s), v)
  {
    match e
    case Bin(_, l, r) =>
      TransComparePlain(l, true, s, v);
      TransComparePlain(r, true, s, v);
    case Not(x) => TransComparePlain(x, !equal, s, v);
    case _ =>
  }

  /** Symbols used as operands of the logic are bool, tristate, y, m or n. */
  predicate LogicOperands(e: Expr) {
    match e
    case Symbol(a) => a.IsLogic() || a.IsYMN()
    case Comp(_, _, _) => true
    case Not(x) => LogicOperands(x)
    case Bin(_, l, r) => LogicOperands(l) && LogicOperands(r)
  }

  /** No operand of a negation has the value m. */
  predicate NoNegatedMod(e: Expr, v: Valuation) {
    match e
    case Symbol(_) => true
    case Comp(_, _, _) => true
    case Not(x) => Eval(x, v) != MOD && NoNegatedMod(x, v)
    case Bin(_, l, r) => NoNegatedMod(l, v) && NoNegatedMod(r, v)
  }

  /**
   The value of an expression when every negation is read in two values: it has the value s exactly if its
   operand has not.
   */
  function Read(e: Expr, s: Sym, v: Valuation): Tri {
    match e
    case Bin(op, l, r) => Apply(op, Read(l, s, v), Read(r, s, v))
    case Not(x) => if Read(x, s, v) == v.tri(s) then TriNot(v.tri(s)) else v.tri(s)
    case _ => Eval(e, v)
  }

  /** What comparing with y or n decides, for every expression: whether it has that value when read so. */
  lemma {:induction false} TransCompareExact(e: Expr, equal: bool, s: Sym, v: Valuation)
    requires WellTyped(v) && LogicOperands(e)
    requires s == SymYes || s == SymNo
    ensures Eval(TransCompare(e, equal, s), v) == FromBool((Read(e, s, v) == v.tri(s)) == equal)
  {
    match e
    case Bin(op, l, r) =>
      TransCompareExact(l, true, s, v);
      TransCompareExact(r, true, s, v);
      TransCompareExact(l, false, s, v);
      TransCompareExact(r, false, s, v);
    case Not(x) => TransCompareExact(x, !equal, s, v);
    case Symbol(a) => assert v.cmp(a, s) == 0 <==> v.tri(a) == v.tri(s);
    case Comp(_, _, _) =>
  }

  /** Both readings are the same when no operand of a negation is m. */
  lemma {:induction false} ReadAgrees(e: Expr, s: Sym, v: Valuation)
    requires WellTyped(v) && NoNegatedMod(e, v) && (s == SymYes || s == SymNo)
    ensures Read(e, s, v) == Eval(e, v)
  {
    match e
    case Bin(_, l, r) =>
      ReadAgrees(l, s, v);
      ReadAgrees(r, s, v);
    case Not(x) => ReadAgrees(x, s, v);
    case _ =>
  }

  /** Comparing with y or n decides whether the expression has that value. */
  lemma {:induction false} TransCompareDecides(e: Expr, equal: bool, s: Sym, v: Valuation)
    requires WellTyped(v) && LogicOperands(e) && NoNegatedMod(e, v)
    requires s == SymYes || s == SymNo
    ensures Eval(TransCompare(e, equal, s), v) == FromBool((Eval(e, v) == v.tri(s)) == equal)
  {
    TransCompareExact(e, equal, s, v);
    ReadAgrees(e, s, v);
  }

  /** At a negation the comparison is right exactly when the operand is not m. */
  lemma {:induction false} TransCompareNegation(x: Expr, equal: bool, s: Sym, v: Valuation)
    requires WellTyped(v) && LogicOperands(x) && NoNegatedMod(x, v)
    requires s == SymYes || s == SymNo
    ensures var e := Not(x);
            Eval(TransCompare(e, equal, s), v) == FromBool((Eval(e, v) == v.tri(s)) == equal) <==> Eval(x, v) != MOD
  {
    TransCompareDecides(x, !equal, s, v);
  }

  predicate NegationFree(e: Expr) {
    match e
    case Symbol(_) => true
    case Comp(_, _, _) => true
    case Not(_) => false
    case Bin(_, l, r) => NegationFree(l) && NegationFree(r)
  }

  lemma {:induction false} NegationFreeIsFine(e: Expr, v: Valuation)
    requires NegationFree(e)
    ensures NoNegatedMod(e, v)
  {
    if e.Bin? {
      NegationFreeIsFine(e.left, v);
      NegationFreeIsFine(e.right, v);
    }
  }

  // ----- dependencies of automatic submenus -----

  /** A dependency slot; a null expression means y. */
  type Dep = Option<Expr>

  function EvalDep(d: Dep, v: Valuation): Tri { if d.None? then YES else Eval(d.value, v) }

  /** The value of a dependency with its negations read in two values. */
  function ReadDep(d: Dep, v: Valuation): Tri { if d.None? then YES else Read(d.value, SymNo, v) }

  predicate LogicDep(d: Dep) { d.Some? ==> LogicOperands(d.value) }

  predicate NormalDep(d: Dep) { d.Some? ==> Normal(d.value) }

  predicate PlainDep(d: Dep, v: Valuation) { d.Some? ==> Plain(d.value, v) }

  predicate NoNegatedModDep(d: Dep, v: Valuation) { d.Some? ==> NoNegatedMod(d.value, v) }

  /** `expr_trans_compare(d, E_UNEQUAL, &symbol_no)`, then transformed and freed of duplicates. */
  function NonNForm(d: Dep): Expr { EliminateDups(Transform(Compared(d))) }

  function Compared(d: Dep): Expr { if d.None? then Not(Symbol(SymNo)) else TransCompare(d.value, false, SymNo) }

  /** What that form says, for every dependency: whether it is not n when read in two values. */
  lemma {:induction false} NonNFormReads(d: Dep, v: Valuation)
    requires WellTyped(v) && LogicDep(d) && PlainDep(d, v)
    ensures Eval(NonNForm(d), v) == FromBool(ReadDep(d, v) != NO)
  {
    var c := Compared(d);
    if d.Some? {
      TransCompareExact(d.value, false, SymNo, v);
      TransComparePlain(d.value, false, SymNo, v);
    }
    TransformValue(c, v);
    TransformPlain(c, v);
    EliminateDupsValue(Transform(c), v);
  }

  lemma {:induction false} ReadDepAgrees(d: Dep, v: Valuation)
    requires WellTyped(v) && NoNegatedModDep(d, v)
    ensures ReadDep(d, v) == EvalDep(d, v)
  {
    if d.Some? {
      ReadAgrees(d.value, SymNo, v);
    }
  }

  lemma {:induction false} NonNFormDecides(d: Dep, v: Valuation)
    requires WellTyped(v) && LogicDep(d) && PlainDep(d, v) && NoNegatedModDep(d, v)
    ensures Eval(NonNForm(d), v) == FromBool(EvalDep(d, v) != NO)
  {
    NonNFormReads(d, v);
    ReadDepAgrees(d, v);
  }

  /** On the form that `expr_transform` makes, reading in two values only ever turns m into n. */
  lemma {:induction false} ReadBelow(e: Expr, v: Valuation)
    requires WellTyped(v) && Normal(e)
    ensures Read(e, SymNo, v) != NO ==> Eval(e, v) != NO
  {
    match e
    case Bin(_, l, r) =>
      ReadBelow(l, v);
      ReadBelow(r, v);
    case Not(x) => assert Read(x, SymNo, v) == v.tri(x.sym);
    case _ =>
  }

  /** The superset test of `menu_finalize`: the sibling's condition swallows the prompt's. */
  predicate Superset(prompt: Dep, sibling: Dep) {
    ElimEq(NonNForm(sibling), NonNForm(prompt)).e2 == Symbol(SymYes)
  }

  /** For all valuations and all dependencies the test is sound for the two-valued reading. */
  lemma {:induction false} SupersetSoundAsRead(prompt: Dep, sibling: Dep, v: Valuation)
    requires WellTyped(v) && LogicDep(prompt) && LogicDep(sibling) && PlainDep(prompt, v) && PlainDep(sibling, v)
    requires Superset(prompt, sibling)
    ensures ReadDep(sibling, v) != NO ==> ReadDep(prompt, v) != NO
  {
    NonNFormReads(prompt, v);
    NonNFormReads(sibling, v);
    ElimEqReflectsOrder(NonNForm(sibling), NonNForm(prompt), v);
  }

  /**
   Passing the test means: when the sibling's dependency is not n, neither is the prompt's. The prompt has
   been transformed before, so only the sibling's negations matter.
   */
  lemma {:induction false} SupersetSound(prompt: Dep, sibling: Dep, v: Valuation)
    requires WellTyped(v) && LogicDep(prompt) && LogicDep(sibling) && PlainDep(prompt, v) && PlainDep(sibling, v)
    requires NormalDep(prompt) && NoNegatedModDep(sibling, v)
    requires Superset(prompt, sibling)
    ensures EvalDep(sibling, v) != NO ==> EvalDep(prompt, v) != NO
  {
    SupersetSoundAsRead(prompt, sibling, v);
    ReadDepAgrees(sibling, v);
    if prompt.Some? {
      ReadBelow(prompt.value, v);
    }
  }

  /** A sibling without any negation is never taken wrongly. */
  lemma {:induction false} SupersetSoundNegationFree(prompt: Dep, sibling: Expr, v: Valuation)
    requires WellTyped(v) && LogicDep(prompt) && LogicOperands(sibling) && PlainDep(prompt, v) && Plain(sibling, v)
    requires NormalDep(prompt) && NegationFree(sibling) && Superset(prompt, Some(sibling))
    ensures Eval(sibling, v) != NO ==> EvalDep(prompt, v) != NO
  {
    NegationFreeIsFine(sibling, v);
    SupersetSound(prompt, Some(sibling), v);
  }

  /** `expr_depends_symbol` */
  predicate DependsSymbol(e: Expr, s: Sym) {
    match e
    case Bin(op, l, r) => op == AndOp && (DependsSymbol(l, s) || DependsSymbol(r, s))
    case Symbol(a) => a == s
    case Comp(r, a, b) => a == s && ((r == Eq && (b == SymYes || b == SymMod)) || (r == Ne && b == SymNo))
    case Not(_) => false
  }

  /** `expr_contains_symbol` */
  predicate ContainsSymbol(e: Expr, s: Sym) {
    match e
    case Bin(_, l, r) => ContainsSymbol(l, s) || ContainsSymbol(r, s)
    case Symbol(a) => a == s
    case Comp(_, a, b) => a == s || b == s
    case Not(x) => ContainsSymbol(x, s)
  }

  /** What as an operand of && makes a dependency absolute: the symbol itself, or that it is m, is y or is not n. */
  predicate Absolute(x: Expr, s: Sym) {
    x == Symbol(s) || x == Comp(Eq, s, SymYes) || x == Comp(Eq, s, SymMod) || x == Comp(Ne, s, SymNo)
  }

  ghost predicate AbsolutelyOn(dep: Dep, s: Sym) {
    dep.Some? && exists x :: x in Operands(AndOp, dep.value) && Absolute(x, s)
  }

  /** A dependency is absolute if and only if one of its operands is, at whatever place. */
  lemma {:induction false} DependsExactly(e: Expr, s: Sym)
    ensures DependsSymbol(e, s) <==> AbsolutelyOn(Some(e), s)
  {
    hide Absolute;
    if IsOp(AndOp, e) {
      DependsExactly(e.left, s);
      DependsExactly(e.right, s);
      assert forall x :: x in Operands(AndOp, e) <==> x in Operands(AndOp, e.left) || x in Operands(AndOp, e.right);
    } else {
      assert Operands(AndOp, e) == [e];
      OneOperand(e, s);
    }
  }

  lemma {:induction false} OneOperand(e: Expr, s: Sym)
    requires !IsOp(AndOp, e)
    ensures DependsSymbol(e, s) <==> Absolute(e, s)
  {
  }

  /** The symbol is contained if and only if it is one of those mentioned. */
  lemma {:induction false} ContainsExactly(e: Expr, s: Sym)
    ensures ContainsSymbol(e, s) <==> s in Mentions(e)
  {
    match e
    case Bin(_, l, r) =>
      ContainsExactly(l, s);
      ContainsExactly(r, s);
    case Not(x) => ContainsExactly(x, s);
    case _ =>
  }

  /** The two valuations differ at most in this symbol. */
  ghost predicate SameExcept(v: Valuation, v': Valuation, s: Sym) {
    && (forall a: Sym {:trigger v.tri(a)} {:trigger v'.tri(a)} :: a != s ==> v.tri(a) == v'.tri(a))
    && (forall a: Sym, b: Sym {:trigger v.cmp(a, b)} {:trigger v'.cmp(a, b)} ::
          a != s && b != s ==> v.cmp(a, b) == v'.cmp(a, b))
  }

  /** What is not contained does not matter for the value. */
  lemma {:induction false} NotContained(e: Expr, s: Sym, v: Valuation, v': Valuation)
    requires !ContainsSymbol(e, s) && SameExcept(v, v', s)
    ensures Eval(e, v) == Eval(e, v')
  {
    match e
    case Bin(_, l, r) =>
      NotContained(l, s, v, v');
      NotContained(r, s, v, v');
    case Not(x) => NotContained(x, s, v, v');
    case _ =>
  }

  lemma {:induction false} DependsContains(e: Expr, s: Sym)
    requires DependsSymbol(e, s)
    ensures ContainsSymbol(e, s)
  {
    if e.Bin? {
      if DependsSymbol(e.left, s) {
        DependsContains(e.left, s);
      } else {
        DependsContains(e.right, s);
      }
    }
  }

  /** An absolute dependency: the expression is never more than n while the symbol is n. */
  lemma {:induction false} DependsSymbolSound(e: Expr, s: Sym, v: Valuation)
    requires WellTyped(v) && s.IsLogic() && DependsSymbol(e, s) && v.tri(s) == NO
    ensures Eval(e, v) == NO
  {
    match e
    case Bin(_, l, r) =>
      if DependsSymbol(l, s) {
        DependsSymbolSound(l, s, v);
      } else {
        DependsSymbolSound(r, s, v);
      }
    case _ => Decided(s, v);
  }

  /** The decision `menu_finalize` takes for one element after a symbol's menu node. */
  predicate GoesInSubmenu(prompt: Dep, s: Sym, sibling: Dep) {
    sibling.Some? && ContainsSymbol(sibling.value, s) &&
    (DependsSymbol(sibling.value, s) || Superset(prompt, sibling))
  }

  /** An element with an absolute dependency on the symbol goes into its submenu, whatever the prompt. */
  lemma {:induction false} AbsoluteGoes(prompt: Dep, s: Sym, sibling: Dep)
    requires AbsolutelyOn(sibling, s)
    ensures GoesInSubmenu(prompt, s, sibling)
  {
    DependsExactly(sibling.value, s);
    DependsContains(sibling.value, s);
  }

  /** Nothing in an automatic submenu can be available while its symbol is n and its prompt is hidden. */
  lemma {:induction false} SubmenuSound(prompt: Dep, s: Sym, sibling: Dep, v: Valuation)
    requires WellTyped(v) && s.IsLogic()
    requires LogicDep(prompt) && LogicDep(sibling) && PlainDep(prompt, v) && PlainDep(sibling, v)
    requires NormalDep(prompt) && NoNegatedModDep(sibling, v)
    requires GoesInSubmenu(prompt, s, sibling)
    ensures EvalDep(sibling, v) != NO ==> v.tri(s) != NO || EvalDep(prompt, v) != NO
  {
    if DependsSymbol(sibling.value, s) {
      if v.tri(s) == NO {
        DependsSymbolSound(sibling.value, s, v);
      }
    } else {
      SupersetSound(prompt, sibling, v);
    }
  }

  /**
   The test is not sound when the sibling negates a symbol that is m: for tristates s and q the prompt
   condition `q=n` is taken to follow from `!s && !q`. Both conditions are as `expr_transform` leaves them.
   */
  lemma {:induction false} SupersetUnsoundUnderNegatedMod(v: Valuation, s: Sym, q: Sym)
    requires WellTyped(v) && s == Named(0, Tristate, false) && q == Named(1, Tristate, false)
    requires v.tri(s) == NO && v.tri(q) == MOD
    ensures var prompt, sibling := Some(Comp(Eq, q, SymNo)), Some(And(Not(Symbol(s)), Not(Symbol(q))));
            && NormalDep(prompt) && NormalDep(sibling) && GoesInSubmenu(prompt, s, sibling)
            && EvalDep(sibling, v) != NO && EvalDep(prompt, v) == NO && v.tri(s) == NO
  {
    NegatedModValues(s, q, v);
    SupersetHere(s, q);
  }

  lemma {:induction false} NegatedModValues(s: Sym, q: Sym, v: Valuation)
    requires WellTyped(v) && q.IsLogic() && v.tri(s) == NO && v.tri(q) == MOD
    ensures Eval(And(Not(Symbol(s)), Not(Symbol(q))), v) == MOD && Eval(Comp(Eq, q, SymNo), v) == NO
  {
    Decided(q, v);
    assert Eval(Symbol(s), v) == NO && Eval(Symbol(q), v) == MOD;
    assert Eval(Not(Symbol(s)), v) == YES;
    assert Eval(Not(Symbol(q)), v) == MOD;
  }

  lemma {:induction false} SupersetHere(s: Sym, q: Sym)
    requires s == Named(0, Tristate, false) && q == Named(1, Tristate, false)
    ensures Superset(Some(Comp(Eq, q, SymNo)), Some(And(Not(Symbol(s)), Not(Symbol(q)))))
  {
    hide NonNForm, TransCompare;
    var sn, qn := Comp(Eq, s, SymNo), Comp(Eq, q, SymNo);
    FormOfBothNot(s, q);
    assert !ExprEq(sn, qn) && ExprEq(qn, qn);
    assert ElimEq1(AndOp, sn, qn) == Pair(sn, qn, 0);
    assert ElimEq1(AndOp, qn, qn) == Pair(Neutral(AndOp), Neutral(AndOp), 1);
    assert ElimEq1(AndOp, And(sn, qn), qn).e2 == Symbol(SymYes);
  }

  lemma {:induction false} FormOfBothNot(s: Sym, q: Sym)
    requires s == Named(0, Tristate, false) && q == Named(1, Tristate, false)
    ensures NonNForm(Some(And(Not(Symbol(s)), Not(Symbol(q))))) == And(Comp(Eq, s, SymNo), Comp(Eq, q, SymNo))
    ensures NonNForm(Some(Comp(Eq, q, SymNo))) == Comp(Eq, q, SymNo)
  {
    var sn, qn := Comp(Eq, s, SymNo), Comp(Eq, q, SymNo);
    var su, qu := Comp(Ne, s, SymNo), Comp(Ne, q, SymNo);
    var d := And(Not(Symbol(s)), Not(Symbol(q)));
    assert TransCompare(Not(Symbol(s)), true, SymNo) == su && TransCompare(Not(Symbol(q)), true, SymNo) == qu;
    assert TransCompare(d, false, SymNo) == Not(Or(su, qu));
    assert Transform(Or(su, qu)) == Or(su, qu);
    assert Transform(Not(su)) == sn && Transform(Not(qu)) == qn;
    assert Transform(Not(Or(su, qu))) == And(sn, qn);
    NothingToJoin(s, q);
  }

  lemma {:induction false} NothingToJoin(s: Sym, q: Sym)
    requires s == Named(0, Tristate, false) && q == Named(1, Tristate, false)
    ensures var e := And(Comp(Eq, s, SymNo), Comp(Eq, q, SymNo)); EliminateDups(e) == e
  {
    var sn, qn := Comp(Eq, s, SymNo), Comp(Eq, q, SymNo);
    var e := And(sn, qn);
    assert At(e, [false]) == sn && At(e, [true]) == qn;
    assert JoinAnd(sn, qn) == None && JoinAnd(qn, sn) == None;
    LeafAlone(AndOp, e, [false], [false]);
    LeafAlone(AndOp, e, [true], [true]);
    Unjoined(AndOp, e, [false], [true]);
    Unjoined(AndOp, e, [true], [false]);
    forall a: bool, b: bool ensures Dups1(AndOp, e, [a], [b]) == Pass(e, 0) {
    }
    TwoLeaves(AndOp, e);
  }
}
