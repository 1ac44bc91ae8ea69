/**
 When the superset test of `menu_finalize` (scripts/config/menu.c) is right: for a
 given sibling and given values, under every prompt that can come before it.
 */
module SupersetTest {
  import opened Basics
  import opened Expr
  import opened Equality
  import opened Dups
  import opened Transform

  // ----- no constants inside -----

  /** A constant, or free of constants. */
  predicate Clean(e: Expr) { IsConstant(e) || Inner(e) }

  lemma {:induction false} ElimYnClean(e: Expr)
    ensures Clean(ElimYn(e))
  {
    if e.Bin? {
      ElimYnClean(e.left);
      ElimYnClean(e.right);
    }
  }

  lemma {:induction false} EliminateDupsClean(e: Expr)
    requires Clean(e)
    ensures Clean(EliminateDups(e))
    decreases Size(e)
  {
    var p := OnePass(e);
    OnePassShrinks(e);
    if p.count != 0 {
      ElimYnClean(p.tree);
      EliminateDupsClean(ElimYn(p.tree));
    }
  }

  /** What `expr_transform` cannot turn into a constant. */
  predicate NoConstants(e: Expr) {
    match e
    case Symbol(_) => !IsConstant(e)
    case Comp(r, a, b) => (r == Eq || r == Ne) && a.Type() == Boolean ==> !b.IsYMN() || b == SymNo
    case Not(x) => NoConstants(x)
    case Bin(_, l, r) => NoConstants(l) && NoConstants(r)
  }

  lemma {:induction false} TransformInner(e: Expr)
    requires NoConstants(e)
    ensures Inner(Transform.Transform(e)) && NoConstants(Transform.Transform(e))
    decreases Weight(e)
  {
    match e
    case Symbol(_) =>
    case Comp(r, a, b) =>
    case Bin(op, x, y) =>
      TransformInner(x);
      TransformInner(y);
    case Not(x) =>
      TransformInner(x);
      var x' := Transform.Transform(x);
      if x'.Not? {
        TransformInner(x'.arg);
      } else if x'.Bin? {
        PushedInwards(x'.op, x'.left, x'.right);
        TransformInner(Bin(Dual(x'.op), Not(x'.left), Not(x'.right)));
      }
  }

  lemma {:induction false} ComparedNoConstants(e: Expr, equal: bool)
    requires Normal(e)
    ensures NoConstants(TransCompare(e, equal, SymNo))
  {
    match e
    case Bin(_, l, r) =>
      ComparedNoConstants(l, true);
      ComparedNoConstants(r, true);
    case Not(x) => ComparedNoConstants(x, !equal);
    case _ =>
  }

  /** The form in which the test compares conditions is y, n or free of both. */
  lemma {:induction false} NonNFormClean(d: Dep)
    requires NormalDep(d)
    ensures Clean(NonNForm(d))
  {
    if d.Some? {
      ComparedNoConstants(d.value, false);
      TransformInner(Compared(d));
    }
    EliminateDupsClean(Transform.Transform(Compared(d)));
  }

  // ----- a sibling that is a conjunction can swallow itself -----

  lemma {:induction false} SettledAll(e: Expr)
    requires Inner(e)
    ensures ElimYn(Settle(AndOp, e)) == Symbol(SymYes)
  {
    if IsOp(AndOp, e) {
      SettledAll(e.left);
      SettledAll(e.right);
    }
  }

  lemma {:induction false} SwallowsItself(x: Expr)
    requires IsOp(AndOp, x) && Inner(x)
    ensures ElimEq(x, x).e2 == Symbol(SymYes)
  {
    SelfWalk(AndOp, x);
    SettledAll(x);
    assert IsOp(AndOp, Settle(AndOp, x));
  }

  // ----- any other sibling swallows nothing but y -----

  /** Once it is y, the first operand of the walk matches nothing more. */
  lemma {:induction false} YesIsInert(p: Expr)
    requires Inner(p)
    ensures ElimEq1(AndOp, Symbol(SymYes), p) == Pair(Symbol(SymYes), p, 0)
  {
    if IsOp(AndOp, p) {
      YesIsInert(p.left);
      YesIsInert(p.right);
    }
  }

  /** A single operand takes at most one operand out of a conjunction. */
  lemma {:induction false} TakesOne(x: Expr, p: Expr)
    requires !IsOp(AndOp, x) && Inner(p)
    ensures var r := ElimEq1(AndOp, x, p);
            && (r == Pair(x, p, 0) || r.e1 == Symbol(SymYes))
            && (IsOp(AndOp, p) ==> ElimYn(r.e2) != Symbol(SymYes))
  {
    if IsOp(AndOp, p) {
      TakesOne(x, p.left);
      var a := ElimEq1(AndOp, x, p.left);
      InnerStays(p.left);
      InnerStays(p.right);
      if a == Pair(x, p.left, 0) {
        TakesOne(x, p.right);
      } else {
        YesIsInert(p.right);
      }
    }
  }

  /** A level of || that elimination cannot turn into y. */
  predicate NeverYes(p: Expr) {
    if IsOp(OrOp, p) then NeverYes(p.left) && NeverYes(p.right) else p == Symbol(SymNo) || Inner(p)
  }

  lemma {:induction false} NeverYesMeans(p: Expr)
    requires NeverYes(p)
    ensures ElimYn(p) != Symbol(SymYes)
  {
    if IsOp(OrOp, p) {
      NeverYesMeans(p.left);
      NeverYesMeans(p.right);
    } else if Inner(p) {
      InnerStays(p);
    }
  }

  lemma {:induction false} InnerNeverYes(p: Expr)
    requires Inner(p)
    ensures NeverYes(p)
  {
    if IsOp(OrOp, p) {
      InnerNeverYes(p.left);
      InnerNeverYes(p.right);
    }
  }

  /** Walking along a level of || leaves n in place of what it takes. */
  lemma {:induction false} OrWalk(x: Expr, p: Expr)
    requires NeverYes(p)
    ensures var r := ElimEq1(OrOp, x, p);
            && NeverYes(r.e2) && (IsOp(OrOp, p) <==> IsOp(OrOp, r.e2))
            && (!IsOp(OrOp, p) ==> r.e2 == p || r.e2 == Symbol(SymNo))
    decreases Size(x) + Size(p)
  {
    if IsOp(OrOp, x) {
      OrWalk(x.left, p);
      OrWalk(x.right, ElimEq1(OrOp, x.left, p).e2);
    } else if IsOp(OrOp, p) {
      OrWalk(x, p.left);
      OrWalk(ElimEq1(OrOp, x, p.left).e1, p.right);
    }
  }

  lemma {:induction false} SwallowsOnlyYes(x: Expr, p: Expr)
    requires !IsOp(AndOp, x) && Clean(p) && p != Symbol(SymYes)
    ensures ElimEq(x, p).e2 != Symbol(SymYes)
  {
    if p == Symbol(SymNo) {
      assert NeverYes(p);
    } else {
      InnerNeverYes(p);
      InnerStays(p);
    }
    var a := if x.Bin? then ElimEq1(x.op, x, p) else Pair(x, p, 0);
    OrWalk(x, p);
    NeverYesMeans(a.e2);
    if a.e2.Bin? && !IsOp(a.e2.op, a.e1) {
      assert a.e2 == p || IsOp(OrOp, a.e2);
      if IsOp(AndOp, a.e2) {
        TakesOne(a.e1, p);
      } else {
        OrWalk(a.e1, a.e2);
        NeverYesMeans(ElimEq1(OrOp, a.e1, a.e2).e2);
      }
    }
  }

  // ----- the prompt that shows a wrong answer -----

  /** The expression with `!s` written as `s=n` for every tristate s. */
  function TwoValued(e: Expr): Expr {
    match e
    case Not(Symbol(s)) => if s.Type() == Tristate then Comp(Eq, s, SymNo) else e
    case Bin(op, l, r) => Bin(op, TwoValued(l), TwoValued(r))
    case _ => e
  }

  lemma {:induction false} TwoValuedFits(e: Expr, v: Valuation)
    requires Normal(e) && LogicOperands(e) && Plain(e, v)
    ensures Normal(TwoValued(e)) && LogicOperands(TwoValued(e)) && Plain(TwoValued(e), v)
  {
    if e.Bin? {
      TwoValuedFits(e.left, v);
      TwoValuedFits(e.right, v);
    }
  }

  /** It is not n exactly when the expression, read in two values, is not n. */
  lemma {:induction false} TwoValuedReads(e: Expr, v: Valuation)
    requires WellTyped(v) && Normal(e) && LogicOperands(e)
    ensures Eval(TwoValued(e), v) != NO <==> Read(e, SymNo, v) != NO
  {
    match e
    case Bin(_, l, r) =>
      TwoValuedReads(l, v);
      TwoValuedReads(r, v);
    case Not(x) =>
      Decided(x.sym, v);
      assert Read(x, SymNo, v) == v.tri(x.sym);
    case _ =>
  }

  /** Both have the same form in the test. */
  lemma {:induction false} TwoValuedForm(e: Expr, equal: bool)
    requires Normal(e) && LogicOperands(e)
    ensures Transform.Transform(TransCompare(TwoValued(e), equal, SymNo))
            == Transform.Transform(TransCompare(e, equal, SymNo))
  {
    match e
    case Bin(op, l, r) =>
      TwoValuedForm(l, true);
      TwoValuedForm(r, true);
      var a := Bin(Dual(op), TransCompare(TwoValued(l), true, SymNo), TransCompare(TwoValued(r), true, SymNo));
      var b := Bin(Dual(op), TransCompare(l, true, SymNo), TransCompare(r, true, SymNo));
      assert Transform.Transform(a) == Transform.Transform(b);
    case Not(x) =>
      var s := x.sym;
      assert TransCompare(x, !equal, SymNo) == Comp(if equal then Ne else Eq, s, SymNo);
      if s.Type() == Tristate {
        assert Transform.Transform(Comp(Eq, s, SymNo)) == Comp(Eq, s, SymNo);
        assert Transform.Transform(Not(Comp(Eq, s, SymNo))) == Comp(Ne, s, SymNo);
      }
    case _ =>
  }

  // ----- when the test is right -----

  /** A prompt's condition as it can come before the sibling. */
  predicate PossiblePrompt(prompt: Dep, v: Valuation) { LogicDep(prompt) && NormalDep(prompt) && PlainDep(prompt, v) }

  /** The test's answer holds at these values: it takes the sibling only if the prompt is then shown. */
  predicate RightFor(prompt: Dep, sibling: Expr, v: Valuation) {
    Superset(prompt, Some(sibling)) ==> Eval(sibling, v) != NO ==> EvalDep(prompt, v) != NO
  }

  /** A conjunction, once compared, that negated symbols worth m make n when read in two values. */
  predicate Misread(sibling: Expr, v: Valuation) {
    IsOp(AndOp, NonNForm(Some(sibling))) && Eval(sibling, v) != NO && Read(sibling, SymNo, v) == NO
  }

  /**
   The test is right about a sibling under every prompt if and only if it does not misread the sibling. The
   prompts are all conditions in normal form, those that mention the parent's own symbol among them; a wrong
   answer under one that does not is in SupersetUnsoundUnderNegatedMod.
   */
  lemma {:induction false} SupersetRightExactly(sibling: Expr, v: Valuation)
    requires WellTyped(v) && Normal(sibling) && LogicOperands(sibling) && Plain(sibling, v)
    ensures (forall prompt: Dep :: PossiblePrompt(prompt, v) ==> RightFor(prompt, sibling, v)) <==> !Misread(sibling, v)
  {
    if Misread(sibling, v) {
      MisreadTakesWrong(sibling, v);
      assert !RightFor(Some(TwoValued(sibling)), sibling, v);
    } else {
      forall prompt: Dep | PossiblePrompt(prompt, v) ensures RightFor(prompt, sibling, v) {
        ReadRightly(prompt, sibling, v);
      }
    }
  }

  /** The sibling itself, written in two values, is a prompt that the test takes to follow from it. */
  lemma {:induction false} MisreadTakesWrong(sibling: Expr, v: Valuation)
    requires WellTyped(v) && Normal(sibling) && LogicOperands(sibling) && Plain(sibling, v) && Misread(sibling, v)
    ensures PossiblePrompt(Some(TwoValued(sibling)), v) && !RightFor(Some(TwoValued(sibling)), sibling, v)
  {
    TwoValuedFits(sibling, v);
    TwoValuedForm(sibling, false);
    TwoValuedReads(sibling, v);
    NonNFormClean(Some(sibling));
    SwallowsItself(NonNForm(Some(sibling)));
  }

  lemma {:induction false} ReadRightly(prompt: Dep, sibling: Expr, v: Valuation)
    requires WellTyped(v) && LogicOperands(sibling) && Plain(sibling, v) && PossiblePrompt(prompt, v)
    requires !Misread(sibling, v)
    ensures RightFor(prompt, sibling, v)
  {
    if Superset(prompt, Some(sibling)) && Eval(sibling, v) != NO {
      if Read(sibling, SymNo, v) != NO {
        SupersetSoundAsRead(prompt, Some(sibling), v);
      } else {
        NonNFormClean(prompt);
        if NonNForm(prompt) != Symbol(SymYes) {
          SwallowsOnlyYes(NonNForm(Some(sibling)), NonNForm(prompt));
        }
        NonNFormReads(prompt, v);
      }
      if prompt.Some? {
        ReadBelow(prompt.value, v);
      }
    }
  }
}
