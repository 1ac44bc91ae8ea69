/**
 The conditions `menu_finalize` passes down the menu tree (scripts/config/menu.c):
 every element and every prompt is narrowed by what is around it, simplified on
 the way.
 */
module Conditions {
  import opened Basics
  import opened Expr
  import opened Equality
  import opened Dups
  import opened Transform

  // ----- normal forms survive the removal of duplicates -----

  lemma {:induction false} NormalRespected()
    ensures Respected((e: Expr) => Normal(e))
  {
  }

  /** What `expr_transform` has brought into normal form stays there. */
  lemma {:induction false} EliminateDupsNormal(e: Expr)
    requires Normal(e)
    ensures Normal(EliminateDups(e))
  {
    NormalRespected();
    EliminateDupsKeeps((x: Expr) => Normal(x), e);
  }

  lemma {:induction false} TransBoolNormal(e: Expr)
    requires Normal(e)
    ensures Normal(TransBool(e))
  {
    if e.Bin? {
      TransBoolNormal(e.left);
      TransBoolNormal(e.right);
    }
  }

  // ----- rewrite_m -----

  /** `rewrite_m`: the constant m stands for m && MODULES. */
  function RewriteM(e: Expr, modules: Sym): Expr {
    match e
    case Symbol(s) => if s == SymMod then And(e, Symbol(modules)) else e
    case Comp(_, _, _) => e
    case Not(x) => Not(RewriteM(x, modules))
    case Bin(op, l, r) => Bin(op, RewriteM(l, modules), RewriteM(r, modules))
  }

  function LimitedTri(v: Valuation, modules: Sym, s: Sym): Tri {
    if s == SymMod then TriAnd(MOD, v.tri(modules)) else v.tri(s)
  }

  /** The valuation in which the constant m is worth no more than MODULES. */
  function Limited(v: Valuation, modules: Sym): Valuation {
    v.(tri := (s: Sym) => LimitedTri(v, modules, s))
  }

  /** Without modules m means n; with modules nothing changes. */
  lemma {:induction false} RewriteMValue(e: Expr, modules: Sym, v: Valuation)
    requires WellTyped(v)
    ensures Eval(RewriteM(e, modules), v) == Eval(e, Limited(v, modules))
    ensures v.tri(modules) != NO ==> Eval(RewriteM(e, modules), v) == Eval(e, v)
  {
    match e
    case Bin(op, l, r) =>
      RewriteMValue(l, modules, v);
      RewriteMValue(r, modules, v);
    case Not(x) =>
      RewriteMValue(x, modules, v);
    case _ =>
  }

  // ----- conditions on the way down -----

  /** `expr_alloc_and` */
  function AndDep(a: Dep, b: Dep): Dep {
    if a.None? then b else if b.None? then a else Some(And(a.value, b.value))
  }

  function TransformDep(d: Dep, modules: Sym): Dep {
    if d.None? then None else Some(Transform.Transform(RewriteM(d.value, modules)))
  }

  function EliminateDupsDep(d: Dep): Dep { if d.None? then None else Some(EliminateDups(d.value)) }

  /** A condition inside an element that itself depends on base. */
  function Narrow(base: Dep, d: Dep, modules: Sym): Dep { EliminateDupsDep(AndDep(base, TransformDep(d, modules))) }

  /** The condition of a prompt; for anything but a tristate symbol only "n or not n" matters. */
  function Shown(sym: Option<Sym>, base: Dep, d: Dep, modules: Sym): Dep {
    var c := Narrow(base, d, modules);
    if sym.Some? && sym.value.Type() != Tristate && c.Some? then Some(TransBool(c.value)) else c
  }

  lemma {:induction false} NarrowNormal(base: Dep, d: Dep, modules: Sym)
    requires NormalDep(base)
    ensures NormalDep(Narrow(base, d, modules))
  {
    if d.Some? {
      TransformNormal(RewriteM(d.value, modules));
    }
    var c := AndDep(base, TransformDep(d, modules));
    if c.Some? {
      EliminateDupsNormal(c.value);
    }
  }

  lemma {:induction false} RewriteMPlain(e: Expr, modules: Sym, v: Valuation)
    requires Plain(e, v)
    ensures Plain(RewriteM(e, modules), v)
  {
    match e
    case Bin(op, l, r) =>
      RewriteMPlain(l, modules, v);
      RewriteMPlain(r, modules, v);
    case Not(x) =>
      RewriteMPlain(x, modules, v);
    case _ =>
  }

  lemma {:induction false} JoinedPlain(base: Dep, d: Dep, modules: Sym, v: Valuation)
    requires PlainDep(base, v) && PlainDep(d, v)
    ensures PlainDep(AndDep(base, TransformDep(d, modules)), v)
  {
    if d.Some? {
      RewriteMPlain(d.value, modules, v);
      TransformPlain(RewriteM(d.value, modules), v);
    }
  }

  lemma {:induction false} NarrowPlain(base: Dep, d: Dep, modules: Sym, v: Valuation)
    requires PlainDep(base, v) && PlainDep(d, v)
    ensures PlainDep(Narrow(base, d, modules), v)
  {
    JoinedPlain(base, d, modules, v);
    var c := AndDep(base, TransformDep(d, modules));
    if c.Some? {
      PlainRespected(v);
      EliminateDupsKeeps((e: Expr) => Plain(e, v), c.value);
    }
  }

  /** A narrowed condition is worth the smaller of the condition, with m limited by MODULES, and what is around it. */
  lemma {:induction false} NarrowValue(base: Dep, d: Dep, modules: Sym, v: Valuation)
    requires WellTyped(v) && PlainDep(base, v) && PlainDep(d, v)
    ensures EvalDep(Narrow(base, d, modules), v) == TriAnd(EvalDep(base, v), EvalDep(d, Limited(v, modules)))
  {
    if d.Some? {
      RewriteMValue(d.value, modules, v);
      TransformValue(RewriteM(d.value, modules), v);
    }
    JoinedPlain(base, d, modules, v);
    var c := AndDep(base, TransformDep(d, modules));
    if c.Some? {
      EliminateDupsValue(c.value, v);
    }
  }

  /** What `menu_finalize` makes of a prompt's condition is in normal form, whenever what is around it is. */
  lemma {:induction false} ShownNormal(sym: Option<Sym>, base: Dep, d: Dep, modules: Sym)
    requires NormalDep(base)
    ensures NormalDep(Shown(sym, base, d, modules))
  {
    NarrowNormal(base, d, modules);
    var c := Narrow(base, d, modules);
    if c.Some? {
      TransBoolNormal(c.value);
    }
  }

  /**
   A prompt is shown exactly when its own condition and everything around it is not n; for tristate
   symbols, menus and comments its value is exact.
   */
  lemma {:induction false} ShownValue(sym: Option<Sym>, base: Dep, d: Dep, modules: Sym, v: Valuation)
    requires WellTyped(v) && NormalDep(base) && PlainDep(base, v) && PlainDep(d, v)
    ensures var exact := TriAnd(EvalDep(base, v), EvalDep(d, Limited(v, modules)));
            var shown := EvalDep(Shown(sym, base, d, modules), v);
            && (shown == NO <==> exact == NO) && shown <= exact
            && (sym.None? || sym.value.Type() == Tristate ==> shown == exact)
  {
    NarrowValue(base, d, modules, v);
    NarrowNormal(base, d, modules);
    var c := Narrow(base, d, modules);
    if c.Some? {
      TransBoolKeepsNonN(c.value, v);
    }
  }
}
