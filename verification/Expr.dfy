/**
 Kconfig dependency expressions (scripts/config/expr.h and expr.c): the
 three-valued logic n < m < y, the symbols it ranges over, and the value of an
 expression under a valuation of the symbols.
 */
module Expr {

  /** The enum `tristate`: n, m and y in increasing order. */
  type Tri = t: int | 0 <= t <= 2

  const NO: Tri := 0
  const MOD: Tri := 1
  const YES: Tri := 2

  function TriAnd(a: Tri, b: Tri): Tri { if a < b then a else b }
  function TriOr(a: Tri, b: Tri): Tri { if a > b then a else b }
  function TriNot(a: Tri): Tri { 2 - a }
  function FromBool(b: bool): Tri { if b then YES else NO }

  datatype SymType = Unknown | Boolean | Tristate | Int | Hex | String

  /** The three predefined constants, and every other symbol. */
  datatype Sym = SymYes | SymMod | SymNo | Named(id: nat, ty: SymType, isConst: bool)
  {
    // The predefined constants carry no type in the source.
    function Type(): SymType { if Named? then ty else Unknown }
    predicate IsConst() { Named? ==> isConst }
    predicate IsYMN() { !Named? }
    predicate IsLogic() { Type() == Boolean || Type() == Tristate }
  }

  datatype Rel = Eq | Ne | Lt | Le | Gt | Ge

  datatype Op = AndOp | OrOp

  datatype Expr =
    | Symbol(sym: Sym)
    | Comp(rel: Rel, lhs: Sym, rhs: Sym)
    | Not(arg: Expr)
    | Bin(op: Op, left: Expr, right: Expr)

  function And(l: Expr, r: Expr): Expr { Bin(AndOp, l, r) }
  function Or(l: Expr, r: Expr): Expr { Bin(OrOp, l, r) }

  /** The number of nodes of an expression. */
  function Size(e: Expr): (n: nat)
    ensures n >= 1
  {
    match e
    case Symbol(_) => 1
    case Comp(_, _, _) => 1
    case Not(x) => 1 + Size(x)
    case Bin(_, l, r) => 1 + Size(l) + Size(r)
  }

  /**
   The current values of all symbols: the tristate of each, and how the strings
   of two symbols compare (the sign is what `expr_calc_value` looks at).
   */
  datatype Valuation = Valuation(tri: Sym -> Tri, cmp: (Sym, Sym) -> int)

  /** What symbol calculation guarantees of the values. */
  ghost predicate WellTyped(v: Valuation) {
    && v.tri(SymYes) == YES && v.tri(SymMod) == MOD && v.tri(SymNo) == NO
    // bool symbols are never m
    && (forall s: Sym {:trigger v.tri(s)} :: s.Type() == Boolean ==> v.tri(s) != MOD)
    // the string of a bool or tristate symbol is the name of its tristate
    && (forall s: Sym, c: Sym {:trigger v.cmp(s, c)} ::
          (s.IsLogic() || s.IsYMN()) && c.IsYMN() ==> (v.cmp(s, c) == 0 <==> v.tri(s) == v.tri(c)))
  }

  /**
   No tristate symbol equals another constant than y, m or n that the expression compares it with. The
   source compares with numbers by value, and a tristate that is y equals the constant 2.
   */
  predicate Plain(e: Expr, v: Valuation) {
    match e
    case Symbol(_) => true
    case Comp(_, a, c) => a.Type() == Tristate && c.IsConst() && !c.IsYMN() ==> v.cmp(a, c) != 0
    case Not(x) => Plain(x, v)
    case Bin(_, l, r) => Plain(l, v) && Plain(r, v)
  }

  predicate Holds(r: Rel, c: int) {
    match r
    case Eq => c == 0
    case Ne => c != 0
    case Lt => c < 0
    case Le => c <= 0
    case Gt => c > 0
    case Ge => c >= 0
  }

  function Apply(op: Op, a: Tri, b: Tri): Tri {
    if op == AndOp then TriAnd(a, b) else TriOr(a, b)
  }

  /** `expr_calc_value` on a non-null expression. */
  function Eval(e: Expr, v: Valuation): Tri {
    match e
    case Symbol(s) => v.tri(s)
    case Comp(r, a, b) => FromBool(Holds(r, v.cmp(a, b)))
    case Not(x) => TriNot(Eval(x, v))
    case Bin(op, l, r) => Apply(op, Eval(l, v), Eval(r, v))
  }

  /** The operand that leaves the other one alone: y under &&, n under ||. */
  function Neutral(op: Op): Expr { Symbol(if op == AndOp then SymYes else SymNo) }

  predicate IsOp(op: Op, e: Expr) { e.Bin? && e.op == op }

  /** The operands of a run of `op`, left to right. */
  function Operands(op: Op, e: Expr): (s: seq<Expr>)
    ensures !IsOp(op, e) ==> s == [e]
  {
    if IsOp(op, e) then Operands(op, e.left) + Operands(op, e.right) else [e]
  }

  /** The symbols an expression refers to. */
  function Mentions(e: Expr): set<Sym> {
    match e
    case Symbol(s) => {s}
    case Comp(_, a, b) => {a, b}
    case Not(x) => Mentions(x)
    case Bin(_, l, r) => Mentions(l) + Mentions(r)
  }
}
