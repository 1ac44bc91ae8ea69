/**
 `expr_print` against the reader of the same notation: the expression rules of
 the Kconfig grammar, in which ! binds tighter than &&, && tighter than ||, and
 both operators group to the left. Symbol names are opaque tokens.
 */
module PrintParse {
  import opened Basics
  import opened Expr

  datatype Token = TSym(s: Sym) | TRel(r: Rel) | TNot | TAnd | TOr | TOpen | TClose

  // ----- printing -----

  /** The node types `expr_compare_type` tells apart. */
  datatype Kind = KNone | KOr | KAnd | KNot | KEqual | KOrdered | KList | KSymbol

  function KindOf(e: Expr): Kind {
    match e
    case Symbol(_) => KSymbol
    case Comp(r, _, _) => if r == Eq || r == Ne then KEqual else KOrdered
    case Not(_) => KNot
    case Bin(op, _, _) => if op == AndOp then KAnd else KOr
  }

  /** How far up the fall-through `switch` of `expr_compare_type` a type enters. */
  function Level(k: Kind): int {
    match k
    case KOrdered => 5
    case KEqual => 4
    case KNot => 3
    case KAnd => 2
    case KOr => 1
    case KList => 0
    case _ => -1
  }

  /**
   `expr_compare_type(prev, type) > 0`. Two different ordered comparisons never
   meet, since comparisons have no operand expressions.
   */
  predicate Parenthesized(prev: Kind, k: Kind) {
    prev != k &&
    ((k == KEqual && Level(prev) >= 5) || (k == KNot && Level(prev) >= 4) || (k == KAnd && Level(prev) >= 3)
     || (k == KOr && Level(prev) >= 2) || (k == KList && Level(prev) >= 1) || (k == KNone && Level(prev) >= 0))
  }

  function Bare(e: Expr): seq<Token>
    decreases e, 0
  {
    match e
    case Symbol(s) => [TSym(s)]
    case Comp(r, a, b) => [TSym(a), TRel(r), TSym(b)]
    case Not(x) => [TNot] + Print(x, KNot)
    case Bin(AndOp, l, r) => Print(l, KAnd) + [TAnd] + Print(r, KAnd)
    case Bin(OrOp, l, r) => Print(l, KOr) + [TOr] + Print(r, KOr)
  }

  /** `expr_print` on a non-null expression below a node of type prev. */
  function Print(e: Expr, prev: Kind): seq<Token>
    decreases e, 1
  {
    if Parenthesized(prev, KindOf(e)) then [TOpen] + Bare(e) + [TClose] else Bare(e)
  }

  /** How many parentheses are opened. */
  function Opened(ts: seq<Token>): nat {
    if ts == [] then 0 else (if ts[0] == TOpen then 1 else 0) + Opened(ts[1..])
  }

  /** The operands that bind less tightly than what stands above them: || below &&, and both below !. */
  function LooseOperands(e: Expr): nat {
    match e
    case Not(x) => (if x.Bin? then 1 else 0) + LooseOperands(x)
    case Bin(op, l, r) =>
      (if op == AndOp && IsOp(OrOp, l) then 1 else 0) + (if op == AndOp && IsOp(OrOp, r) then 1 else 0)
      + LooseOperands(l) + LooseOperands(r)
    case _ => 0
  }

  lemma {:induction false} OpenedConcat(a: seq<Token>, b: seq<Token>)
    ensures Opened(a + b) == Opened(a) + Opened(b)
    decreases |a|
  {
    if a == [] {
      assert a + b == b;
    } else {
      assert (a + b)[1..] == a[1..] + b;
      OpenedConcat(a[1..], b);
    }
  }

  lemma {:induction false} OpenedBare(e: Expr)
    ensures Opened(Bare(e)) == LooseOperands(e)
    decreases e, 0
  {
    hide Opened, Print, Parenthesized;
    OpenedNothing();
    match e
    case Symbol(s) => assert [] + [TSym(s)] == [TSym(s)]; OpenedShort([], TSym(s));
    case Comp(r, a, b) => OpenedComparison(r, a, b);
    case Not(x) =>
      OpenedPrint(x, KNot);
      assert [] + [TNot] + Print(x, KNot) == [TNot] + Print(x, KNot);
      OpenedJoined([], TNot, Print(x, KNot));
      NotLoose(x);
    case Bin(op, l, r) =>
      var k, t := if op == AndOp then KAnd else KOr, if op == AndOp then TAnd else TOr;
      OpenedPrint(l, k);
      OpenedPrint(r, k);
      OpenedJoined(Print(l, k), t, Print(r, k));
      BinLoose(op, l);
      BinLoose(op, r);
  }

  lemma {:induction false} OpenedNothing()
    ensures Opened([]) == 0
  {
  }

  lemma {:induction false} NotLoose(x: Expr)
    ensures Parenthesized(KNot, KindOf(x)) <==> x.Bin?
  {
  }

  lemma {:induction false} BinLoose(op: Op, x: Expr)
    ensures Parenthesized(if op == AndOp then KAnd else KOr, KindOf(x)) <==> op == AndOp && IsOp(OrOp, x)
  {
  }

  lemma {:induction false} OpenedComparison(r: Rel, a: Sym, b: Sym)
    ensures Opened([TSym(a), TRel(r), TSym(b)]) == 0
  {
    assert [TSym(a), TRel(r), TSym(b)] == [TSym(a)] + [TRel(r)] + [TSym(b)];
    assert [TSym(a)][1..] == [];
    OpenedJoined([TSym(a)], TRel(r), [TSym(b)]);
    assert [TSym(b)][1..] == [];
  }

  lemma {:induction false} OpenedJoined(a: seq<Token>, t: Token, b: seq<Token>)
    requires t != TOpen
    ensures Opened(a + [t] + b) == Opened(a) + Opened(b)
  {
    OpenedShort(a, t);
    OpenedConcat(a + [t], b);
  }

  lemma {:induction false} OpenedShort(a: seq<Token>, t: Token)
    ensures Opened(a + [t]) == Opened(a) + if t == TOpen then 1 else 0
  {
    OpenedConcat(a, [t]);
    assert [t][1..] == [];
  }

  lemma {:induction false} OpenedPrint(e: Expr, prev: Kind)
    ensures Opened(Print(e, prev)) == LooseOperands(e) + if Parenthesized(prev, KindOf(e)) then 1 else 0
    decreases e, 1
  {
    OpenedBare(e);
    OpenedShort([], TOpen);
    OpenedConcat([TOpen], Bare(e));
    OpenedShort([TOpen] + Bare(e), TClose);
  }

  /** Parentheses are printed only around operands that would otherwise be read as part of something else. */
  lemma {:induction false} ParenthesesNeeded(e: Expr)
    ensures Opened(Print(e, KNone)) == LooseOperands(e)
  {
    OpenedPrint(e, KNone);
  }

  // ----- reading -----

  datatype Parsed = Error | Parsed(e: Expr, rest: seq<Token>)

  function ParseUnary(ts: seq<Token>): (r: Parsed)
    ensures r.Parsed? ==> |r.rest| < |ts|
    decreases |ts|, 0
  {
    if ts == [] then Error
    else match ts[0]
      case TNot =>
        var x := ParseUnary(ts[1..]);
        if x.Error? then Error else Parsed(Not(x.e), x.rest)
      case TOpen =>
        var x := ParseOr(ts[1..]);
        if x.Error? || x.rest == [] || x.rest[0] != TClose then Error else Parsed(x.e, x.rest[1..])
      case TSym(a) =>
        if |ts| >= 2 && ts[1].TRel? then
          if |ts| >= 3 && ts[2].TSym? then Parsed(Comp(ts[1].r, a, ts[2].s), ts[3..]) else Error
        else Parsed(Symbol(a), ts[1..])
      case _ => Error
  }

  function ParseAnd(ts: seq<Token>): (r: Parsed)
    ensures r.Parsed? ==> |r.rest| < |ts|
    decreases |ts|, 1
  {
    var x := ParseUnary(ts);
    if x.Error? then Error else AndTail(x.e, x.rest)
  }

  function AndTail(acc: Expr, ts: seq<Token>): (r: Parsed)
    ensures r.Parsed? ==> |r.rest| <= |ts|
    decreases |ts|, 1
  {
    if ts == [] || ts[0] != TAnd then Parsed(acc, ts)
    else
      var x := ParseUnary(ts[1..]);
      if x.Error? then Error else AndTail(And(acc, x.e), x.rest)
  }

  function ParseOr(ts: seq<Token>): (r: Parsed)
    ensures r.Parsed? ==> |r.rest| < |ts|
    decreases |ts|, 2
  {
    var x := ParseAnd(ts);
    if x.Error? then Error else OrTail(x.e, x.rest)
  }

  function OrTail(acc: Expr, ts: seq<Token>): (r: Parsed)
    ensures r.Parsed? ==> |r.rest| <= |ts|
    decreases |ts|, 2
  {
    if ts == [] || ts[0] != TOr then Parsed(acc, ts)
    else
      var x := ParseAnd(ts[1..]);
      if x.Error? then Error else OrTail(Or(acc, x.e), x.rest)
  }

  /** Reads a whole line of tokens. */
  function Parse(ts: seq<Token>): Option<Expr> {
    var x := ParseOr(ts);
    if x.Error? || x.rest != [] then None else Some(x.e)
  }

  // ----- grouping to the left -----

  /** The same expression with every run of && and every run of || grouped to the left. */
  function LeftGrouped(e: Expr): Expr
    decreases e, 1
  {
    match e
    case Symbol(_) => e
    case Comp(_, _, _) => e
    case Not(x) => Not(LeftGrouped(x))
    case Bin(op, l, r) => Chain(op, LeftGrouped(l), r)
  }

  /** acc op the operands of e, one after the other. */
  function Chain(op: Op, acc: Expr, e: Expr): Expr
    decreases e, 2
  {
    if IsOp(op, e) then Chain(op, Chain(op, acc, e.left), e.right) else Bin(op, acc, LeftGrouped(e))
  }

  function GroupAll(es: seq<Expr>): (r: seq<Expr>)
    ensures |r| == |es|
  {
    seq(|es|, i requires 0 <= i < |es| => LeftGrouped(es[i]))
  }

  lemma {:induction false} GroupAllConcat(a: seq<Expr>, b: seq<Expr>)
    ensures GroupAll(a + b) == GroupAll(a) + GroupAll(b)
  {
  }

  lemma {:induction false} ChainOperands(op: Op, acc: Expr, e: Expr)
    ensures IsOp(op, Chain(op, acc, e))
    ensures Operands(op, Chain(op, acc, e)) == Operands(op, acc) + GroupAll(Operands(op, e))
    decreases e, 2
  {
    if IsOp(op, e) {
      var c := Chain(op, acc, e.left);
      ChainOperands(op, acc, e.left);
      ChainOperands(op, c, e.right);
      GroupAllConcat(Operands(op, e.left), Operands(op, e.right));
      assert Operands(op, Chain(op, acc, e)) == Operands(op, acc) + GroupAll(Operands(op, e.left))
             + GroupAll(Operands(op, e.right));
    } else {
      LeftGroupedOperands(op, e);
      assert GroupAll([e]) == [LeftGrouped(e)];
    }
  }

  /** Grouping only re-associates: the operands of every run stay the same, in the same order. */
  lemma {:induction false} LeftGroupedOperands(op: Op, e: Expr)
    ensures Operands(op, LeftGrouped(e)) == GroupAll(Operands(op, e))
    ensures IsOp(op, LeftGrouped(e)) == IsOp(op, e)
    decreases e, 1
  {
    if IsOp(op, e) {
      LeftGroupedOperands(op, e.left);
      ChainOperands(op, LeftGrouped(e.left), e.right);
      GroupAllConcat(Operands(op, e.left), Operands(op, e.right));
    } else {
      if e.Bin? {
        ChainIsBin(e.op, LeftGrouped(e.left), e.right);
      }
      assert GroupAll([e]) == [LeftGrouped(e)];
    }
  }

  lemma {:induction false} ChainIsBin(op: Op, acc: Expr, e: Expr)
    ensures IsOp(op, Chain(op, acc, e))
    decreases e
  {
    if IsOp(op, e) {
      ChainIsBin(op, Chain(op, acc, e.left), e.right);
    }
  }

  lemma {:induction false} ChainValue(op: Op, acc: Expr, e: Expr, v: Valuation)
    ensures Eval(Chain(op, acc, e), v) == Apply(op, Eval(acc, v), Eval(e, v))
    decreases e, 2
  {
    if IsOp(op, e) {
      ChainValue(op, acc, e.left, v);
      ChainValue(op, Chain(op, acc, e.left), e.right, v);
    } else {
      LeftGroupedValue(e, v);
    }
  }

  lemma {:induction false} LeftGroupedValue(e: Expr, v: Valuation)
    ensures Eval(LeftGrouped(e), v) == Eval(e, v)
    decreases e, 1
  {
    match e
    case Not(x) => LeftGroupedValue(x, v);
    case Bin(op, l, r) =>
      LeftGroupedValue(l, v);
      ChainValue(op, LeftGrouped(l), r, v);
    case _ =>
  }

  // ----- the round trip -----

  /** The tokens that follow do not turn a symbol into a comparison. */
  predicate NoRel(ts: seq<Token>) { ts == [] || !ts[0].TRel? }

  /** The tokens that follow extend neither a comparison nor a run of &&. */
  predicate Stops(ts: seq<Token>) { NoRel(ts) && (ts == [] || ts[0] != TAnd) }

  lemma {:induction false} ReadUnary(e: Expr, rest: seq<Token>)
    requires NoRel(rest)
    ensures ParseUnary(Print(e, KNot) + rest) == Parsed(LeftGrouped(e), rest)
    decreases e, if e.Bin? then 3 else 1
  {
    hide ParseAnd, AndTail, ParseOr, OrTail, Chain;
    var ts := Print(e, KNot) + rest;
    match e
    case Symbol(s) =>
      assert Print(e, KNot) == [TSym(s)];
      assert ts[1..] == rest;
    case Comp(r, a, b) =>
      assert Print(e, KNot) == [TSym(a), TRel(r), TSym(b)];
      assert ts[3..] == rest;
    case Not(x) =>
      assert Print(e, KNot) == [TNot] + Print(x, KNot);
      assert ts[1..] == Print(x, KNot) + rest;
      ReadUnary(x, rest);
    case Bin(op, l, r) =>
      ReadParenthesized(e, rest);
  }

  lemma {:induction false} ReadParenthesized(e: Expr, rest: seq<Token>)
    requires e.Bin?
    ensures ParseUnary(Print(e, KNot) + rest) == Parsed(LeftGrouped(e), rest)
    decreases e, 2, 1
  {
    hide ParseAnd, AndTail, ParseOr, Chain;
    var ts, more := Print(e, KNot) + rest, [TClose] + rest;
    assert Print(e, KNot) == [TOpen] + Print(e, KOr) + [TClose];
    assert ts[0] == TOpen && ts[1..] == Print(e, KOr) + more;
    ReadOr(e, more);
    assert more[1..] == rest;
  }

  /** An operand of && is printed as it would be under !. */
  lemma {:induction false} SameAsUnary(e: Expr, prev: Kind)
    requires (prev == KAnd && !IsOp(AndOp, e)) || (prev == KOr && !e.Bin?)
    ensures Print(e, prev) == Print(e, KNot)
  {
  }

  /** Both operands of a chain are printed as operands of its own operator. */
  lemma {:induction false} PrintBoth(op: Op, e: Expr)
    requires IsOp(op, e)
    ensures Print(e, KindOfOp(op)) == Print(e.left, KindOfOp(op)) + [Sign(op)] + Print(e.right, KindOfOp(op))
  {
  }

  lemma {:induction false} Regroup(a: seq<Token>, b: seq<Token>, c: seq<Token>, rest: seq<Token>)
    ensures a + (b + c) + rest == a + b + (c + rest) && b + c + rest == b + (c + rest)
  {
  }

  lemma {:induction false} ReadAndTail(acc: Expr, e: Expr, rest: seq<Token>)
    requires NoRel(rest)
    ensures AndTail(acc, [TAnd] + Print(e, KAnd) + rest) == AndTail(Chain(AndOp, acc, e), rest)
    decreases e, 4
  {
    hide ParseUnary, Bare;
    var ts := [TAnd] + Print(e, KAnd) + rest;
    if IsOp(AndOp, e) {
      var tail := [TAnd] + Print(e.right, KAnd);
      var more := tail + rest;
      assert Print(e, KAnd) == Print(e.left, KAnd) + tail by { PrintBoth(AndOp, e); }
      Regroup([TAnd], Print(e.left, KAnd), tail, rest);
      ReadAndTail(acc, e.left, more);
      ReadAndTail(Chain(AndOp, acc, e.left), e.right, rest);
    } else {
      SameAsUnary(e, KAnd);
      assert ts[1..] == Print(e, KNot) + rest;
      ReadUnary(e, rest);
    }
  }

  lemma {:induction false} ReadAnd(e: Expr, rest: seq<Token>)
    requires NoRel(rest)
    ensures ParseAnd(Print(e, KAnd) + rest) == AndTail(LeftGrouped(e), rest)
    decreases e, if IsOp(AndOp, e) then 1 else 4
  {
    hide ParseUnary, AndTail, Bare;
    if IsOp(AndOp, e) {
      var more := [TAnd] + Print(e.right, KAnd) + rest;
      assert Print(e, KAnd) + rest == Print(e.left, KAnd) + more by { PrintBoth(AndOp, e); }
      ReadAnd(e.left, more);
      ReadAndTail(LeftGrouped(e.left), e.right, rest);
    } else {
      SameAsUnary(e, KAnd);
      ReadUnary(e, rest);
    }
  }

  /** An operand of || is printed as it would be under &&. */
  lemma {:induction false} SameAsAnd(e: Expr)
    requires !IsOp(OrOp, e)
    ensures Print(e, KOr) == Print(e, KAnd)
  {
  }

  lemma {:induction false} AndStops(acc: Expr, rest: seq<Token>)
    requires Stops(rest)
    ensures AndTail(acc, rest) == Parsed(acc, rest)
  {
  }

  lemma {:induction false} ReadOrTail(acc: Expr, e: Expr, rest: seq<Token>)
    requires Stops(rest)
    ensures OrTail(acc, [TOr] + Print(e, KOr) + rest) == OrTail(Chain(OrOp, acc, e), rest)
    decreases e, 5
  {
    hide ParseUnary, ParseAnd, Bare;
    var ts := [TOr] + Print(e, KOr) + rest;
    if IsOp(OrOp, e) {
      var tail := [TOr] + Print(e.right, KOr);
      var more := tail + rest;
      assert Print(e, KOr) == Print(e.left, KOr) + tail by { PrintBoth(OrOp, e); }
      Regroup([TOr], Print(e.left, KOr), tail, rest);
      ReadOrTail(acc, e.left, more);
      ReadOrTail(Chain(OrOp, acc, e.left), e.right, rest);
    } else {
      SameAsAnd(e);
      assert ts[1..] == Print(e, KAnd) + rest;
      ReadAnd(e, rest);
      AndStops(LeftGrouped(e), rest);
    }
  }

  lemma {:induction false} ReadOr(e: Expr, rest: seq<Token>)
    requires Stops(rest)
    ensures ParseOr(Print(e, KOr) + rest) == OrTail(LeftGrouped(e), rest)
    decreases e, if e.Bin? then 2 else 5, 0
  {
    hide ParseUnary, AndTail, OrTail, Bare;
    if IsOp(OrOp, e) {
      var more := [TOr] + Print(e.right, KOr) + rest;
      assert Print(e, KOr) + rest == Print(e.left, KOr) + more by { PrintBoth(OrOp, e); }
      ReadOr(e.left, more);
      ReadOrTail(LeftGrouped(e.left), e.right, rest);
    } else {
      SameAsAnd(e);
      ReadAnd(e, rest);
      AndStops(LeftGrouped(e), rest);
    }
  }

  /** Reading back what was printed gives the same expression, grouped to the left, and the same value. */
  lemma {:induction false} PrintParseRoundTrip(e: Expr, v: Valuation)
    ensures Parse(Print(e, KNone)) == Some(LeftGrouped(e))
    ensures Eval(LeftGrouped(e), v) == Eval(e, v)
  {
    assert Print(e, KNone) == Print(e, KOr) + [];
    ReadOr(e, []);
    LeftGroupedValue(e, v);
  }

  /** What was read back prints as the same tokens. */
  lemma {:induction false} ReprintStable(e: Expr)
    ensures Bare(LeftGrouped(e)) == Bare(e) && KindOf(LeftGrouped(e)) == KindOf(e)
    decreases e, 1
  {
    match e
    case Not(x) => ReprintStable(x);
    case Bin(op, l, r) =>
      ReprintStable(l);
      ReprintChain(op, LeftGrouped(l), r);
    case _ =>
  }

  function Sign(op: Op): Token { if op == AndOp then TAnd else TOr }
  function KindOfOp(op: Op): Kind { if op == AndOp then KAnd else KOr }

  lemma {:induction false} ReprintChain(op: Op, acc: Expr, e: Expr)
    ensures KindOf(Chain(op, acc, e)) == KindOfOp(op)
    ensures Bare(Chain(op, acc, e)) == Print(acc, KindOfOp(op)) + [Sign(op)] + Print(e, KindOfOp(op))
    decreases e, 2
  {
    var k := KindOfOp(op);
    if IsOp(op, e) {
      var c := Chain(op, acc, e.left);
      ReprintChain(op, acc, e.left);
      ReprintChain(op, c, e.right);
      assert Print(c, k) == Bare(c);
      PrintBoth(op, e);
      Regroup(Print(acc, k) + [Sign(op)], Print(e.left, k), [Sign(op)], Print(e.right, k));
    } else {
      ReprintStable(e);
    }
  }
}
