/**
 Macro expansion in Kconfig (scripts/config/preprocess.c) as a function: what a
 string expands to under a table of variables, each with the number of its
 expansions in progress.
 */
module MacroModel {
  import opened Basics

  datatype Error = Unterminated | TooManyArguments | SelfReference(name: string) | TooDeep
    | FunctionFailed(name: string)

  datatype Result<+T> = Ok(value: T) | Err(error: Error)

  /** A variable of the list; only a recursive one is expanded again at each use. */
  datatype Variable = Variable(name: string, value: string, recursive: bool)

  /** What is outside: the variable list, the built-in functions and the environment. */
  datatype World = World(variables: seq<Variable>, builtin: (string, seq<string>) -> Option<Result<string>>,
                         env: string -> Option<string>)

  const FUNCTION_MAX_ARGS: nat := 16
  const MAX_DEPTH: nat := 1000

  /** `variable_lookup`: the first one of that name. */
  function Lookup(vs: seq<Variable>, name: string): (i: Option<nat>)
    ensures i.Some? ==> i.value < |vs| && vs[i.value].name == name && forall j :: 0 <= j < i.value ==>
            vs[j].name != name
    ensures i.None? ==> forall j :: 0 <= j < |vs| ==> vs[j].name != name
  {
    if vs == [] then None
    else if vs[0].name == name then Some(0)
    else
      var rest := Lookup(vs[1..], name);
      assert forall j :: 0 < j < |vs| ==> vs[1..][j - 1] == vs[j];
      if rest.None? then None else Some(rest.value + 1)
  }

  // ----- the measure -----

  /** The expansions that the depth limit still allows. */
  function Budget(counts: seq<nat>): nat {
    if counts == [] then 0 else (if counts[0] <= MAX_DEPTH then MAX_DEPTH + 1 - counts[0] else 0) + Budget(counts[1..])
  }

  function Entered(counts: seq<nat>, i: nat): (r: seq<nat>)
    requires i < |counts|
    ensures |r| == |counts|
  {
    counts[i := counts[i] + 1]
  }

  lemma {:induction false} BudgetFalls(counts: seq<nat>, i: nat)
    requires i < |counts| && counts[i] <= MAX_DEPTH
    ensures Budget(Entered(counts, i)) == Budget(counts) - 1
    decreases i
  {
    if i == 0 {
      assert Entered(counts, 0)[1..] == counts[1..];
    } else {
      assert Entered(counts, i)[1..] == Entered(counts[1..], i - 1);
      BudgetFalls(counts[1..], i - 1);
    }
  }

  // ----- parentheses -----

  /** Where the parenthesis closes that is open by nest more. */
  function Close(s: string, nest: nat): (q: Option<nat>)
    ensures q.Some? ==> q.value < |s| && s[q.value] == ')'
  {
    if s == [] then None
    else if s[0] == ')' && nest == 0 then Some(0)
    else
      var rest := Close(s[1..], if s[0] == '(' then nest + 1 else if s[0] == ')' then nest - 1 else nest);
      if rest.None? then None else Some(rest.value + 1)
  }

  /** Opening minus closing parentheses. */
  function Depth(s: string): int {
    if s == [] then 0 else (if s[0] == '(' then 1 else if s[0] == ')' then -1 else 0) + Depth(s[1..])
  }

  /** The parenthesis found is the one that matches: everything before it is balanced. */
  lemma {:induction false} CloseMatches(s: string, nest: nat)
    requires Close(s, nest).Some?
    ensures var q := Close(s, nest).value;
            nest + Depth(s[..q]) == 0 && forall k :: 0 <= k <= q ==> nest + Depth(s[..k]) >= 0
  {
    var q := Close(s, nest).value;
    if q > 0 {
      var nest' := if s[0] == '(' then nest + 1 else if s[0] == ')' then nest - 1 else nest;
      CloseMatches(s[1..], nest');
      assert s[..q][1..] == s[1..][..q - 1];
      forall k | 0 <= k <= q ensures nest + Depth(s[..k]) >= 0 {
        if k > 0 {
          assert s[..k][1..] == s[1..][..k - 1];
        }
      }
    }
  }

  /** Without one no prefix closes more than it may. */
  lemma {:induction false} CloseMissing(s: string, nest: nat, k: nat)
    requires Close(s, nest).None? && k <= |s|
    ensures nest + Depth(s[..k]) >= 0
  {
    if k > 0 {
      CloseMissing(s[1..], if s[0] == '(' then nest + 1 else if s[0] == ')' then nest - 1 else nest, k - 1);
      assert s[..k][1..] == s[1..][..k - 1];
    }
  }

  lemma {:induction false} DepthEnds(s: string, q: nat)
    requires q < |s| && s[q] == ')'
    ensures Depth(s[..q + 1]) == Depth(s[..q]) - 1
    decreases q
  {
    assert s[..q + 1][1..] == s[1..][..q];
    if q > 0 {
      assert s[..q][1..] == s[1..][..q - 1];
      DepthEnds(s[1..], q - 1);
    } else {
      assert s[..1][1..] == [] && s[..0] == [];
    }
  }

  /** A reference is unterminated exactly when no part of the text after it closes more than it opens. */
  lemma {:induction false} UnterminatedExactly(s: string, nest: nat)
    ensures Close(s, nest).None? <==> forall k :: 0 <= k <= |s| ==> nest + Depth(s[..k]) >= 0
  {
    if Close(s, nest).None? {
      forall k | 0 <= k <= |s| ensures nest + Depth(s[..k]) >= 0 {
        CloseMissing(s, nest, k);
      }
    } else {
      var q := Close(s, nest).value;
      CloseMatches(s, nest);
      DepthEnds(s, q);
      assert nest + Depth(s[..q + 1]) < 0;
    }
  }

  // ----- splitting a clause -----

  /** The text between commas outside parentheses; token is what has been read of the current piece. */
  function Split(t: string, nest: int, token: string): (r: seq<string>)
    ensures r != []
    decreases |t|
  {
    if t == [] then [token]
    else if nest == 0 && t[0] == ',' then [token] + Split(t[1..], 0, [])
    else Split(t[1..], if t[0] == '(' then nest + 1 else if t[0] == ')' then nest - 1 else nest, token + [t[0]])
  }

  function Joined(tokens: seq<string>): string {
    if tokens == [] then [] else if |tokens| == 1 then tokens[0] else tokens[0] + "," + Joined(tokens[1..])
  }

  /** Splitting loses nothing: put together with commas, the pieces are the text again. */
  lemma {:induction false} SplitJoined(t: string, nest: int, token: string)
    ensures Joined(Split(t, nest, token)) == token + t
    decreases |t|
  {
    if t != [] {
      assert t == [t[0]] + t[1..];
      if nest == 0 && t[0] == ',' {
        SplitJoined(t[1..], 0, []);
        var rest := Split(t[1..], 0, []);
        assert ([token] + rest)[1..] == rest;
        assert token + "," + t[1..] == token + t;
      } else {
        SplitJoined(t[1..], if t[0] == '(' then nest + 1 else if t[0] == ')' then nest - 1 else nest, token + [t[0]]);
        assert token + [t[0]] + t[1..] == token + t;
      }
    }
  }

  /** Every piece is shorter than two characters more than the text. */
  lemma {:induction false} SplitFits(t: string, nest: int, token: string, k: nat)
    requires k < |Split(t, nest, token)|
    ensures |Split(t, nest, token)[k]| <= |token| + |t|
    decreases |t|
  {
    if t != [] {
      if nest == 0 && t[0] == ',' {
        if k > 0 {
          SplitFits(t[1..], 0, [], k - 1);
        }
      } else {
        SplitFits(t[1..], if t[0] == '(' then nest + 1 else if t[0] == ')' then nest - 1 else nest, token + [t[0]], k);
      }
    }
  }

  // ----- numbers -----

  predicate IsSpace(c: char) { c == ' ' || '\t' <= c <= '\r' }

  function DigitsValue(s: string, n: nat): Option<nat> {
    if s == [] then Some(n) else if IsDigit(s[0]) then DigitsValue(s[1..], 10 * n + (s[0] - '0') as nat) else None
  }

  const ULONG_MAX: nat := 0xFFFF_FFFF_FFFF_FFFF

  /** What `strtoul` makes of a string that it reads to the end; zero if it does not. */
  function WholeNumber(s: string): nat
    decreases |s|
  {
    if s != [] && IsSpace(s[0]) then WholeNumber(s[1..])
    else
      var negative := s != [] && s[0] == '-';
      var digits := if s != [] && (s[0] == '-' || s[0] == '+') then s[1..] else s;
      var n := if digits == [] then None else DigitsValue(digits, 0);
      if n.None? then 0
      else if n.value > ULONG_MAX then ULONG_MAX
      else if negative && n.value > 0 then ULONG_MAX + 1 - n.value
      else n.value
  }

  // ----- expansion -----

  /** What was expanded, and what is left of the string. */
  datatype Piece = Piece(out: string, rest: string)

  function Prepend(x: string, r: Result<Piece>): Result<Piece> {
    if r.Err? then r else Ok(Piece(x + r.value.out, r.value.rest))
  }

  predicate NeverEnds(c: char) { false }

  /** `__expand_string`: up to the end of the string, or to a character at which it ends. */
  function Expand(w: World, counts: seq<nat>, s: string, ends: char -> bool, args: seq<string>): (r: Result<Piece>)
    requires |counts| == |w.variables|
    decreases Budget(counts), |s|, 2
  {
    if s != [] && s[0] == '$' then
      var d := Dollar(w, counts, s[1..], args);
      if d.Err? then d else Prepend(d.value.out, Expand(w, counts, d.value.rest, ends, args))
    else if s == [] || ends(s[0]) then Ok(Piece([], s))
    else Prepend([s[0]], Expand(w, counts, s[1..], ends, args))
  }

  /** `expand_dollar_with_args`: what follows a '$'. */
  function Dollar(w: World, counts: seq<nat>, s: string, args: seq<string>): (r: Result<Piece>)
    requires |counts| == |w.variables|
    ensures r.Ok? ==> |r.value.rest| <= |s|
    decreases Budget(counts), |s|, 1
  {
    if s == [] || s[0] != '(' then Ok(Piece("$", s))
    else
      var q := Close(s[1..], 0);
      if q.None? then Err(Unterminated)
      else
        var r := Clause(w, counts, s[1..][..q.value], args);
        if r.Err? then Err(r.error) else Ok(Piece(r.value, s[1..][q.value + 1..]))
  }

  /** `eval_clause`: an argument, or a name with arguments of its own. */
  function Clause(w: World, counts: seq<nat>, t: string, args: seq<string>): (r: Result<string>)
    requires |counts| == |w.variables|
    decreases Budget(counts), |t|, 4
  {
    var n := WholeNumber(t);
    if 0 < n <= |args| then Ok(args[n - 1])
    else
      var tokens := Split(t, 0, []);
      if |tokens| > FUNCTION_MAX_ARGS then Err(TooManyArguments)
      else
        var all := ExpandAll(w, counts, t, tokens, 0, args);
        if all.Err? then Err(all.error) else Call(w, counts, all.value[0], all.value[1..])
  }

  /** The name and the arguments, each expanded to its end, in order. */
  function ExpandAll(w: World, counts: seq<nat>, t: string, tokens: seq<string>, k: nat,
                     args: seq<string>): (r: Result<seq<string>>)
    requires |counts| == |w.variables| && tokens == Split(t, 0, []) && k <= |tokens|
    ensures r.Ok? ==> |r.value| == |tokens| - k
    decreases Budget(counts), |t|, 3, |tokens| - k
  {
    if k == |tokens| then Ok([])
    else
      SplitFits(t, 0, [], k);
      var x := Expand(w, counts, tokens[k], NeverEnds, args);
      if x.Err? then Err(x.error)
      else
        var more := ExpandAll(w, counts, t, tokens, k + 1, args);
        if more.Err? then more else Ok([x.value.out] + more.value)
  }

  /** A variable, a built-in function, or an environment variable; anything else is empty. */
  function Call(w: World, counts: seq<nat>, name: string, args: seq<string>): (r: Result<string>)
    requires |counts| == |w.variables|
    decreases Budget(counts), 0, 1
  {
    var i := Lookup(w.variables, name);
    if i.Some? then VariableExpand(w, counts, i.value, args)
    else if w.builtin(name, args).Some? then w.builtin(name, args).value
    else if args == [] && w.env(name).Some? then Ok(w.env(name).value)
    else Ok("")
  }

  /** `variable_expand` */
  function VariableExpand(w: World, counts: seq<nat>, i: nat, args: seq<string>): (r: Result<string>)
    requires |counts| == |w.variables| && i < |counts|
    decreases Budget(counts), 0, 0
  {
    var v := w.variables[i];
    if args == [] && counts[i] > 0 then Err(SelfReference(v.name))
    else if counts[i] > MAX_DEPTH then Err(TooDeep)
    else if !v.recursive then Ok(v.value)
    else
      BudgetFalls(counts, i);
      var r := Expand(w, Entered(counts, i), v.value, NeverEnds, args);
      if r.Err? then Err(r.error) else Ok(r.value.out)
  }

  // ----- where the cursor stops -----

  /**
   What is left after the first character that ends the string outside every matched `$( )`; None when one is
   open.
   */
  function Stop(s: string, ends: char -> bool): Option<string>
    decreases |s|
  {
    if s == [] then Some(s)
    else if s[0] == '$' then
      if |s| > 1 && s[1] == '(' then
        var q := Close(s[2..], 0);
        if q.None? then None else Stop(s[2..][q.value + 1..], ends)
      else Stop(s[1..], ends)
    else if ends(s[0]) then Some(s)
    else Stop(s[1..], ends)
  }

  /** Where the cursor stops depends on the text alone, not on the variables. */
  lemma {:induction false} ExpandStops(w: World, counts: seq<nat>, s: string, ends: char -> bool, args: seq<string>)
    requires |counts| == |w.variables| && Expand(w, counts, s, ends, args).Ok?
    ensures Stop(s, ends) == Some(Expand(w, counts, s, ends, args).value.rest)
    decreases |s|
  {
    hide Clause, Budget;
    if s != [] && s[0] == '$' {
      var d := Dollar(w, counts, s[1..], args);
      assert |s| > 1 && s[1] == '(' ==> s[1..][1..] == s[2..];
      ExpandStops(w, counts, d.value.rest, ends, args);
    } else if s != [] && !ends(s[0]) {
      ExpandStops(w, counts, s[1..], ends, args);
    }
  }

  /** Text without a '$' expands to itself. */
  lemma {:induction false} PlainText(w: World, counts: seq<nat>, s: string, args: seq<string>)
    requires |counts| == |w.variables| && '$' !in s
    ensures Expand(w, counts, s, NeverEnds, args) == Ok(Piece(s, []))
    decreases |s|
  {
    if s != [] {
      PlainText(w, counts, s[1..], args);
      assert s == [s[0]] + s[1..];
    }
  }

  // ----- the counters only ever cut an expansion short -----

  predicate Below(a: seq<nat>, b: seq<nat>) { |a| == |b| && forall i :: 0 <= i < |a| ==> a[i] <= b[i] }

  /**
   An expansion that succeeds while others are in progress gives the same result with fewer of them in
   progress: the counters decide whether there is a result, never which.
   */
  lemma {:induction false} ExpandTransparent(w: World, low: seq<nat>, counts: seq<nat>, s: string, ends: char -> bool,
                                             args: seq<string>)
    requires |counts| == |w.variables| && Below(low, counts) && Expand(w, counts, s, ends, args).Ok?
    ensures Expand(w, low, s, ends, args) == Expand(w, counts, s, ends, args)
    decreases Budget(counts), |s|, 2
  {
    if s != [] && s[0] == '$' {
      DollarTransparent(w, low, counts, s[1..], args);
      ExpandTransparent(w, low, counts, Dollar(w, counts, s[1..], args).value.rest, ends, args);
    } else if s != [] && !ends(s[0]) {
      ExpandTransparent(w, low, counts, s[1..], ends, args);
    }
  }

  lemma {:induction false} DollarTransparent(w: World, low: seq<nat>, counts: seq<nat>, s: string, args: seq<string>)
    requires |counts| == |w.variables| && Below(low, counts) && Dollar(w, counts, s, args).Ok?
    ensures Dollar(w, low, s, args) == Dollar(w, counts, s, args)
    decreases Budget(counts), |s|, 1
  {
    if s != [] && s[0] == '(' {
      ClauseTransparent(w, low, counts, s[1..][..Close(s[1..], 0).value], args);
    }
  }

  lemma {:induction false} ClauseTransparent(w: World, low: seq<nat>, counts: seq<nat>, t: string, args: seq<string>)
    requires |counts| == |w.variables| && Below(low, counts) && Clause(w, counts, t, args).Ok?
    ensures Clause(w, low, t, args) == Clause(w, counts, t, args)
    decreases Budget(counts), |t|, 4
  {
    var n := WholeNumber(t);
    if !(0 < n <= |args|) {
      var tokens := Split(t, 0, []);
      AllTransparent(w, low, counts, t, tokens, 0, args);
      var all := ExpandAll(w, counts, t, tokens, 0, args).value;
      CallTransparent(w, low, counts, all[0], all[1..]);
    }
  }

  lemma {:induction false} AllTransparent(w: World, low: seq<nat>, counts: seq<nat>, t: string, tokens: seq<string>,
                                          k: nat, args: seq<string>)
    requires |counts| == |w.variables| && Below(low, counts) && tokens == Split(t, 0, []) && k <= |tokens|
    requires ExpandAll(w, counts, t, tokens, k, args).Ok?
    ensures ExpandAll(w, low, t, tokens, k, args) == ExpandAll(w, counts, t, tokens, k, args)
    decreases Budget(counts), |t|, 3, |tokens| - k
  {
    if k < |tokens| {
      SplitFits(t, 0, [], k);
      ExpandTransparent(w, low, counts, tokens[k], NeverEnds, args);
      AllTransparent(w, low, counts, t, tokens, k + 1, args);
    }
  }

  lemma {:induction false} CallTransparent(w: World, low: seq<nat>, counts: seq<nat>, name: string, args: seq<string>)
    requires |counts| == |w.variables| && Below(low, counts) && Call(w, counts, name, args).Ok?
    ensures Call(w, low, name, args) == Call(w, counts, name, args)
    decreases Budget(counts), 0, 1
  {
    var i := Lookup(w.variables, name);
    if i.Some? {
      var v := w.variables[i.value];
      if v.recursive {
        BudgetFalls(counts, i.value);
        ExpandTransparent(w, Entered(low, i.value), Entered(counts, i.value), v.value, NeverEnds, args);
      }
    }
  }

  // ----- expansion works piece by piece -----

  lemma {:induction false} CloseLonger(a: string, b: string, nest: nat)
    requires Close(a, nest).Some?
    ensures Close(a + b, nest) == Close(a, nest)
  {
    if !(a[0] == ')' && nest == 0) {
      assert (a + b)[1..] == a[1..] + b;
      CloseLonger(a[1..], b, if a[0] == '(' then nest + 1 else if a[0] == ')' then nest - 1 else nest);
    }
  }

  /** Complete text is expanded the same whatever follows; only a '$' at its end could change meaning. */
  lemma {:induction false} ExpandConcat(w: World, counts: seq<nat>, a: string, b: string, args: seq<string>)
    requires |counts| == |w.variables| && Expand(w, counts, a, NeverEnds, args).Ok? && (a == [] || a[|a| - 1] != '$')
    ensures Expand(w, counts, a + b, NeverEnds, args) ==
            Prepend(Expand(w, counts, a, NeverEnds, args).value.out, Expand(w, counts, b, NeverEnds, args))
    decreases |a|
  {
    hide Dollar, Budget, Expand, Prepend;
    var rb := Expand(w, counts, b, NeverEnds, args);
    ExpandStep(w, counts, a, args);
    if a == [] {
      assert a + b == b;
      PrependNothing(rb);
    } else {
      assert (a + b)[1..] == a[1..] + b;
      ExpandStep(w, counts, a + b, args);
      if a[0] == '$' {
        DollarLonger(w, counts, a[1..], b, args);
        var d := Dollar(w, counts, a[1..], args).value;
        PrependOk(d.out, Expand(w, counts, d.rest, NeverEnds, args));
        ExpandConcat(w, counts, d.rest, b, args);
        Prepended(d.out, Expand(w, counts, d.rest, NeverEnds, args).value.out, rb);
      } else {
        PrependOk([a[0]], Expand(w, counts, a[1..], NeverEnds, args));
        ExpandConcat(w, counts, a[1..], b, args);
        Prepended([a[0]], Expand(w, counts, a[1..], NeverEnds, args).value.out, rb);
      }
    }
  }

  /** One character, or one reference, at a time. */
  lemma {:induction false} ExpandStep(w: World, counts: seq<nat>, s: string, args: seq<string>)
    requires |counts| == |w.variables|
    ensures Expand(w, counts, s, NeverEnds, args) ==
            if s == [] then Ok(Piece([], []))
            else if s[0] == '$' then
              var d := Dollar(w, counts, s[1..], args);
              if d.Err? then d else Prepend(d.value.out, Expand(w, counts, d.value.rest, NeverEnds, args))
            else Prepend([s[0]], Expand(w, counts, s[1..], NeverEnds, args))
  {
    hide Dollar, Budget, Prepend;
  }

  lemma {:induction false} PrependOk(x: string, r: Result<Piece>)
    ensures Prepend(x, r).Ok? <==> r.Ok?
    ensures r.Ok? ==> Prepend(x, r).value.out == x + r.value.out && Prepend(x, r).value.rest == r.value.rest
  {
  }

  lemma {:induction false} Prepended(x: string, y: string, r: Result<Piece>)
    ensures Prepend(x, Prepend(y, r)) == Prepend(x + y, r)
  {
    assert r.Ok? ==> x + (y + r.value.out) == x + y + r.value.out;
  }

  lemma {:induction false} PrependNothing(r: Result<Piece>)
    ensures Prepend("", r) == r
  {
    assert r.Ok? ==> "" + r.value.out == r.value.out;
  }

  lemma {:induction false} DollarLonger(w: World, counts: seq<nat>, a: string, b: string, args: seq<string>)
    requires |counts| == |w.variables| && a != [] && a[|a| - 1] != '$' && Dollar(w, counts, a, args).Ok?
    ensures var d := Dollar(w, counts, a, args).value;
            Dollar(w, counts, a + b, args) == Ok(Piece(d.out, d.rest + b))
              && (d.rest == [] || d.rest[|d.rest| - 1] != '$')
  {
    hide Clause;
    if a[0] == '(' {
      var q := Close(a[1..], 0).value;
      assert (a + b)[1..] == a[1..] + b;
      CloseLonger(a[1..], b, 0);
      assert (a[1..] + b)[..q] == a[1..][..q] && (a[1..] + b)[q + 1..] == a[1..][q + 1..] + b;
    }
  }

  // ----- self-reference -----

  /** A name as it stands: nothing in it to expand, to split or to read as a number. */
  predicate PlainName(name: string) {
    && (forall i :: 0 <= i < |name| ==> name[i] != '$' && name[i] != '(' && name[i] != ')' && name[i] != ',')
    && WholeNumber(name) == 0
  }

  lemma {:induction false} PlainSplit(name: string, token: string)
    requires forall i :: 0 <= i < |name| ==> name[i] != '(' && name[i] != ')' && name[i] != ','
    ensures Split(name, 0, token) == [token + name]
    decreases |name|
  {
    if name == [] {
      assert token + name == token;
    } else {
      PlainSplit(name[1..], token + [name[0]]);
      assert token + [name[0]] + name[1..] == token + name;
    }
  }

  lemma {:induction false} PlainClose(name: string, after: string)
    requires forall i :: 0 <= i < |name| ==> name[i] != '(' && name[i] != ')'
    ensures Close(name + ")" + after, 0) == Some(|name|)
    decreases |name|
  {
    var s := name + ")" + after;
    if name != [] {
      assert s[1..] == name[1..] + ")" + after;
      PlainClose(name[1..], after);
    }
  }

  lemma {:induction false} PlainTokens(w: World, counts: seq<nat>, name: string)
    requires |counts| == |w.variables| && PlainName(name)
    ensures Split(name, 0, []) == [name] && ExpandAll(w, counts, name, [name], 0, []) == Ok([name])
  {
    hide Expand, Budget, Split;
    PlainSplit(name, []);
    assert [] + name == name;
    PlainText(w, counts, name, []);
    var tokens := [name];
    assert ExpandAll(w, counts, name, tokens, 1, []) == Ok([]);
    assert tokens[0] == name && [name] + [] == [name];
  }

  lemma {:induction false} PlainClause(w: World, counts: seq<nat>, i: nat)
    requires |counts| == |w.variables| && i < |counts| && counts[i] > 0
    requires PlainName(w.variables[i].name) && Lookup(w.variables, w.variables[i].name) == Some(i)
    ensures Clause(w, counts, w.variables[i].name, []) == Err(SelfReference(w.variables[i].name))
  {
    hide Expand, ExpandAll, Budget, Split;
    var name := w.variables[i].name;
    PlainTokens(w, counts, name);
    assert [name][0] == name && [name][1..] == [];
    assert Call(w, counts, name, []) == Err(SelfReference(name));
    assert [name][1..] == [];
    assert Clause(w, counts, name, []) == Call(w, counts, [name][0], [name][1..]);
  }

  lemma {:induction false} PlainDollar(w: World, counts: seq<nat>, i: nat, after: string)
    requires |counts| == |w.variables| && i < |counts| && counts[i] > 0
    requires PlainName(w.variables[i].name) && Lookup(w.variables, w.variables[i].name) == Some(i)
    ensures Dollar(w, counts, "(" + w.variables[i].name + ")" + after, []) == Err(SelfReference(w.variables[i].name))
  {
    hide Clause, Lookup, PlainName, Budget;
    var name := w.variables[i].name;
    var s := "(" + name + ")" + after;
    assert s[1..] == name + ")" + after;
    PlainParts(name);
    PlainClose(name, after);
    assert s[1..][..|name|] == name;
    PlainClause(w, counts, i);
  }

  lemma {:induction false} PlainParts(name: string)
    requires PlainName(name)
    ensures forall i :: 0 <= i < |name| ==> name[i] != '(' && name[i] != ')'
  {
  }

  /** A variable that comes to a plain reference to itself is reported, whatever else the table holds. */
  lemma {:induction false} SelfReferenceReported(w: World, counts: seq<nat>, i: nat, before: string, after: string)
    requires |counts| == |w.variables| && i < |counts| && counts[i] == 0
    requires var v := w.variables[i];
             && v.recursive && PlainName(v.name) && Lookup(w.variables, v.name) == Some(i)
             && '$' !in before && v.value == before + "$(" + v.name + ")" + after
    ensures VariableExpand(w, counts, i, []) == Err(SelfReference(w.variables[i].name))
  {
    hide Budget, Dollar, Lookup, PlainName;
    var v := w.variables[i];
    var inside := Entered(counts, i);
    BudgetFalls(counts, i);
    PlainDollar(w, inside, i, after);
    var rest := "$" + ("(" + v.name + ")" + after);
    assert rest[1..] == "(" + v.name + ")" + after;
    assert v.value == before + rest;
    PrefixFails(w, inside, before, rest, SelfReference(v.name));
  }

  lemma {:induction false} PrefixFails(w: World, counts: seq<nat>, before: string, s: string, e: Error)
    requires |counts| == |w.variables| && '$' !in before && Expand(w, counts, s, NeverEnds, []) == Err(e)
    ensures Expand(w, counts, before + s, NeverEnds, []) == Err(e)
    decreases |before|
  {
    if before == [] {
      assert before + s == s;
    } else {
      assert (before + s)[1..] == before[1..] + s;
      PrefixFails(w, counts, before[1..], s, e);
    }
  }
}
