/**
 The macro expander as scripts/config/preprocess.c runs it: cursors that move
 through strings, a growing output, and counters that go up around every expansion
 of a variable. It computes what the model says, for every input and every table.
 */
module MacroExpander {
  import opened Basics
  import opened MacroModel

  class Preprocessor {
    const world: World
    /** `exp_count` of each variable. */
    var counts: seq<nat>

    constructor (world: World)
      ensures this.world == world && Valid() && forall i :: 0 <= i < |counts| ==> counts[i] == 0
    {
      this.world := world;
      counts := seq(|world.variables|, i => 0);
    }

    predicate Valid()
      reads this
    {
      |counts| == |world.variables|
    }

    /** `__expand_string`, from the cursor; on success every counter is back and the cursor is where the model stops. */
    method ExpandString(s: string, start: nat, ends: char -> bool, args: seq<string>)
      returns (r: Result<string>, p: nat)
      requires Valid() && start <= |s|
      modifies this
      ensures Valid() && p <= |s|
      ensures r.Ok? ==> counts == old(counts)
      ensures Agrees(r, s[p..], Expand(world, old(counts), s[start..], ends, args))
      decreases Budget(counts), |s| - start, 2
    {
      hide Budget, Dollar, Expand, Prepend;
      var out, from := "", start;
      p := start;
      PrependNothing(Expand(world, counts, s[start..], ends, args));
      assert out + s[from..p] == "";
      while true
        invariant Valid() && start <= from <= p <= |s| && counts == old(counts)
        invariant Expand(world, counts, s[start..], ends, args)
                  == Prepend(out + s[from..p], Expand(world, counts, s[p..], ends, args))
        decreases |s| - p
      {
        if p < |s| && s[p] == '$' {
          ghost var before := out + s[from..p];
          AtDollar(world, counts, s, p, ends, args, before);
          var expansion, q := ExpandDollar(s, p + 1, args);
          if expansion.Err? {
            return Err(expansion.error), |s|;
          }
          out := out + s[from..p] + expansion.value;
          p, from := q, q;
          assert out + s[from..p] == before + expansion.value;
          continue;
        }
        if p == |s| || ends(s[p]) {
          AtEnd(world, counts, s, p, ends, args);
          break;
        }
        AtPlain(world, counts, s, p, ends, args, out + s[from..p]);
        assert out + s[from..p] + [s[p]] == out + s[from..p + 1];
        p := p + 1;
      }
      out := out + s[from..p];
      PrependOk(out, Expand(world, counts, s[p..], ends, args));
      assert out + "" == out;
      r := Ok(out);
    }

    /** `expand_dollar_with_args` */
    method ExpandDollar(s: string, start: nat, args: seq<string>) returns (r: Result<string>, p: nat)
      requires Valid() && start <= |s|
      modifies this
      ensures Valid() && start <= p <= |s|
      ensures r.Ok? ==> counts == old(counts)
      ensures Agrees(r, s[p..], Dollar(world, old(counts), s[start..], args))
      decreases Budget(counts), |s| - start, 1
    {
      hide Budget, Clause;
      p := start;
      if p == |s| || s[p] != '(' {
        return Ok("$"), p;
      }
      p := p + 1;
      assert s[start..][1..] == s[p..];
      var q := FindClose(s, p);
      if q == |s| {
        return Err(Unterminated), |s|;
      }
      assert s[p..][..q - p] == s[p..q] && s[p..][q - p + 1..] == s[q + 1..];
      r := EvalClause(s[p..q], args);
      p := q + 1;
    }

    /** The search for the closing parenthesis; the end of the string when there is none. */
    method FindClose(s: string, p: nat) returns (q: nat)
      requires p <= |s|
      ensures p <= q <= |s|
      ensures Close(s[p..], 0) == if q == |s| then None else Some(q - p)
    {
      hide Close;
      var nest := 0;
      q := p;
      while q < |s|
        invariant p <= q <= |s| && nest >= 0
        invariant Close(s[p..], 0) == Shifted(Close(s[q..], nest), q - p)
      {
        CloseStep(s, q, nest);
        if s[q] == '(' {
          nest := nest + 1;
        } else if s[q] == ')' {
          if nest == 0 {
            return;
          }
          nest := nest - 1;
        }
        q := q + 1;
      }
      CloseNone(s[q..], nest);
    }

    /** `eval_clause` */
    method EvalClause(t: string, args: seq<string>) returns (r: Result<string>)
      requires Valid()
      modifies this
      ensures Valid()
      ensures r.Ok? ==> counts == old(counts)
      ensures r == Clause(world, old(counts), t, args)
      decreases Budget(counts), |t|, 4
    {
      hide Budget, Expand, ExpandAll, Call;
      var n := WholeNumber(t);
      if 0 < n <= |args| {
        return Ok(args[n - 1]);
      }
      var tokens := SplitTokens(t);
      if tokens.Err? {
        return Err(tokens.error);
      }
      var all := ExpandTokens(t, tokens.value, args);
      if all.Err? {
        return Err(all.error);
      }
      var name, newArgs := all.value[0], all.value[1..];
      var i := Lookup(world.variables, name);
      ghost var before := counts;
      Calls(world, before, name, newArgs);
      if i.Some? {
        r := ExpandVariable(i.value, newArgs);
        return;
      }
      var f := world.builtin(name, newArgs);
      if f.Some? {
        return f.value;
      }
      if newArgs == [] {
        var e := world.env(name);
        if e.Some? {
          return Ok(e.value);
        }
      }
      r := Ok("");
    }

    /** The loop that splits a clause at its commas. */
    method SplitTokens(t: string) returns (r: Result<seq<string>>)
      ensures r == if |Split(t, 0, [])| > FUNCTION_MAX_ARGS then Err(TooManyArguments) else Ok(Split(t, 0, []))
    {
      var tokens, prev, p, nest := [], 0, 0, 0;
      while p < |t|
        invariant 0 <= prev <= p <= |t| && |tokens| <= FUNCTION_MAX_ARGS
        invariant Split(t, 0, []) == tokens + Split(t[p..], nest, t[prev..p])
      {
        assert t[p..][1..] == t[p + 1..] && t[prev..p] + [t[p]] == t[prev..p + 1];
        if nest == 0 && t[p] == ',' {
          if |tokens| >= FUNCTION_MAX_ARGS {
            return Err(TooManyArguments);
          }
          ghost var before := tokens;
          tokens := tokens + [t[prev..p]];
          assert before + ([t[prev..p]] + Split(t[p + 1..], 0, [])) == tokens + Split(t[p + 1..], 0, []);
          prev := p + 1;
          assert t[prev..p + 1] == [];
        } else if t[p] == '(' {
          nest := nest + 1;
        } else if t[p] == ')' {
          nest := nest - 1;
        }
        p := p + 1;
      }
      assert t[prev..p] == t[prev..] && t[p..] == [];
      if |tokens| >= FUNCTION_MAX_ARGS {
        return Err(TooManyArguments);
      }
      tokens := tokens + [t[prev..]];
      r := Ok(tokens);
    }

    /** The name and the arguments, expanded one after the other. */
    method ExpandTokens(t: string, tokens: seq<string>, args: seq<string>) returns (r: Result<seq<string>>)
      requires Valid() && tokens == Split(t, 0, [])
      modifies this
      ensures Valid()
      ensures r.Ok? ==> counts == old(counts)
      ensures r == ExpandAll(world, old(counts), t, tokens, 0, args)
      decreases Budget(counts), |t|, 3
    {
      hide Budget, Expand, Split;
      var all: seq<string> := [];
      var k := 0;
      AppendNothing(ExpandAll(world, counts, t, tokens, 0, args));
      while k < |tokens|
        invariant k <= |tokens| && |all| == k && Valid() && counts == old(counts)
        invariant ExpandAll(world, counts, t, tokens, 0, args)
                  == After(all, ExpandAll(world, counts, t, tokens, k, args))
      {
        SplitFits(t, 0, [], k);
        assert tokens[k][0..] == tokens[k];
        var x, p := ExpandString(tokens[k], 0, NeverEnds, args);
        if x.Err? {
          return Err(x.error);
        }
        ghost var before := all;
        all := all + [x.value];
        k := k + 1;
        Appended(before, x.value, ExpandAll(world, counts, t, tokens, k, args));
      }
      assert all + [] == all;
      r := Ok(all);
    }

    /** `variable_expand`: the counter of the variable is up while its value is being expanded. */
    method ExpandVariable(i: nat, args: seq<string>) returns (r: Result<string>)
      requires Valid() && i < |counts|
      modifies this
      ensures Valid()
      ensures r.Ok? ==> counts == old(counts)
      ensures r == VariableExpand(world, old(counts), i, args)
      decreases Budget(counts), 0, 0
    {
      hide Budget, Expand;
      var v := world.variables[i];
      if |args| == 0 && counts[i] > 0 {
        return Err(SelfReference(v.name));
      }
      if counts[i] > MAX_DEPTH {
        return Err(TooDeep);
      }
      BudgetFalls(counts, i);
      counts := Entered(counts, i);
      if v.recursive {
        assert v.value[0..] == v.value;
        var p;
        r, p := ExpandString(v.value, 0, NeverEnds, args);
        if r.Err? {
          return;
        }
      } else {
        r := Ok(v.value);
      }
      counts := counts[i := counts[i] - 1];
    }

    /** `expand_one_token`: the text up to the first character that cannot be part of a token. */
    method ExpandOneToken(s: string, start: nat) returns (r: Result<string>, p: nat)
      requires Valid() && start <= |s|
      modifies this
      ensures Valid() && p <= |s|
      ensures r.Ok? ==> counts == old(counts) && Stop(s[start..], EndOfToken) == Some(s[p..])
      ensures Agrees(r, s[p..], Expand(world, old(counts), s[start..], EndOfToken, []))
    {
      r, p := ExpandString(s, start, EndOfToken, []);
      if r.Ok? {
        ExpandStops(world, counts, s[start..], EndOfToken, []);
      }
    }
  }

  /** `is_end_of_token` */
  predicate EndOfToken(c: char) {
    !('a' <= c <= 'z' || 'A' <= c <= 'Z' || '0' <= c <= '9' || c == '_' || c == '-' || c == '.' || c == '/')
  }

  /** The result and the rest of the string are those of the model. */
  predicate Agrees(r: Result<string>, rest: string, spec: Result<Piece>) {
    if spec.Err? then r == Err(spec.error) else r == Ok(spec.value.out) && rest == spec.value.rest
  }

  lemma {:induction false} CloseStep(s: string, q: nat, nest: nat)
    requires q < |s|
    ensures Close(s[q..], nest) ==
            if s[q] == ')' && nest == 0 then Some(0)
            else Shifted(Close(s[q + 1..], if s[q] == '(' then nest + 1 else if s[q] == ')' then nest - 1 else nest), 1)
  {
    assert s[q..][1..] == s[q + 1..];
  }

  lemma {:induction false} CloseNone(s: string, nest: nat)
    ensures s == [] ==> Close(s, nest) == None
  {
  }

  function Shifted(q: Option<nat>, k: nat): Option<nat> { if q.None? then None else Some(q.value + k) }

  function After(all: seq<string>, r: Result<seq<string>>): Result<seq<string>> {
    if r.Err? then r else Ok(all + r.value)
  }

  lemma {:induction false} AppendNothing(r: Result<seq<string>>)
    ensures After([], r) == r
  {
    if r.Ok? {
      assert [] + r.value == r.value;
    }
  }

  lemma {:induction false} Appended(all: seq<string>, x: string, r: Result<seq<string>>)
    ensures After(all, After([x], r)) == After(all + [x], r)
  {
    if r.Ok? {
      assert all + ([x] + r.value) == all + [x] + r.value;
    }
  }

  lemma {:induction false} AtEnd(w: World, counts: seq<nat>, s: string, p: nat, ends: char -> bool, args: seq<string>)
    requires |counts| == |w.variables| && p <= |s| && (p == |s| || (s[p] != '$' && ends(s[p])))
    ensures Expand(w, counts, s[p..], ends, args) == Ok(Piece([], s[p..]))
  {
  }

  lemma {:induction false} AtDollar(w: World, counts: seq<nat>, s: string, p: nat, ends: char -> bool,
                                    args: seq<string>, before: string)
    requires |counts| == |w.variables| && p < |s| && s[p] == '$'
    ensures var d := Dollar(w, counts, s[p + 1..], args);
            var here := Prepend(before, Expand(w, counts, s[p..], ends, args));
            if d.Err? then here == Err(d.error)
               else here == Prepend(before + d.value.out, Expand(w, counts, d.value.rest, ends, args))
  {
    assert s[p..][1..] == s[p + 1..];
    var d := Dollar(w, counts, s[p + 1..], args);
    if d.Ok? {
      Prepended(before, d.value.out, Expand(w, counts, d.value.rest, ends, args));
    }
  }

  lemma {:induction false} AtPlain(w: World, counts: seq<nat>, s: string, p: nat, ends: char -> bool,
                                   args: seq<string>, before: string)
    requires |counts| == |w.variables| && p < |s| && s[p] != '$' && !ends(s[p])
    ensures Prepend(before, Expand(w, counts, s[p..], ends, args))
            == Prepend(before + [s[p]], Expand(w, counts, s[p + 1..], ends, args))
  {
    assert s[p..][1..] == s[p + 1..];
    Prepended(before, [s[p]], Expand(w, counts, s[p + 1..], ends, args));
  }

  lemma {:induction false} Calls(w: World, counts: seq<nat>, name: string, args: seq<string>)
    requires |counts| == |w.variables|
    ensures var i := Lookup(w.variables, name);
            Call(w, counts, name, args) ==
            if i.Some? then VariableExpand(w, counts, i.value, args)
            else if w.builtin(name, args).Some? then w.builtin(name, args).value
            else if args == [] && w.env(name).Some? then Ok(w.env(name).value)
            else Ok("")
  {
  }
}
