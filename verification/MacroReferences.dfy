/**
 What a reference `$(…)` in a Kconfig macro (scripts/config/preprocess.c) means:
 a number is an argument, and a name is a variable, a built-in function or an
 environment variable, in this order, called with the texts between the commas.
 */
module MacroReferences {
  import opened Basics
  import opened MacroModel

  // ----- numbers -----

  lemma {:induction false} DigitsAreDigits(n: nat)
    ensures Digits(n) != [] && forall i :: 0 <= i < |Digits(n)| ==> IsDigit(Digits(n)[i])
    decreases n
  {
    if n >= 10 {
      DigitsAreDigits(n / 10);
    }
  }

  lemma {:induction false} DigitsValueMore(s: string, c: char, n: nat)
    requires IsDigit(c) && DigitsValue(s, n).Some?
    ensures DigitsValue(s + [c], n) == Some(10 * DigitsValue(s, n).value + (c - '0') as nat)
    decreases |s|
  {
    if s == [] {
      assert (s + [c])[1..] == [];
    } else {
      assert (s + [c])[1..] == s[1..] + [c];
      DigitsValueMore(s[1..], c, 10 * n + (s[0] - '0') as nat);
    }
  }

  lemma {:induction false} DigitsRead(n: nat)
    ensures DigitsValue(Digits(n), 0) == Some(n)
    decreases n
  {
    if n < 10 {
      var s := Digits(n);
      assert s[1..] == [];
    } else {
      DigitsRead(n / 10);
      DigitsValueMore(Digits(n / 10), "0123456789"[n % 10], 0);
    }
  }

  /** A number in decimal is read as itself. */
  lemma {:induction false} NumberRead(n: nat)
    requires n <= ULONG_MAX
    ensures WholeNumber(Digits(n)) == n
  {
    DigitsAreDigits(n);
    DigitsRead(n);
    assert IsDigit(Digits(n)[0]);
  }

  /** Text that does not mention parentheses, commas or further references. */
  predicate PlainToken(s: string) {
    forall i :: 0 <= i < |s| ==> s[i] != '$' && s[i] != '(' && s[i] != ')' && s[i] != ','
  }

  lemma {:induction false} DigitsPlain(n: nat)
    ensures PlainToken(Digits(n))
  {
    DigitsAreDigits(n);
  }

  /** `$(n)` is the n-th argument. */
  lemma {:induction false} ArgumentReference(w: World, counts: seq<nat>, n: nat, args: seq<string>, after: string)
    requires |counts| == |w.variables| && 1 <= n <= |args| && n <= ULONG_MAX
    ensures Expand(w, counts, "$(" + Digits(n) + ")" + after, NeverEnds, args)
         == Prepend(args[n - 1], Expand(w, counts, after, NeverEnds, args))
  {
    hide Expand, Budget, Prepend;
    NumberRead(n);
    DigitsPlain(n);
    assert Clause(w, counts, Digits(n), args) == Ok(args[n - 1]);
    ReferenceOf(w, counts, Digits(n), after, args);
  }

  /** A reference with plain text in its parentheses is what the text between them is. */
  lemma {:induction false} ReferenceOf(w: World, counts: seq<nat>, t: string, after: string, args: seq<string>)
    requires |counts| == |w.variables| && forall i :: 0 <= i < |t| ==> t[i] != '(' && t[i] != ')'
    ensures Expand(w, counts, "$(" + t + ")" + after, NeverEnds, args)
         == var r := Clause(w, counts, t, args);
            if r.Err? then Err(r.error) else Prepend(r.value, Expand(w, counts, after, NeverEnds, args))
  {
    hide Expand, Budget, Prepend, Clause;
    var s := "$(" + t + ")" + after;
    ExpandStep(w, counts, s, args);
    var inner := t + ")" + after;
    assert s[1..] == "(" + inner && s[1..][1..] == inner;
    PlainClose(t, after);
    assert inner[..|t|] == t && inner[|t| + 1..] == after;
  }

  // ----- the pieces of a clause -----

  lemma {:induction false} DepthConcat(a: string, b: string)
    ensures Depth(a + b) == Depth(a) + Depth(b)
    decreases |a|
  {
    if a == [] {
      assert a + b == b;
    } else {
      assert (a + b)[1..] == a[1..] + b;
      DepthConcat(a[1..], b);
    }
  }

  /** No comma of the text stands outside all parentheses. */
  predicate NoTopComma(s: string) { forall k :: 0 <= k < |s| && s[k] == ',' ==> Depth(s[..k]) != 0 }

  lemma {:induction false} NoTopCommaMore(s: string, c: char)
    requires NoTopComma(s) && !(c == ',' && Depth(s) == 0)
    ensures NoTopComma(s + [c])
  {
    var t := s + [c];
    forall k | 0 <= k < |t| && t[k] == ',' ensures Depth(t[..k]) != 0 {
      assert t[..k] == if k < |s| then s[..k] else s;
    }
  }

  /** No piece has a comma outside all parentheses, and all but the last have balanced parentheses. */
  predicate TopPieces(pieces: seq<string>) {
    && (forall j :: 0 <= j < |pieces| ==> NoTopComma(pieces[j]))
    && forall j :: 0 <= j < |pieces| - 1 ==> Depth(pieces[j]) == 0
  }

  /** The clause is split at every comma outside all parentheses, and at no other. */
  lemma {:induction false} SplitAtTopCommas(t: string, nest: int, token: string)
    requires Depth(token) == nest && NoTopComma(token)
    ensures TopPieces(Split(t, nest, token))
    decreases |t|
  {
    hide NoTopComma, Depth, TopPieces;
    NothingTop();
    if t == [] {
      LastPiece(token);
    } else if nest == 0 && t[0] == ',' {
      SplitAtTopCommas(t[1..], 0, []);
      NextPiece(token, Split(t[1..], 0, []));
    } else {
      NoTopCommaMore(token, t[0]);
      DepthMore(token, t[0]);
      SplitAtTopCommas(t[1..], if t[0] == '(' then nest + 1 else if t[0] == ')' then nest - 1 else nest,
                       token + [t[0]]);
    }
  }

  lemma {:induction false} LastPiece(token: string)
    requires NoTopComma(token)
    ensures TopPieces([token])
  {
  }

  lemma {:induction false} NextPiece(token: string, rest: seq<string>)
    requires NoTopComma(token) && Depth(token) == 0 && TopPieces(rest)
    ensures TopPieces([token] + rest)
  {
    hide NoTopComma, Depth;
    var all := [token] + rest;
    assert forall j :: 0 < j < |all| ==> all[j] == rest[j - 1];
  }

  lemma {:induction false} NothingTop()
    ensures NoTopComma([]) && Depth([]) == 0
  {
  }

  lemma {:induction false} DepthMore(s: string, c: char)
    ensures Depth(s + [c]) == Depth(s) + if c == '(' then 1 else if c == ')' then -1 else 0
  {
    DepthConcat(s, [c]);
    assert [c][1..] == [];
  }

  /** So plain texts put together with commas are taken apart again. */
  lemma {:induction false} SplitPlain(tokens: seq<string>, k: nat, token: string)
    requires tokens != [] && k <= |tokens[0]| && forall i :: 0 <= i < |tokens| ==> PlainToken(tokens[i])
    requires token == tokens[0][..k]
    ensures Split(Joined(tokens)[k..], 0, token) == tokens
    decreases |tokens|, |tokens[0]| - k
  {
    hide PlainToken;
    var t, head := Joined(tokens), tokens[0];
    assert t[..|head|] == head;
    if k < |head| {
      PlainAt(head, k);
      assert t[k] == head[k] && t[k..][1..] == t[k + 1..] && token + [head[k]] == head[..k + 1];
      SplitPlain(tokens, k + 1, head[..k + 1]);
    } else if |tokens| == 1 {
      assert t[k..] == [] && tokens == [head];
    } else {
      assert t[k..] == "," + Joined(tokens[1..]) && t[k..][1..] == Joined(tokens[1..]);
      SplitPlain(tokens[1..], 0, []);
      assert Joined(tokens[1..])[0..] == Joined(tokens[1..]) && token == head;
      assert [head] + tokens[1..] == tokens;
    }
  }

  lemma {:induction false} PlainAt(s: string, k: nat)
    requires PlainToken(s) && k < |s|
    ensures s[k] != '$' && s[k] != '(' && s[k] != ')' && s[k] != ','
  {
  }

  lemma {:induction false} PlainNoDollar(s: string)
    requires PlainToken(s)
    ensures '$' !in s
  {
  }

  /** Plain texts are expanded to themselves. */
  lemma {:induction false} PlainAll(w: World, counts: seq<nat>, t: string, tokens: seq<string>, k: nat,
                                    args: seq<string>)
    requires |counts| == |w.variables| && tokens == Split(t, 0, []) && k <= |tokens|
    requires forall i :: 0 <= i < |tokens| ==> PlainToken(tokens[i])
    ensures ExpandAll(w, counts, t, tokens, k, args) == Ok(tokens[k..])
    decreases |tokens| - k
  {
    hide Expand, Budget, Split, PlainToken;
    if k < |tokens| {
      PlainNoDollar(tokens[k]);
      PlainText(w, counts, tokens[k], args);
      PlainAll(w, counts, t, tokens, k + 1, args);
      assert tokens[k..] == [tokens[k]] + tokens[k + 1..];
    }
  }

  lemma {:induction false} JoinedPlain(tokens: seq<string>)
    requires forall i :: 0 <= i < |tokens| ==> PlainToken(tokens[i])
    ensures forall i :: 0 <= i < |Joined(tokens)| ==> Joined(tokens)[i] != '(' && Joined(tokens)[i] != ')'
  {
    if |tokens| > 1 {
      JoinedPlain(tokens[1..]);
    }
  }

  // ----- calls -----

  /** A name and plain arguments, not too many, that cannot be taken for a number. */
  predicate PlainCall(name: string, texts: seq<string>, args: seq<string>) {
    && PlainToken(name) && (forall i :: 0 <= i < |texts| ==> PlainToken(texts[i])) && |texts| < FUNCTION_MAX_ARGS
    && !(1 <= WholeNumber(Joined([name] + texts)) <= |args|)
  }

  /** `$(name,text,…)` calls what the name stands for with the texts, in order. */
  lemma {:induction false} CallReference(w: World, counts: seq<nat>, name: string, texts: seq<string>, after: string,
                                         args: seq<string>)
    requires |counts| == |w.variables| && PlainCall(name, texts, args)
    ensures Expand(w, counts, "$(" + Joined([name] + texts) + ")" + after, NeverEnds, args)
         == var r := Call(w, counts, name, texts);
            if r.Err? then Err(r.error) else Prepend(r.value, Expand(w, counts, after, NeverEnds, args))
  {
    hide Expand, Budget, Prepend, PlainToken, Call, Joined, Split, WholeNumber, ExpandAll;
    var tokens := [name] + texts;
    var t := Joined(tokens);
    SplitPlain(tokens, 0, []);
    assert t[0..] == t;
    PlainAll(w, counts, t, tokens, 0, args);
    assert tokens[0..] == tokens && tokens[1..] == texts;
    JoinedPlain(tokens);
    ReferenceOf(w, counts, t, after, args);
  }

  predicate FirstOfName(w: World, name: string, i: nat) {
    i < |w.variables| && w.variables[i].name == name && forall j :: 0 <= j < i ==> w.variables[j].name != name
  }

  /**
   What a name stands for: the first variable of that name, if there is one; else a built-in function, if there is
   one; else, without arguments, the environment variable, if it is set; and otherwise nothing.
   */
  lemma {:induction false} NameMeans(w: World, counts: seq<nat>, name: string, texts: seq<string>, after: string,
                                     args: seq<string>, i: nat)
    requires |counts| == |w.variables| && PlainCall(name, texts, args)
    ensures var e := Expand(w, counts, "$(" + Joined([name] + texts) + ")" + after, NeverEnds, args);
            var rest := Expand(w, counts, after, NeverEnds, args);
            var known := exists j :: 0 <= j < |w.variables| && w.variables[j].name == name;
            && (FirstOfName(w, name, i) && !w.variables[i].recursive && counts[i] == 0 ==>
                  e == Prepend(w.variables[i].value, rest))
            && (FirstOfName(w, name, i) ==>
                  var r := VariableExpand(w, counts, i, texts);
                  e == if r.Err? then Err(r.error) else Prepend(r.value, rest))
            && (!known && w.builtin(name, texts).Some? && w.builtin(name, texts).value.Ok? ==>
                  e == Prepend(w.builtin(name, texts).value.value, rest))
            && (!known && w.builtin(name, texts).Some? && w.builtin(name, texts).value.Err? ==>
                  e == Err(w.builtin(name, texts).value.error))
            && (!known && w.builtin(name, texts).None? && texts == [] && w.env(name).Some? ==>
                  e == Prepend(w.env(name).value, rest))
            && (!known && w.builtin(name, texts).None? && (texts != [] || w.env(name).None?) ==> e == Prepend("", rest))
  {
    hide Expand, Budget, Prepend, PlainToken, Joined, WholeNumber, PlainCall;
    CallReference(w, counts, name, texts, after, args);
    var l := Lookup(w.variables, name);
  }

  /** A user-defined function whose text has no further reference but `$(n)` gives its n-th argument in that place. */
  lemma {:induction false} FunctionReference(w: World, counts: seq<nat>, i: nat, before: string, n: nat,
                                             after: string, texts: seq<string>)
    requires |counts| == |w.variables| && i < |counts| && counts[i] == 0 && w.variables[i].recursive
    requires PlainToken(before) && PlainToken(after) && 1 <= n <= |texts| && n <= ULONG_MAX
    requires w.variables[i].value == before + ("$(" + Digits(n) + ")" + after)
    ensures VariableExpand(w, counts, i, texts) == Ok(before + texts[n - 1] + after)
  {
    hide Expand, Budget, Prepend, Digits;
    var inside := Entered(counts, i);
    BudgetFalls(counts, i);
    PlainNoDollar(before);
    PlainNoDollar(after);
    PlainText(w, inside, before, texts);
    PlainText(w, inside, after, texts);
    PlainEnd(before);
    ArgumentReference(w, inside, n, texts, after);
    ExpandConcat(w, inside, before, "$(" + Digits(n) + ")" + after, texts);
    PrependOk(texts[n - 1], Expand(w, inside, after, NeverEnds, texts));
    PrependOk(before, Expand(w, inside, "$(" + Digits(n) + ")" + after, NeverEnds, texts));
    assert before + (texts[n - 1] + after) == before + texts[n - 1] + after;
  }

  lemma {:induction false} PlainEnd(s: string)
    requires PlainToken(s)
    ensures s == [] || s[|s| - 1] != '$'
  {
  }
}
