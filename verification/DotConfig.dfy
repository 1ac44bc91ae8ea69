/**
 Symbol values as lines of a .config file (scripts/config/confdata.c): how a value
 is printed, with strings escaped, and how a line is read back, with strings
 unescaped in place.
 */
module DotConfig {
  import opened Basics
  import opened Expr

  // ----- escaping -----

  predicate Special(c: char) { c == '"' || c == '\\' }

  function EscapeBody(s: string): string {
    if s == [] then [] else (if Special(s[0]) then ['\\', s[0]] else [s[0]]) + EscapeBody(s[1..])
  }

  function Escape(s: string): string { "\"" + EscapeBody(s) + "\"" }

  function Specials(s: string): nat {
    if s == [] then 0 else (if Special(s[0]) then 1 else 0) + Specials(s[1..])
  }

  lemma {:induction false} EscapedLength(s: string)
    ensures |EscapeBody(s)| == |s| + Specials(s)
  {
    if s != [] {
      EscapedLength(s[1..]);
    }
  }

  /** The string up to the closing quote, with the escapes taken out; None when there is no closing quote. */
  function Unescape(s: string): Option<string> {
    if s == [] then None
    else if s[0] == '"' then Some("")
    else if s[0] != '\\' then Prepend([s[0]], Unescape(s[1..]))
    else if |s| == 1 then None
    else Prepend([s[1]], Unescape(s[2..]))
  }

  function Prepend(x: string, r: Option<string>): Option<string> { if r.None? then None else Some(x + r.value) }

  /** Whatever follows the closing quote, an escaped string is read back as it was. */
  lemma {:induction false} UnescapeEscape(s: string, after: string)
    ensures Unescape(EscapeBody(s) + "\"" + after) == Some(s)
  {
    var t := EscapeBody(s) + "\"" + after;
    if s != [] {
      UnescapeEscape(s[1..], after);
      var more := EscapeBody(s[1..]) + "\"" + after;
      assert s == [s[0]] + s[1..];
      if Special(s[0]) {
        assert t[2..] == more && t[0] == '\\' && t[1] == s[0];
      } else {
        assert t[1..] == more && t[0] == s[0];
      }
    }
  }

  lemma {:induction false} EscapeConcat(a: string, b: string)
    ensures EscapeBody(a + b) == EscapeBody(a) + EscapeBody(b) && Specials(a + b) == Specials(a) + Specials(b)
  {
    if a == [] {
      assert a + b == b;
    } else {
      EscapeConcat(a[1..], b);
      assert (a + b)[1..] == a[1..] + b && (a + b)[0] == a[0];
      var first := if Special(a[0]) then ['\\', a[0]] else [a[0]];
      assert EscapeBody(a + b) == first + EscapeBody(a[1..] + b) && EscapeBody(a) == first + EscapeBody(a[1..]);
      Associates(first, EscapeBody(a[1..]), EscapeBody(b));
    }
  }

  /** `strcspn(s, "\"\\")` */
  method Span(s: string, p: nat) returns (q: nat)
    requires p <= |s|
    ensures p <= q <= |s| && (forall i :: p <= i < q ==> !Special(s[i])) && (q < |s| ==> Special(s[q]))
  {
    q := p;
    while q < |s| && !Special(s[q])
      invariant p <= q <= |s| && forall i :: p <= i < q ==> !Special(s[i])
    {
      q := q + 1;
    }
  }

  lemma {:induction false} PlainSpan(s: string)
    requires forall i :: 0 <= i < |s| ==> !Special(s[i])
    ensures EscapeBody(s) == s && Specials(s) == 0
  {
    if s != [] {
      PlainSpan(s[1..]);
      assert s == [s[0]] + s[1..];
    }
  }

  lemma {:induction false} NextSpan(s: string, p: nat, q: nat)
    requires p <= q < |s| && (forall i :: p <= i < q ==> !Special(s[i])) && Special(s[q])
    ensures EscapeBody(s[..q + 1]) == EscapeBody(s[..p]) + s[p..q] + ['\\', s[q]]
    ensures Specials(s[..q + 1]) == Specials(s[..p]) + 1
  {
    assert s[..q + 1] == s[..p] + s[p..q] + [s[q]];
    EscapeConcat(s[..p] + s[p..q], [s[q]]);
    EscapeConcat(s[..p], s[p..q]);
    PlainSpan(s[p..q]);
    assert [s[q]][1..] == [];
  }

  lemma {:induction false} LastSpan(s: string, p: nat)
    requires p <= |s| && forall i :: p <= i < |s| ==> !Special(s[i])
    ensures EscapeBody(s) == EscapeBody(s[..p]) + s[p..] && Specials(s) == Specials(s[..p])
  {
    assert s == s[..p] + s[p..];
    EscapeConcat(s[..p], s[p..]);
    PlainSpan(s[p..]);
  }

  /** The first pass of `escape_string_value`: the length of the buffer, with its terminator. */
  method EscapedSize(s: string) returns (len: nat)
    ensures len == |Escape(s)| + 1
  {
    len := |s| + 2 + 1;
    var p := 0;
    assert s[..0] == [];
    while true
      invariant p <= |s| && len == |s| + 3 + Specials(s[..p])
      decreases |s| - p
    {
      var q := Span(s, p);
      if q == |s| {
        LastSpan(s, p);
        break;
      }
      NextSpan(s, p, q);
      len := len + 1;
      p := q + 1;
    }
    EscapedLength(s);
  }

  /** `escape_string_value`: the buffer is exactly filled, terminator included. */
  method EscapeStringValue(s: string) returns (out: array<char>)
    ensures fresh(out) && out[..] == Escape(s) + ['\0']
  {
    hide Escape, EscapeBody, Specials, Special;
    var len := EscapedSize(s);
    EscapeSize(s);
    NothingEscaped();
    out := new char[len](i => '\0');
    out[0] := '"';
    var n, p := 1, 0;
    assert s[..0] == [];
    while true
      invariant p <= |s| && n == 1 + |EscapeBody(s[..p])| && n + 1 < len
      invariant out[..n] == "\"" + EscapeBody(s[..p])
      invariant forall i :: n <= i < len ==> out[i] == '\0'
      decreases |s| - p
    {
      var q := Span(s, p);
      Fits(s, p, q);
      Append(out, n, s[p..q]);
      n := n + (q - p);
      if q == |s| {
        LastSpan(s, p);
        Quoted(EscapeBody(s[..p]), s[p..q], []);
        break;
      }
      NextSpan(s, p, q);
      Quoted(EscapeBody(s[..p]), s[p..q], ['\\', s[q]]);
      Append(out, n, ['\\', s[q]]);
      n, p := n + 2, q + 1;
    }
    out[n] := '"';
    BufferFull(out[..], n, s);
  }

  lemma {:induction false} EscapeSize(s: string)
    ensures |Escape(s)| == |EscapeBody(s)| + 2
  {
  }

  lemma {:induction false} Quoted(a: string, b: string, c: string)
    ensures "\"" + a + b + c == "\"" + (a + b + c) && a + b + [] == a + b
  {
  }

  /** With its last quote and the terminator the buffer holds the escaped text. */
  lemma {:induction false} BufferFull(buffer: string, n: nat, s: string)
    requires |buffer| == n + 2 && buffer[..n] == "\"" + EscapeBody(s) && buffer[n] == '"' && buffer[n + 1] == '\0'
    ensures buffer == Escape(s) + ['\0']
  {
    hide EscapeBody;
    assert buffer == buffer[..n] + ['"'] + ['\0'];
  }

  lemma {:induction false} NothingEscaped()
    ensures EscapeBody([]) == []
  {
  }

  lemma {:induction false} Fits(s: string, p: nat, q: nat)
    requires p <= q <= |s| && (forall i :: p <= i < q ==> !Special(s[i]))
    ensures |EscapeBody(s[..p])| + (q - p) <= |EscapeBody(s)|
    ensures q < |s| && Special(s[q]) ==> |EscapeBody(s[..p])| + (q - p) + 2 <= |EscapeBody(s)|
  {
    assert s == s[..p] + s[p..q] + s[q..];
    EscapeConcat(s[..p] + s[p..q], s[q..]);
    EscapeConcat(s[..p], s[p..q]);
    PlainSpan(s[p..q]);
  }

  /** `strcat` of a known piece at a known end. */
  method Append(out: array<char>, n: nat, piece: string)
    requires n + |piece| <= out.Length
    modifies out
    ensures out[..n + |piece|] == old(out[..n]) + piece
    ensures forall i :: n + |piece| <= i < out.Length ==> out[i] == old(out[i])
  {
    forall i | 0 <= i < |piece| {
      out[n + i] := piece[i];
    }
  }

  // ----- unescaping in place -----

  /** The C string at p of a buffer, with its terminator at t. */
  predicate Terminated(a: array<char>, p: nat, t: nat)
    reads a
  {
    p <= t < a.Length && a[t] == '\0' && forall i :: p <= i < t ==> a[i] != '\0'
  }

  /** `strpbrk(p, "\"\\")` */
  method FindSpecial(a: array<char>, p: nat, ghost t: nat) returns (q: Option<nat>)
    requires Terminated(a, p, t)
    ensures q.Some? ==> p <= q.value < t && Special(a[q.value]) && forall i :: p <= i < q.value ==> !Special(a[i])
    ensures q.None? ==> forall i :: p <= i < t ==> !Special(a[i])
  {
    var i := p;
    while a[i] != '\0'
      invariant p <= i <= t && forall j :: p <= j < i ==> !Special(a[j])
      decreases t - i
    {
      if Special(a[i]) {
        return Some(i);
      }
      i := i + 1;
    }
    q := None;
  }

  lemma {:induction false} UnescapeFrom(s: string, q: nat)
    requires q < |s| && Special(s[q]) && forall i :: 0 <= i < q ==> !Special(s[i])
    ensures s[q] == '"' ==> Unescape(s) == Some(s[..q])
    ensures s[q] == '\\' && q + 1 == |s| ==> Unescape(s) == None
    ensures s[q] == '\\' && q + 1 < |s| ==> Unescape(s) == Prepend(s[..q] + [s[q + 1]], Unescape(s[q + 2..]))
  {
    if q > 0 {
      UnescapeFrom(s[1..], q - 1);
      assert s[..q] == [s[0]] + s[1..][..q - 1];
      if q + 1 < |s| {
        assert s[1..][q - 1 + 2..] == s[q + 2..];
        assert Unescape(s[q + 2..]).Some? ==>
            [s[0]] + (s[1..][..q - 1] + [s[q + 1]] + Unescape(s[q + 2..]).value)
              == s[..q] + [s[q + 1]] + Unescape(s[q + 2..]).value;
      }
    } else if s[q] == '\\' && q + 1 < |s| {
      assert s[..0] + [s[1]] == [s[1]];
    }
  }

  lemma {:induction false} UnescapeNever(s: string)
    requires forall i :: 0 <= i < |s| ==> !Special(s[i])
    ensures Unescape(s) == None
  {
    if s != [] {
      UnescapeNever(s[1..]);
    }
  }

  lemma {:induction false} Prepended(x: string, y: string, r: Option<string>)
    ensures Prepend(x, Prepend(y, r)) == Prepend(x + y, r)
  {
    if r.Some? {
      assert x + (y + r.value) == x + y + r.value;
    }
  }

  /** The loop of `conf_set_sym_val`: afterwards the buffer holds the string itself at p. */
  method UnescapeInPlace(a: array<char>, p: nat, ghost t0: nat) returns (ok: bool, ghost end: nat)
    requires Terminated(a, p, t0)
    modifies a
    ensures ok <==> old(Unescape(a[p..t0])).Some?
    ensures ok ==> Terminated(a, p, end) && a[p..end] == old(Unescape(a[p..t0])).value
    ensures a[..p] == old(a[..p])
  {
    var p2 := p;
    ghost var t, s := t0, a[p..t0];
    end := t0;
    assert a[p..p2] == [];
    PrependNothing(Unescape(s));
    while true
      invariant p <= p2 && Terminated(a, p2, t) && a[..p] == old(a[..p])
      invariant Unescape(s) == Prepend(a[p..p2], Unescape(a[p2..t]))
      invariant Unescape(s).Some? ==> forall i :: p <= i < p2 ==> a[i] != '\0'
      decreases t - p2
    {
      var q := FindSpecial(a, p2, t);
      if q.None? {
        UnescapeNever(a[p2..t]);
        return false, end;
      }
      p2, t, ok, end := OneSpecial(a, p, p2, q.value, t, s);
      if ok {
        return;
      }
    }
  }

  /** One round: the closing quote ends the string, a backslash is moved over. */
  method OneSpecial(a: array<char>, p: nat, p2: nat, q: nat, ghost t: nat, ghost s: string)
    returns (p2': nat, ghost t': nat, ok: bool, ghost end: nat)
    requires p <= p2 <= q < t && Terminated(a, p2, t) && Special(a[q]) && (forall i :: p2 <= i < q ==> !Special(a[i]))
    requires Unescape(s) == Prepend(a[p..p2], Unescape(a[p2..t]))
    requires Unescape(s).Some? ==> forall i :: p <= i < p2 ==> a[i] != '\0'
    modifies a
    ensures a[..p] == old(a[..p])
    ensures ok ==> Unescape(s).Some? && Terminated(a, p, end) && a[p..end] == Unescape(s).value
    ensures !ok ==> p <= p2' && Terminated(a, p2', t') && t' - p2' < t - p2
    ensures !ok ==> Unescape(s) == Prepend(a[p..p2'], Unescape(a[p2'..t']))
    ensures !ok ==> Unescape(s).Some? ==> forall i :: p <= i < p2' ==> a[i] != '\0'
  {
    hide Unescape, Prepend;
    if a[q] == '"' {
      ghost var v := a[p2..t];
      UnescapeFrom(v, q - p2);
      PrependSome(a[p..p2], v[..q - p2]);
      SliceParts(a[..], p, p2, q, t);
      a[q] := '\0';
      return q, q, true, q;
    }
    p2', t' := Backslash(a, p, p2, q, t, s);
    ok, end := false, 0;
  }

  lemma {:induction false} SliceParts(w: string, p: nat, p2: nat, q: nat, t: nat)
    requires p <= p2 <= q <= t <= |w|
    ensures w[p2..t][..q - p2] == w[p2..q] && w[p..q] == w[p..p2] + w[p2..q]
  {
  }

  method Backslash(a: array<char>, p: nat, p2: nat, q: nat, ghost t: nat, ghost s: string)
    returns (p2': nat, ghost t': nat)
    requires p <= p2 <= q < t && Terminated(a, p2, t) && a[q] == '\\' && (forall i :: p2 <= i < q ==> !Special(a[i]))
    requires Unescape(s) == Prepend(a[p..p2], Unescape(a[p2..t]))
    requires Unescape(s).Some? ==> forall i :: p <= i < p2 ==> a[i] != '\0'
    modifies a
    ensures a[..p] == old(a[..p])
    ensures p <= p2' && Terminated(a, p2', t') && t' - p2' < t - p2
    ensures Unescape(s) == Prepend(a[p..p2'], Unescape(a[p2'..t']))
    ensures Unescape(s).Some? ==> forall i :: p <= i < p2' ==> a[i] != '\0'
  {
    hide Unescape, Prepend;
    ghost var v, w := a[p2..t], a[..];
    UnescapeFrom(v, q - p2);
    var length := StrLen(a, q, t);
    MoveLeft(a, q, q + length);
    p2' := q + 1;
    t' := if q + 1 == t then t else t - 1;
    ghost var w' := a[..];
    assert w[p..p2] == old(a[p..p2]) && v == w[p2..t];
    Removed(w, w', p, p2, q, t);
    StillTerminated(w, w', p, p2, q, t);
    assert a[p..p2'] == w'[p..p2'] && a[p2'..t'] == w'[p2'..t'];
    if q + 1 < t {
      Prepended(w[p..p2], v[..q - p2] + [v[q - p2 + 1]], Unescape(v[q - p2 + 2..]));
    } else {
      NothingLeft(w[p..p2], a[p..p2']);
    }
  }

  lemma {:induction false} PrependSome(x: string, y: string)
    ensures Prepend(x, Some(y)) == Some(x + y)
  {
  }

  lemma {:induction false} NothingLeft(x: string, y: string)
    ensures Unescape([]) == None && Prepend(x, None) == None && Prepend(y, None) == None
  {
  }

  lemma {:induction false} StillTerminated(w: string, w': string, p: nat, p2: nat, q: nat, t: nat)
    requires p <= p2 <= q < t < |w| && |w'| == |w| && w[t] == '\0' && forall i :: p2 <= i < t ==> w[i] != '\0'
    requires forall i :: 0 <= i < q ==> w'[i] == w[i]
    requires forall i :: q <= i < t ==> w'[i] == w[i + 1]
    requires w'[t] == w[t]
    ensures var t' := if q + 1 == t then t else t - 1; w'[t'] == '\0' && forall i :: q + 1 <= i < t' ==> w'[i] != '\0'
    ensures q + 1 < t ==> (forall i :: p <= i < p2 ==> w[i] != '\0') ==> forall i :: p <= i < q + 1 ==> w'[i] != '\0'
  {
  }

  /** What the move leaves in front of the cursor and behind it. */
  lemma {:induction false} Removed(w: string, w': string, p: nat, p2: nat, q: nat, t: nat)
    requires p <= p2 <= q < t < |w| && |w'| == |w|
    requires forall i :: 0 <= i < q ==> w'[i] == w[i]
    requires forall i :: q <= i < t ==> w'[i] == w[i + 1]
    ensures w'[..p] == w[..p]
    ensures q + 1 < t ==>
              && w'[p..q + 1] == w[p..p2] + (w[p2..t][..q - p2] + [w[p2..t][q - p2 + 1]])
              && w'[q + 1..t - 1] == w[p2..t][q - p2 + 2..]
    ensures q + 1 == t ==> w'[q + 1..t] == []
  {
    var x, y := w[p..p2], w[p2..q];
    if q + 1 < t {
      var v, c := w[p2..t], w[q + 1];
      assert v[..q - p2] == y && v[q - p2 + 1] == c && w[p..q] == x + y;
      assert w'[p..q] == w[p..q] && w'[q] == c;
      assert w'[p..q + 1] == w'[p..q] + [w'[q]];
    }
  }

  method StrLen(a: array<char>, p: nat, ghost t: nat) returns (n: nat)
    requires Terminated(a, p, t)
    ensures p + n == t
  {
    n := 0;
    while a[p + n] != '\0'
      invariant p + n <= t
      decreases t - n
    {
      n := n + 1;
    }
  }

  /** `memmove(p2, p2 + 1, strlen(p2))` */
  method MoveLeft(a: array<char>, q: nat, t: nat)
    requires q < t < a.Length
    modifies a
    ensures forall i :: 0 <= i < q ==> a[i] == old(a[i])
    ensures forall i :: q <= i < t ==> a[i] == old(a[i + 1])
    ensures forall i :: t <= i < a.Length ==> a[i] == old(a[i])
  {
    forall i | q <= i < t {
      a[i] := a[i + 1];
    }
  }

  lemma {:induction false} PrependNothing(r: Option<string>)
    ensures Prepend("", r) == r
  {
    if r.Some? {
      assert "" + r.value == r.value;
    }
  }

  // ----- values and lines -----

  datatype Value = TriValue(t: Tri) | Text(s: string)

  const CONFIG: string := "CONFIG_"

  function TriName(t: Tri): string { if t == NO then "n" else if t == MOD then "m" else "y" }

  /** `sym_get_string_value` */
  function StringValue(v: Value): string { if v.TriValue? then TriName(v.t) else v.s }

  predicate IsLogic(ty: SymType) { ty == Boolean || ty == Tristate }

  /** `print_symbol_for_dotconfig`: n is written as a comment, strings are escaped. */
  function PrintSymbol(name: string, ty: SymType, v: Value): string {
    var s := StringValue(v);
    if ty == Unknown then ""
    else if IsLogic(ty) && s != "" && s[0] == 'n' then "# " + CONFIG + name + " is not set" + "\n"
    else CONFIG + name + "=" + (if ty == String then Escape(s) else s) + "\n"
  }

  /** `strchr`: what is before and after the first c. */
  datatype Cut = Cut(before: string, after: string)

  function CutAt(s: string, c: char): Option<Cut> {
    if s == [] then None
    else if s[0] == c then Some(Cut("", s[1..]))
    else
      var r := CutAt(s[1..], c);
      if r.None? then None else Some(Cut([s[0]] + r.value.before, r.value.after))
  }

  lemma {:induction false} CutFirst(a: string, c: char, b: string)
    requires c !in a
    ensures CutAt(a + [c] + b, c) == Some(Cut(a, b))
  {
    var s := a + [c] + b;
    if a != [] {
      assert s[1..] == a[1..] + [c] + b && s[0] == a[0];
      CutFirst(a[1..], c, b);
      assert a == [a[0]] + a[1..];
    } else {
      assert s[1..] == b;
    }
  }

  /** The value of a line without its end; a carriage return belongs to the end. */
  function WithoutEnd(s: string): string {
    var r := CutAt(s, '\n');
    if r.None? then s
    else
      var v := r.value.before;
      if v != "" && v[|v| - 1] == '\r' then v[..|v| - 1] else v
  }

  predicate IsHexDigit(c: char) { IsDigit(c) || 'a' <= c <= 'f' || 'A' <= c <= 'F' }

  /** `sym_string_valid` for numbers. */
  predicate ValidInt(s: string) {
    var d := if s != "" && s[0] == '-' then s[1..] else s;
    d != "" && AllDigits(d) && (d[0] == '0' ==> |d| == 1)
  }

  predicate AllDigits(d: string) { forall i :: 0 <= i < |d| ==> IsDigit(d[i]) }

  predicate AllHexDigits(d: string) { forall i :: 0 <= i < |d| ==> IsHexDigit(d[i]) }

  predicate ValidHex(s: string) {
    var d := if |s| >= 2 && s[0] == '0' && (s[1] == 'x' || s[1] == 'X') then s[2..] else s;
    d != "" && AllHexDigits(d)
  }

  /** `conf_set_sym_val`; None when nothing is set. */
  function SetSymVal(ty: SymType, p: string): Option<Value> {
    match ty
    case Tristate => if p != "" && p[0] == 'm' then Some(TriValue(MOD)) else SetBool(p)
    case Boolean => SetBool(p)
    case String =>
      if p == "" || p[0] != '"' then None
      else
        var r := Unescape(p[1..]);
        if r.None? then None else Some(Text(r.value))
    case Int => if ValidInt(p) then Some(Text(p)) else None
    case Hex => if ValidHex(p) then Some(Text(p)) else None
    case Unknown => None
  }

  function SetBool(p: string): Option<Value> {
    if p != "" && p[0] == 'y' then Some(TriValue(YES)) else if p != "" && p[0] == 'n' then Some(TriValue(NO)) else None
  }

  predicate StartsWith(s: string, prefix: string) { |prefix| <= |s| && s[..|prefix|] == prefix }

  datatype Setting = Setting(name: string, value: Value)

  /** One line of the file: the symbol it names, and the value it gives that symbol. */
  function ReadLine(line: string, find: string -> Option<SymType>): Option<Setting> {
    if line != "" && line[0] == '#' then
      if |line| < 2 || !StartsWith(line[2..], CONFIG) then None
      else
        var r := CutAt(line[2 + |CONFIG|..], ' ');
        if r.None? || !StartsWith(r.value.after, "is not set") then None
        else
          var ty := find(r.value.before);
          if ty.Some? && IsLogic(ty.value) then Some(Setting(r.value.before, TriValue(NO))) else None
    else if StartsWith(line, CONFIG) then
      var r := CutAt(line[|CONFIG|..], '=');
      if r.None? then None
      else
        var ty := find(r.value.before);
        if ty.None? then None
        else
          var v := SetSymVal(ty.value, WithoutEnd(r.value.after));
          if v.None? then None else Some(Setting(r.value.before, v.value))
    else None
  }

  /** A value that a symbol of this type can have. */
  predicate HasType(ty: SymType, v: Value) {
    match ty
    case Boolean => v.TriValue? && v.t != MOD
    case Tristate => v.TriValue?
    case String => v.Text? && '\n' !in v.s && '\0' !in v.s
    case Int => v.Text? && ValidInt(v.s)
    case Hex => v.Text? && ValidHex(v.s)
    case Unknown => false
  }

  predicate ProperName(name: string) { ' ' !in name && '=' !in name && '\n' !in name }

  lemma {:induction false} EscapeAdds(s: string, c: char)
    requires !Special(c) && c !in s
    ensures c !in EscapeBody(s) && c !in Escape(s)
  {
    if s != [] {
      EscapeAdds(s[1..], c);
    }
  }

  lemma {:induction false} CleanEnd(x: string)
    requires '\n' !in x && (x == "" || x[|x| - 1] != '\r')
    ensures WithoutEnd(x + "\n") == x
  {
    assert x + "\n" == x + ['\n'] + "";
    CutFirst(x, '\n', "");
  }

  /** What is printed after the equals sign. */
  function Printed(ty: SymType, v: Value): string { if ty == String then Escape(StringValue(v)) else StringValue(v) }

  lemma {:induction false} NumberText(s: string)
    requires ValidInt(s) || ValidHex(s)
    ensures s != "" && forall i :: 0 <= i < |s| ==> s[i] != '\n' && s[i] != '\r'
  {
    if ValidInt(s) {
      var d := if s != "" && s[0] == '-' then s[1..] else s;
      forall i | 0 <= i < |s| ensures s[i] != '\n' && s[i] != '\r' {
        if |d| == |s| {
          assert IsDigit(d[i]);
        } else if i > 0 {
          assert IsDigit(d[i - 1]);
        }
      }
    } else {
      var d := if |s| >= 2 && s[0] == '0' && (s[1] == 'x' || s[1] == 'X') then s[2..] else s;
      forall i | 0 <= i < |s| ensures s[i] != '\n' && s[i] != '\r' {
        if |d| == |s| {
          assert IsHexDigit(d[i]);
        } else if i >= 2 {
          assert IsHexDigit(d[i - 2]);
        }
      }
    }
  }

  lemma {:induction false} PrintedReadable(ty: SymType, v: Value)
    requires HasType(ty, v)
    ensures var x := Printed(ty, v); '\n' !in x && x != "" && x[|x| - 1] != '\r' && SetSymVal(ty, x) == Some(v)
  {
    hide EscapeBody, Unescape, ValidInt, ValidHex;
    match ty
    case String =>
      EscapeAdds(v.s, '\n');
      UnescapeEscape(v.s, "");
      var x := Escape(v.s);
      assert x[1..] == EscapeBody(v.s) + "\"" + "";
      assert x[|x| - 1] == '"';
    case Int => NumberText(v.s);
    case Hex => NumberText(v.s);
    case _ =>
  }

  /** A line that sets a value. */
  lemma {:induction false} AssignmentLine(name: string, ty: SymType, v: Value, find: string -> Option<SymType>)
    requires HasType(ty, v) && ProperName(name) && find(name) == Some(ty)
    ensures ReadLine(CONFIG + name + "=" + Printed(ty, v) + "\n", find) == Some(Setting(name, v))
  {
    hide WithoutEnd, SetSymVal, Printed, HasType;
    var x := Printed(ty, v);
    var line := CONFIG + name + "=" + x + "\n";
    PrintedReadable(ty, v);
    CleanEnd(x);
    assert line[|CONFIG|..] == name + ['='] + (x + "\n");
    CutFirst(name, '=', x + "\n");
    assert line[0] == 'C' && line[..|CONFIG|] == CONFIG;
  }

  /** A line that says a symbol is not set. */
  lemma {:induction false} UnsetLine(name: string, ty: SymType, find: string -> Option<SymType>)
    requires IsLogic(ty) && ProperName(name) && find(name) == Some(ty)
    ensures ReadLine("# " + CONFIG + name + " is not set" + "\n", find) == Some(Setting(name, TriValue(NO)))
  {
    var line := "# " + CONFIG + name + " is not set" + "\n";
    var after := "is not set" + "\n";
    assert line[0] == '#' && line[2..][..|CONFIG|] == CONFIG;
    assert line[2 + |CONFIG|..] == name + [' '] + after;
    CutFirst(name, ' ', after);
    assert after[..|"is not set"|] == "is not set";
  }

  /** Every value that is written to a .config file is read back from its line. */
  lemma {:induction false} LineRoundTrip(name: string, ty: SymType, v: Value, find: string -> Option<SymType>)
    requires HasType(ty, v) && ProperName(name) && find(name) == Some(ty)
    ensures ReadLine(PrintSymbol(name, ty, v), find) == Some(Setting(name, v))
  {
    hide ReadLine, Escape;
    AssignmentLine(name, ty, v, find);
    if IsLogic(ty) && v.t == NO {
      UnsetLine(name, ty, find);
    }
  }

  /**
   The form of the line: n is a comment that says so, y and m stand as they are, a string stands in quotes with a
   backslash before each quote and backslash in it and nowhere else, and a number stands as it is.
   */
  lemma {:induction false} LineForm(name: string, ty: SymType, v: Value)
    requires HasType(ty, v)
    ensures var line := PrintSymbol(name, ty, v);
            && (v == TriValue(NO) ==> line == "# CONFIG_" + name + " is not set\n")
            && (v == TriValue(MOD) ==> line == "CONFIG_" + name + "=m\n")
            && (v == TriValue(YES) ==> line == "CONFIG_" + name + "=y\n")
            && (ty == String ==> exists e :: EscapedAs(e, v.s) && line == "CONFIG_" + name + "=\"" + e + "\"\n")
            && (v.Text? && ty != String ==> line == "CONFIG_" + name + "=" + v.s + "\n")
  {
    hide EscapeBody, EscapedAs;
    var line := PrintSymbol(name, ty, v);
    if ty == String {
      EscapedForm(v.s);
      assert line == "CONFIG_" + name + "=\"" + EscapeBody(v.s) + "\"\n";
    } else if v == TriValue(NO) {
      assert line == "# CONFIG_" + name + " is not set\n";
    } else {
      assert line == "CONFIG_" + name + "=" + StringValue(v) + "\n";
    }
  }

  /** Characters that are special, and they alone, have a backslash before them. */
  predicate EscapedAs(e: string, s: string)
    decreases |s|
  {
    if s == [] then e == []
    else if Special(s[0]) then |e| >= 2 && e[0] == '\\' && e[1] == s[0] && EscapedAs(e[2..], s[1..])
    else e != [] && e[0] == s[0] && EscapedAs(e[1..], s[1..])
  }

  lemma {:induction false} EscapedForm(s: string)
    ensures EscapedAs(EscapeBody(s), s)
  {
    if s != [] {
      EscapedForm(s[1..]);
      var e := EscapeBody(s);
      assert if Special(s[0]) then e[2..] == EscapeBody(s[1..]) else e[1..] == EscapeBody(s[1..]);
    }
  }

  /** And it is one line: its only newline is its last character. */
  lemma {:induction false} OneLine(name: string, ty: SymType, v: Value)
    requires HasType(ty, v) && ProperName(name)
    ensures var line := PrintSymbol(name, ty, v);
            line != "" && line[|line| - 1] == '\n' && '\n' !in line[..|line| - 1]
  {
    hide Escape, HasType;
    PrintedReadable(ty, v);
    var line := PrintSymbol(name, ty, v);
    var s := StringValue(v);
    if IsLogic(ty) && s != "" && s[0] == 'n' {
      assert line[..|line| - 1] == "# " + CONFIG + name + " is not set";
    } else {
      assert ty != Unknown by { assert HasType(ty, v); Typed(ty, v); }
      assert line[..|line| - 1] == CONFIG + name + "=" + Printed(ty, v);
    }
  }

  lemma {:induction false} Typed(ty: SymType, v: Value)
    requires HasType(ty, v)
    ensures ty != Unknown
  {
  }

  /** `conf_set_sym_val` for a string: the value is unescaped where it stands in the line's buffer. */
  method SetStringVal(a: array<char>, p: nat, ghost t: nat) returns (failed: bool, start: Option<nat>, ghost end: nat)
    requires Terminated(a, p, t)
    modifies a
    ensures var v := old(SetSymVal(String, a[p..t]));
            && (v.None? ==> start.None?)
            && (v.Some? ==>
                start.Some? && !failed && Terminated(a, start.value, end)
                && a[start.value..end] == v.value.s)
    ensures failed <==> old(p < t && a[p] == '"' && Unescape(a[p + 1..t]).None?)
  {
    hide Unescape;
    end := t;
    if a[p] != '"' {
      return false, None, t;
    }
    assert a[p..t][1..] == a[p + 1..t];
    var ok;
    ok, end := UnescapeInPlace(a, p + 1, t);
    failed := !ok;
    start := if ok then Some(p + 1) else None;
  }
}
