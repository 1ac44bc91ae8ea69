/**
 What several of the models need: optional values, digits, and two facts about
 concatenation.
 */
module Basics {
  datatype Option<+T> = None | Some(value: T)

  predicate IsDigit(c: char) { '0' <= c <= '9' }

  /** The number in decimal. */
  function Digits(n: nat): string {
    if n < 10 then ["0123456789"[n]] else Digits(n / 10) + ["0123456789"[n % 10]]
  }

  lemma {:induction false} Associates<T>(a: seq<T>, b: seq<T>, c: seq<T>)
    ensures a + (b + c) == a + b + c
  {
  }

  /** An element between what is before it and the next ones. */
  lemma {:induction false} Middle<T>(s: seq<T>, j: nat, k: nat)
    requires j + 1 + k <= |s|
    ensures s[..j] + [s[j]] + s[j + 1..][..k] == s[..j + 1 + k]
  {
  }
}
