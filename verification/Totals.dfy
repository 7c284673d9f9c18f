/** Sums over all threads of a protocol. */
module Totals {

  /** What all elements of s weigh together. */
  function Total<T>(s: seq<T>, weight: T -> nat): nat
  {
    if s == [] then 0 else Total(s[..|s| - 1], weight) + weight(s[|s| - 1])
  }

  /** One thread moves: only its own weight changes. */
  lemma {:induction false} TotalUpdate<T>(s: seq<T>, weight: T -> nat, i: nat, x: T)
    requires i < |s|
    ensures Total(s[i := x], weight) + weight(s[i]) == Total(s, weight) + weight(x)
    ensures weight(s[i]) <= Total(s, weight)
    decreases |s|
  {
    var n := |s| - 1;
    if i == n {
      assert s[i := x][..n] == s[..n];
    } else {
      assert s[i := x][..n] == s[..n][i := x];
      TotalUpdate(s[..n], weight, i, x);
    }
  }

  lemma {:induction false} TotalAtLeast<T>(s: seq<T>, weight: T -> nat, i: nat)
    requires i < |s|
    ensures weight(s[i]) <= Total(s, weight)
  {
    TotalUpdate(s, weight, i, s[i]);
  }

  /** Two threads together weigh no more than all. */
  lemma TotalAtLeastTwo<T>(s: seq<T>, weight: T -> nat, i: nat, j: nat)
    requires i < j < |s|
    ensures weight(s[i]) + weight(s[j]) <= Total(s, weight)
    decreases |s|
  {
    if j == |s| - 1 {
      TotalAtLeast(s[..j], weight, i);
    } else {
      TotalAtLeastTwo(s[..|s| - 1], weight, i, j);
    }
  }

  /** When all threads together weigh something, one of them does. */
  lemma {:induction false} SomeWeigh<T>(s: seq<T>, weight: T -> nat) returns (i: nat)
    requires 0 < Total(s, weight)
    ensures i < |s| && 0 < weight(s[i])
  {
    i := |s| - 1;
    if weight(s[i]) == 0 {
      i := SomeWeigh(s[..i], weight);
    }
  }

  /** Threads that each weigh no more by one measure than by another. */
  lemma {:induction false} TotalMono<T>(s: seq<T>, weight: T -> nat, other: T -> nat)
    requires forall i :: 0 <= i < |s| ==> weight(s[i]) <= other(s[i])
    ensures Total(s, weight) <= Total(s, other)
  {
    if s != [] {
      TotalMono(s[..|s| - 1], weight, other);
    }
  }

  /** Threads that all weigh nothing. */
  lemma {:induction false} NoneWeigh<T>(s: seq<T>, weight: T -> nat)
    requires forall i :: 0 <= i < |s| ==> weight(s[i]) == 0
    ensures Total(s, weight) == 0
  {
    if s != [] {
      NoneWeigh(s[..|s| - 1], weight);
    }
  }

  lemma {:induction false} TotalBounded<T>(s: seq<T>, weight: T -> nat)
    requires forall i :: 0 <= i < |s| ==> weight(s[i]) <= 1
    ensures Total(s, weight) <= |s|
  {
    if s != [] {
      TotalBounded(s[..|s| - 1], weight);
    }
  }
}
