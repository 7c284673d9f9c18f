/** Facts about products, quotients and remainders that the layout proofs share. */
module Arithmetic {

  lemma MulMono(a: int, b: int, d: int)
    requires a <= b && 0 <= d
    ensures a * d <= b * d
  {
  }

  lemma MulStrictMono(a: int, b: int, d: int)
    requires a < b && 0 < d
    ensures a * d + d <= b * d
  {
    MulMono(a + 1, b, d);
    assert (a + 1) * d == a * d + d;
  }

  lemma DivModUnique(x: int, d: int, q: int, r: int)
    requires d > 0 && 0 <= r < d && x == q * d + r
    ensures x / d == q && x % d == r
  {
    if q < x / d {
      MulStrictMono(q, x / d, d);
    } else if x / d < q {
      MulStrictMono(x / d, q, d);
    }
  }

  lemma RowOrder(x: int, y: int, d: int)
    requires d > 0 && x <= y
    ensures x / d <= y / d
  {
    if y / d < x / d {
      MulStrictMono(y / d, x / d, d);
    }
  }

  lemma MultipleSum(a: int, b: int, d: int)
    requires d > 0 && a % d == 0 && b % d == 0
    ensures (a + b) % d == 0 && (a - b) % d == 0
  {
    var p, q := a / d, b / d;
    assert a + b == (p + q) * d + 0;
    assert a - b == (p - q) * d + 0;
    DivModUnique(a + b, d, p + q, 0);
    DivModUnique(a - b, d, p - q, 0);
  }

  /** x bytes are a whole number of elements of d bytes. */
  predicate Whole(x: int, d: nat)
    requires 0 < d
  {
    x % d == 0
  }

  /** The bytes of n elements. */
  function Scaled(n: int, d: nat): (bytes: int)
    ensures 0 <= n ==> 0 <= bytes
  {
    n * d
  }

  lemma WholeSum(a: int, b: int, d: nat)
    requires 0 < d && Whole(a, d) && Whole(b, d)
    ensures Whole(a + b, d) && Whole(a - b, d)
  {
    MultipleSum(a, b, d);
  }

  lemma ScaledIsWhole(n: int, d: nat)
    requires 0 < d
    ensures Whole(Scaled(n, d), d)
  {
    DivModUnique(n * d, d, n, 0);
  }

  lemma ScaledLess(n: int, bytes: int, d: nat)
    requires 0 < d && Whole(bytes, d)
    ensures Scaled(n - bytes / d, d) == Scaled(n, d) - bytes
  {
  }

  lemma ScaledSign(n: int, d: nat)
    requires 0 < d
    ensures n == 0 <==> Scaled(n, d) == 0
    ensures 0 <= Scaled(n, d) ==> 0 <= n
  {
  }

  // ----- Products as repeated addition: linear for the solver -----

  /** n runs of w, by addition. */
  function Times(n: nat, w: nat): nat
  {
    if n == 0 then 0 else Times(n - 1, w) + w
  }

  lemma TimesNext(n: nat, w: nat)
    ensures Times(n + 1, w) == Times(n, w) + w && Times(0, w) == 0
  {
  }

  lemma {:induction false} TimesIs(n: nat, w: nat)
    ensures Times(n, w) == n * w
  {
    if n != 0 {
      TimesIs(n - 1, w);
      assert (n - 1) * w + w == n * w;
    }
  }

  lemma {:induction false} TimesMono(a: nat, b: nat, w: nat)
    requires a <= b
    ensures Times(a, w) <= Times(b, w)
    ensures a < b ==> Times(a, w) + w <= Times(b, w)
    decreases b
  {
    if a < b {
      TimesMono(a, b - 1, w);
    }
  }

  lemma {:induction false} TimesAdd(a: nat, b: nat, w: nat)
    ensures Times(a + b, w) == Times(a, w) + Times(b, w)
  {
    if b != 0 {
      TimesAdd(a, b - 1, w);
    }
  }

  lemma {:induction false} TimesWider(n: nat, v: nat, w: nat)
    ensures Times(n, v + w) == Times(n, v) + Times(n, w)
  {
    if n != 0 {
      TimesWider(n - 1, v, w);
    }
  }

  /** The quotient and remainder of a position given by runs and a rest. */
  lemma TimesDivMod(x: nat, n: nat, w: nat, r: nat)
    requires 0 < w && r < w && x == Times(n, w) + r
    ensures x / w == n && x % w == r
  {
    TimesIs(n, w);
    DivModUnique(x, w, n, r);
  }

  /** Every position is given by runs and a rest. */
  lemma TimesSplit(x: nat, w: nat)
    requires 0 < w
    ensures x == Times(x / w, w) + x % w
  {
    TimesIs(x / w, w);
  }

  lemma {:induction false} TimesWhole(n: nat, w: nat, d: nat)
    requires 0 < d && Whole(w, d)
    ensures Whole(Times(n, w), d)
  {
    if n != 0 {
      TimesWhole(n - 1, w, d);
      WholeSum(Times(n - 1, w), w, d);
    }
  }

  /** The elements that a run of calls transfers. */
  function Sum(calls: seq<nat>): nat
  {
    if calls == [] then 0 else calls[0] + Sum(calls[1..])
  }

  lemma ScaledAdd(a: int, b: int, d: nat)
    ensures Scaled(a + b, d) == Scaled(a, d) + Scaled(b, d)
  {
  }
}
