/** The binomial coefficient, computed in 64 bits without factorials. */
module Binomial {
  import opened Arithmetic

  const TWO_64: nat := 0x1_0000_0000_0000_0000

  /** Pascal's triangle. */
  function Choose(n: nat, k: nat): nat
  {
    if k == 0 then 1 else if n == 0 then 0 else Choose(n - 1, k - 1) + Choose(n - 1, k)
  }

  lemma {:induction false} ChooseMore(n: nat, k: nat)
    requires n < k
    ensures Choose(n, k) == 0
    decreases n
  {
    if n != 0 {
      ChooseMore(n - 1, k - 1);
      ChooseMore(n - 1, k);
    }
  }

  /** The identity that makes every division exact: k C(n, k) = n C(n - 1, k - 1). */
  lemma {:induction false} Absorption(n: nat, k: nat)
    requires 0 < n && 0 < k
    ensures k * Choose(n, k) == n * Choose(n - 1, k - 1)
    decreases n
  {
    var a, b := Choose(n - 1, k - 1), Choose(n - 1, k);
    assert Choose(n, k) == a + b;
    if n == 1 {
      assert b == 0;
      if k > 1 {
        ChooseMore(0, k - 1);
      }
    } else {
      var c := Choose(n - 2, k - 1);
      Absorption(n - 1, k);
      assert k * b == (n - 1) * c;
      if k == 1 {
        assert c == 1 && a == 1;
      } else {
        var e := Choose(n - 2, k - 2);
        Absorption(n - 1, k - 1);
        assert (k - 1) * a == (n - 1) * e;
        assert a == e + c;
        Distribute(n, k, a, b, c, e);
      }
    }
  }

  lemma Distribute(n: nat, k: nat, a: nat, b: nat, c: nat, e: nat)
    requires 0 < n && 0 < k && k * b == (n - 1) * c && (k - 1) * a == (n - 1) * e && a == e + c
    ensures k * (a + b) == n * a
  {
  }

  /** The product before the division of step ii. */
  function Product(n: nat, k: nat, ii: nat): nat
    requires 0 < ii <= k <= n
  {
    Choose(n - k + ii - 1, ii - 1) * (n - k + ii)
  }

  /** None of the first i products overflows. */
  ghost predicate Fits(n: nat, k: nat, i: nat)
    requires i <= k <= n
  {
    forall ii {:trigger Product(n, k, ii)} :: 0 < ii <= i ==> Product(n, k, ii) < TWO_64
  }

  /** The product of step ii is ii times the coefficient of that step. */
  lemma ProductIs(n: nat, k: nat, ii: nat)
    requires 0 < ii <= k <= n
    ensures Product(n, k, ii) == ii * Choose(n - k + ii, ii)
    ensures Product(n, k, ii) / ii == Choose(n - k + ii, ii)
  {
    hide Choose;
    Absorption(n - k + ii, ii);
    var c, before := Choose(n - k + ii, ii), Choose(n - k + ii - 1, ii - 1);
    assert before * (n - k + ii) == (n - k + ii) * before && ii * c == c * ii;
    DivModUnique(Product(n, k, ii), ii, c, 0);
  }

  /** The coefficients of the steps do not shrink. */
  lemma {:induction false} StepsGrow(n: nat, k: nat, ii: nat, jj: nat)
    requires 0 < ii <= jj <= k <= n
    ensures Choose(n - k + ii, ii) <= Choose(n - k + jj, jj)
    decreases jj
  {
    if ii < jj {
      StepsGrow(n, k, ii, jj - 1);
    }
  }

  /** Whether a product overflows can be seen from the result: the last product is the largest. */
  lemma FitsExactly(n: nat, k: nat)
    requires k <= n
    ensures Fits(n, k, k) <==> k == 0 || k * Choose(n, k) < TWO_64
  {
    if 0 < k {
      hide Choose, Product;
      ProductIs(n, k, k);
      forall ii {:trigger Product(n, k, ii)} | 0 < ii <= k
        ensures Product(n, k, ii) <= Product(n, k, k)
      {
        NoneLarger(n, k, ii);
      }
    }
  }

  lemma NoneLarger(n: nat, k: nat, ii: nat)
    requires 0 < ii <= k <= n
    ensures Product(n, k, ii) <= Product(n, k, k)
  {
    hide Choose, Product;
    ProductIs(n, k, ii);
    ProductIs(n, k, k);
    StepsGrow(n, k, ii, k);
    BothGrow(ii, k, Choose(n - k + ii, ii), Choose(n - k + k, k));
  }

  lemma BothGrow(a: nat, b: nat, c: nat, d: nat)
    requires a <= b && c <= d
    ensures a * c <= b * d
  {
  }

  /** The binomial coefficient; it fails for more outcomes than possibilities. In 64 bits it is exact exactly when
      k times the coefficient fits into them, and otherwise too small. */
  method NChooseK(n: nat, k: nat) returns (ok: bool, coefficient: nat)
    ensures ok <==> k <= n
    ensures ok ==> (coefficient == Choose(n, k) <==> k == 0 || k * Choose(n, k) < TWO_64)
    ensures ok ==> coefficient <= Choose(n, k)
  {
    if n < k {
      return false, 0;
    }
    ok := true;
    coefficient := 1;
    FitsExactly(n, k);
    NoStep(n, k);
    hide Choose, Product, Fits;
    var ii: nat := 1;
    while ii <= k
      invariant 1 <= ii <= k + 1
      invariant coefficient <= Choose(n - k + (ii - 1), ii - 1)
      invariant coefficient == Choose(n - k + (ii - 1), ii - 1) <==> Fits(n, k, ii - 1)
    {
      coefficient := NextCoefficient(n, k, ii, coefficient);
      ii := ii + 1;
    }
  }

  lemma ChooseTwo(n: nat)
    requires 2 <= n
    ensures 2 * Choose(n, 2) == n * (n - 1)
  {
    Absorption(n, 2);
    Absorption(n - 1, 1);
    assert Choose(n - 2, 0) == 1;
  }

  /** Two out of 2^32 + 1: the result fits into 64 bits, but twice the result does not. */
  method NChooseTwoTooSmall() returns (coefficient: nat)
    ensures coefficient < Choose(0x1_0000_0001, 2) == 0x8000_0000_8000_0000 < TWO_64
  {
    hide Choose;
    ChooseTwo(0x1_0000_0001);
    var ok;
    ok, coefficient := NChooseK(0x1_0000_0001, 2);
  }

  /** One turn of the loop: the product wraps around, and is divided. */
  method NextCoefficient(n: nat, k: nat, ii: nat, coefficient0: nat) returns (coefficient: nat)
    requires 0 < ii <= k <= n && coefficient0 <= Choose(n - k + (ii - 1), ii - 1)
    requires coefficient0 == Choose(n - k + (ii - 1), ii - 1) <==> Fits(n, k, ii - 1)
    ensures coefficient <= Choose(n - k + ii, ii)
    ensures coefficient == Choose(n - k + ii, ii) <==> Fits(n, k, ii)
  {
    hide Choose, Fits;
    Step(n, k, ii, coefficient0);
    coefficient := coefficient0 * (n - (k - ii)) % TWO_64;
    coefficient := coefficient / ii;
  }

  lemma NoStep(n: nat, k: nat)
    requires k <= n
    ensures Choose(n - k, 0) == 1 && Fits(n, k, 0)
  {
  }

  lemma FitsNext(n: nat, k: nat, ii: nat)
    requires 0 < ii <= k <= n
    ensures Fits(n, k, ii) <==> Fits(n, k, ii - 1) && Product(n, k, ii) < TWO_64
  {
  }

  /** One turn of the loop keeps an exact coefficient exact until a product overflows; a coefficient that is too small
      stays so. */
  lemma Step(n: nat, k: nat, ii: nat, c: nat)
    requires 0 < ii <= k <= n && c <= Choose(n - k + (ii - 1), ii - 1)
    requires c == Choose(n - k + (ii - 1), ii - 1) <==> Fits(n, k, ii - 1)
    ensures var next := c * (n - (k - ii)) % TWO_64 / ii;
            && next <= Choose(n - k + ii, ii)
            && (next == Choose(n - k + ii, ii) <==> Fits(n, k, ii))
  {
    hide Choose, Fits;
    ProductIs(n, k, ii);
    FitsNext(n, k, ii);
    StepIn(c, Choose(n - k + (ii - 1), ii - 1), n - (k - ii), ii, Choose(n - k + ii, ii));
  }

  lemma StepIn(c: nat, exact: nat, m: nat, ii: nat, next: nat)
    requires 0 < ii <= m && c <= exact && exact * m == ii * next
    ensures var r := c * m % TWO_64 / ii;
            r <= next && (r == next <==> c == exact && exact * m < TWO_64)
  {
    if c < exact {
      MulStrictMono(c, exact, m);
    }
    Quotient(c * m, ii, next);
  }

  /** What is left of a product in 64 bits, divided: the exact quotient, or less. */
  lemma Quotient(x: nat, ii: nat, next: nat)
    requires 0 < ii && x <= ii * next
    ensures if x == ii * next && x < TWO_64 then x % TWO_64 / ii == next else x % TWO_64 / ii < next
  {
    if x == ii * next && x < TWO_64 {
      assert ii * next == next * ii;
      DivModUnique(x, ii, next, 0);
    } else {
      TooSmall(x % TWO_64, ii, next);
    }
  }

  lemma TooSmall(x: nat, ii: nat, next: nat)
    requires 0 < ii && x < ii * next
    ensures x / ii < next
  {
    assert next * ii == ii * next;
    if next <= x / ii {
      MulMono(next, x / ii, ii);
    }
  }
}
