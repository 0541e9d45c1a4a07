/** Facts about products and quotients of reals. The product has a name, so that the proofs that use it can
  hide what it means and treat it as one quantity. */
module RealArithmetic {

  function Abs(x: real): real {
    if x < 0.0 then -x else x
  }

  function Times(x: real, y: real): real {
    x * y
  }

  lemma Quotient(a: real, n: real)
    requires n > 0.0
    ensures Times(n, a / n) == a
  {
  }

  lemma Distribute(n: real, x: real, y: real, d: real)
    requires d == x - y
    ensures Times(n, d) == Times(n, x) - Times(n, y)
  {
  }

  lemma TimesSum(n: real, x: real, y: real, sum: real)
    requires sum == x + y
    ensures Times(n, sum) == Times(n, x) + Times(n, y)
  {
  }

  lemma TimesOne(n: real)
    ensures Times(n, 1.0) == n
  {
  }

  lemma PlusOne(n: real, count: real, x: real)
    requires count == n + 1.0
    ensures Times(count, x) == Times(n, x) + x
  {
  }

  lemma Scale(n: real, x: real, y: real)
    requires n >= 0.0 && x <= y
    ensures Times(n, x) <= Times(n, y)
  {
  }

  lemma ScaleLt(n: real, x: real, y: real)
    requires n > 0.0 && x < y
    ensures Times(n, x) < Times(n, y)
  {
  }

  lemma CancelLe(n: real, x: real, y: real)
    requires n > 0.0 && Times(n, x) <= Times(n, y)
    ensures x <= y
  {
  }

  lemma CancelEq(n: real, x: real, y: real)
    requires n > 0.0 && Times(n, x) == Times(n, y)
    ensures x == y
  {
  }

  /** A quotient compares with a bound as the dividend compares with the bound's multiple. */
  lemma CompareQuotient(a: real, n: real, bound: real)
    requires n > 0.0
    ensures bound <= a / n <==> Times(n, bound) <= a
    ensures a / n < bound <==> a < Times(n, bound)
  {
    hide Times;
    var q := a / n;
    Quotient(a, n);
    if bound <= q {
      Scale(n, bound, q);
    } else {
      ScaleLt(n, q, bound);
    }
  }
}
