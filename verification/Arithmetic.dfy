/**
  Products and quotients by repeated addition and subtraction. Offsets are specified with these, which keeps the proofs
  linear; the lemmas say that they are the operators `*`, `/` and `%` which the methods use.
 */
module Arithmetic {

  function Times(n: nat, k: nat): nat {
    if n == 0 then 0 else Times(n - 1, k) + k
  }

  lemma {:induction false} TimesIsProduct(n: nat, k: nat)
    ensures Times(n, k) == n * k
  {
    if n != 0 {
      TimesIsProduct(n - 1, k);
    }
  }

  lemma {:induction false} TimesMono(m: nat, n: nat, k: nat)
    requires m <= n
    ensures Times(m, k) <= Times(n, k)
  {
    if m < n {
      TimesMono(m, n - 1, k);
    }
  }

  lemma {:induction false} TimesAtLeast(n: nat, k: nat)
    requires k > 0
    ensures n <= Times(n, k)
  {
    if n != 0 {
      TimesAtLeast(n - 1, k);
    }
  }

  lemma {:induction false} TimesSum(m: nat, n: nat, k: nat)
    ensures Times(m + n, k) == Times(m, k) + Times(n, k)
  {
    if n != 0 {
      TimesSum(m, n - 1, k);
    }
  }

  function Quotient(a: nat, k: nat): nat
    requires k > 0
  {
    if a < k then 0 else Quotient(a - k, k) + 1
  }

  function Remainder(a: nat, k: nat): (r: nat)
    requires k > 0
    ensures r < k
  {
    if a < k then a else Remainder(a - k, k)
  }

  lemma {:induction false} Parts(a: nat, k: nat)
    requires k > 0
    ensures a == Times(Quotient(a, k), k) + Remainder(a, k)
    ensures Quotient(a, k) <= a
  {
    if a >= k {
      Parts(a - k, k);
    }
  }

  lemma {:induction false} PartsUnique(q: nat, k: nat, r: nat)
    requires r < k
    ensures Quotient(Times(q, k) + r, k) == q && Remainder(Times(q, k) + r, k) == r
  {
    if q != 0 {
      PartsUnique(q - 1, k, r);
    }
  }

  lemma QuotientIsDivision(a: nat, k: nat)
    requires k > 0
    ensures Quotient(a, k) == a / k && Remainder(a, k) == a % k
  {
    var q, r := a / k, a % k;
    TimesIsProduct(q, k);
    assert a == q * k + r;
    PartsUnique(q, k, r);
  }
}
