/** Products by repeated addition: layouts that step by a variable size, without nonlinear arithmetic. */
module Steps {

  // Where step n of size k starts.
  function Times(n: nat, k: nat): nat {
    if n == 0 then 0 else Times(n - 1, k) + k
  }

  lemma {:induction false} TimesIsProduct(n: nat, k: nat)
    ensures Times(n, k) == n * k
  {
    if n == 0 {
    } else {
      TimesIsProduct(n - 1, k);
    }
  }

  // Names an index at which a quantified fact is to be used. Facts about a whole disk or a whole table
  // are quantified with this trigger, so that the verifier opens them only where a proof says so.
  ghost predicate At(i: int) {
    true
  }

  // Step m lies wholly behind step n.
  lemma {:induction false} TimesOrdered(n: nat, m: nat, k: nat)
    requires n < m
    ensures Times(n, k) + k <= Times(m, k)
  {
    if n + 1 < m {
      TimesOrdered(n, m - 1, k);
    }
  }

  // A place inside a step determines the step.
  lemma TimesUnique(n: nat, i: nat, m: nat, j: nat, k: nat)
    requires i < k && j < k && Times(n, k) + i == Times(m, k) + j
    ensures n == m && i == j
  {
    if n < m {
      TimesOrdered(n, m, k);
    } else if m < n {
      TimesOrdered(m, n, k);
    }
  }

  // Division by the step size, and rounding down to a step.
  lemma StepOf(x: nat, n: nat, k: nat)
    requires Times(n, k) <= x < Times(n, k) + k
    ensures x / k == n && x / k * k == Times(n, k)
  {
    TimesIsProduct(n, k);
    DivUnique(x, k, n);
  }

  lemma DivUnique(x: nat, m: nat, q: nat)
    requires 0 < m && q * m <= x < q * m + m
    ensures x / m == q
  {
    var q' := x / m;
    assert x == q' * m + x % m;
    assert q' < q ==> (q' + 1) * m <= q * m;
    assert q < q' ==> (q + 1) * m <= q' * m;
  }

  lemma StepReached(x: nat, n: nat, k: nat)
    requires 0 < k
    ensures x / k >= n <==> Times(n, k) <= x
  {
    TimesIsProduct(n, k);
    AtLeast(x, k, n, x / k, x % k);
  }

  lemma AtLeast(x: nat, k: nat, n: nat, q: nat, r: nat)
    requires x == q * k + r && r < k
    ensures q >= n <==> n * k <= x
  {
    if q >= n {
      MulMonotone(n, q, k);
    } else {
      MulMonotone(q + 1, n, k);
    }
  }

  lemma MulMonotone(a: nat, b: nat, k: nat)
    requires a <= b
    ensures a * k <= b * k
  {
  }

  lemma {:induction false} TimesScaled(n: nat, k: nat, m: nat)
    ensures Times(n, m * k) == m * Times(n, k)
  {
    if n == 0 {
    } else {
      TimesScaled(n - 1, k, m);
      assert m * (Times(n - 1, k) + k) == m * Times(n - 1, k) + m * k;
    }
  }
}
