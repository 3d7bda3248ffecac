/** "Espérance": two memoised counting recursions, f_b and f_n, and
    solve(k) = 2 f_b(k, k). The recursion has the closed form
    f_b(b, n) = (2b - 1) C(n + b - 2, b - 1), so solve(k) = k C(2k, k),
    the value the script compares its count with. */
module Expectation {
  import opened Numbers

  /** f_b(b, n), with math.comb as the Pascal binomial. */
  function FB(b: int, n: int): (r: int)
    ensures r >= 0
    ensures b >= 1 && n >= 1 ==> r >= 1
    decreases if b <= 0 || n <= 0 then 0 else b + n
  {
    if b <= 0 || n <= 0 then 0
    else
      BinomialPositive(n + b - 2, b - 1);
      FB(b - 1, n) + Binomial(n + b - 2, b - 1) + FB(n, b - 1)
  }

  /** f_n(b, n). */
  function FN(b: int, n: int): int
    decreases if b <= 0 || n <= 0 then 0 else b + n
  {
    if n <= 0 || b <= 0 then 0
    else FN(b, n - 1) + Binomial(n + b - 2, n - 1) + FB(b, n - 1)
  }

  /** solve(nb_coins). */
  function Solve(coins: int): int
  {
    2 * FB(coins, coins)
  }

  /** One more coin of the first kind never lowers f_b. */
  lemma FBGrows(b: int, n: int)
    requires b >= 1 && n >= 1
    ensures FB(b, n) >= FB(b - 1, n) + 1
  {
    BinomialPositive(n + b - 2, b - 1);
  }

  /** f_n is f_b with its arguments swapped. */
  lemma {:induction false} FNSwapsFB(b: int, n: int)
    ensures FN(b, n) == FB(n, b)
    decreases if b <= 0 || n <= 0 then 0 else b + n
  {
    if b >= 1 && n >= 1 {
      FNSwapsFB(b, n - 1);
    }
  }

  /** C(m, k) == C(m, m - k). */
  lemma {:induction false} BinomialSymmetric(m: nat, k: nat)
    requires k <= m
    ensures Binomial(m, k) == Binomial(m, m - k)
  {
    if 0 < k < m {
      BinomialSymmetric(m - 1, k - 1);
      BinomialSymmetric(m - 1, k);
      assert m - k == (m - 1 - k) + 1;
    } else {
      BinomialAll(m);
    }
  }

  /** C(m, m) == 1. */
  lemma {:induction false} BinomialAll(m: nat)
    ensures Binomial(m, m) == 1
  {
    if m > 0 {
      BinomialAll(m - 1);
      BinomialAboveN(m - 1, m);
    }
  }

  /** k C(m, k) == m C(m - 1, k - 1). */
  lemma {:induction false} BinomialAbsorb(m: nat, k: nat)
    requires m >= 1 && k >= 1
    ensures k * Binomial(m, k) == m * Binomial(m - 1, k - 1)
  {
    if m == 1 {
      if k > 1 {
        BinomialAboveN(1, k);
        BinomialAboveN(0, k - 1);
      }
    } else if k == 1 {
      BinomialCountOne(m);
      BinomialCountOne(m - 1);
    } else {
      BinomialAbsorb(m - 1, k - 1);
      BinomialAbsorb(m - 1, k);
      AbsorbStep(m, k, Binomial(m - 1, k - 1), Binomial(m - 1, k), Binomial(m - 2, k - 2), Binomial(m - 2, k - 1));
    }
  }

  /** The arithmetic of one Pascal step of the absorption identity. */
  lemma AbsorbStep(m: int, k: int, a: int, b: int, x: int, y: int)
    requires a == x + y && (k - 1) * a == (m - 1) * x && k * b == (m - 1) * y
    ensures k * (a + b) == m * a
  {
    calc {
      k * (a + b);
      (k - 1) * a + a + k * b;
      (m - 1) * x + a + (m - 1) * y;
      (m - 1) * (x + y) + a;
    }
  }

  /** C(m, 1) == m. */
  lemma {:induction false} BinomialCountOne(m: nat)
    ensures Binomial(m, 1) == m
  {
    if m > 0 {
      BinomialCountOne(m - 1);
    }
  }

  /** The closed form of f_b. */
  lemma {:induction false} FBClosedForm(b: int, n: int)
    requires b >= 1 && n >= 1
    ensures FB(b, n) == (2 * b - 1) * Binomial(n + b - 2, b - 1)
    decreases b + n
  {
    var N := n + b - 2;
    if b >= 2 {
      FBClosedForm(b - 1, n);
      FBClosedForm(n, b - 1);
      // f_b(b - 1, n) and f_b(n, b - 1) both sit on C(N - 1, b - 2).
      assert N - 1 == n + b - 3;
      BinomialSymmetric(N - 1, n - 1);
      assert (N - 1) - (n - 1) == b - 2;
      BinomialAbsorb(N, b - 1);
      ClosedFormStep(b, n, N, Binomial(N - 1, b - 2), Binomial(N, b - 1), FB(b - 1, n), FB(n, b - 1));
    }
  }

  /** The arithmetic of one step of the closed form: with
      (b - 1) C(N, b - 1) == N C(N - 1, b - 2), the three terms add up. */
  lemma ClosedFormStep(b: int, n: int, N: int, c: int, d: int, left: int, right: int)
    requires N == n + b - 2 && (b - 1) * d == N * c
    requires left == (2 * (b - 1) - 1) * c && right == (2 * n - 1) * c
    ensures left + d + right == (2 * b - 1) * d
  {
    calc {
      left + d + right;
      (2 * (b - 1) - 1 + 2 * n - 1) * c + d;
      2 * (N * c) + d;
      2 * ((b - 1) * d) + d;
    }
  }

  /** solve(k) == k C(2k, k): the script's count minus k C(2k, k) is 0. */
  lemma SolveClosedForm(k: nat)
    ensures Solve(k) == k * Binomial(2 * k, k)
  {
    if k >= 1 {
      FBClosedForm(k, k);
      BinomialAbsorb(2 * k, k);
      BinomialAbsorb(2 * k - 1, k);
      BinomialSymmetric(2 * k - 1, k);
      assert 2 * k - 1 - k == k - 1;
      var c := Binomial(2 * k - 2, k - 1);
      var d := Binomial(2 * k - 1, k - 1);
      assert k * d == (2 * k - 1) * c;
      assert k * Binomial(2 * k, k) == 2 * k * d;
      assert Solve(k) == 2 * ((2 * k - 1) * c);
    }
  }

  /** solve(1) == 2. */
  lemma SolveOne()
    ensures Solve(1) == 2
  {
    FBClosedForm(1, 1);
  }
}
