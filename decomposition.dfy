/** "Décomposition judicieuse de n": for growing k, n is written as the k + 1
    consecutive numbers a, a + 1, ..., a + k minus one of them, r, and the
    product of the k terms left is kept while it grows by at least a factor
    d from one k to the next. */
module Decomposition {
  import opened Numbers
  import opened Options

  /** a + (a + 1) + ... + (a + k). */
  function RunSum(a: int, k: nat): int
  {
    if k == 0 then a else RunSum(a, k - 1) + a + k
  }

  /** Gauss's formula for a run of consecutive numbers. */
  lemma {:induction false} RunSumClosed(a: int, k: nat)
    ensures 2 * RunSum(a, k) == (k + 1) * (2 * a + k)
  {
    if k > 0 {
      RunSumClosed(a, k - 1);
      assert k * (2 * a + k - 1) + 2 * a + 2 * k == (k + 1) * (2 * a + k);
    }
  }

  /** The first term a that solve computes for k, by floor division. */
  function First(n: int, k: nat): int
    requires k >= 1
  {
    (2 * (n + k - 1) - k * (k + 1)) / (2 * k)
  }

  /** The term r that solve removes: how far the run from First(n, k)
      overshoots n. */
  function Excess(n: int, k: nat): int
    requires k >= 1
  {
    var a := First(n, k);
    (k + 1) * (2 * a + k) / 2 - n
  }

  /** The run a, ..., a + k minus its term r adds up to n, and r is one of
      a, ..., a + k - 1. */
  lemma ExcessInRun(n: int, k: nat)
    requires k >= 1
    ensures var a, r := First(n, k), Excess(n, k);
      RunSum(a, k) - r == n && a <= r < a + k
  {
    var total := 2 * (n + k - 1) - k * (k + 1);
    var a := First(n, k);
    var rest := total % (2 * k);
    assert total == 2 * k * a + rest && 0 <= rest < 2 * k;
    RunSumClosed(a, k);
    var t := (k + 1) * (2 * a + k);
    assert t / 2 == RunSum(a, k);
    var r := Excess(n, k);
    assert 2 * (r - a) == 2 * k * a + k * (k + 1) - 2 * n by {
      assert t == 2 * a + 2 * k * a + k * (k + 1);
    }
  }

  /** The numbers from a to hi - 1 other than r, in increasing order. */
  function Factors(a: int, hi: int, r: int): (s: seq<int>)
    decreases hi - a
  {
    if hi <= a then [] else Factors(a, hi - 1, r) + (if hi - 1 != r then [hi - 1] else [])
  }

  /** The product of a sequence. */
  function Product(s: seq<int>): int
  {
    if s == [] then 1 else Product(s[..|s| - 1]) * s[|s| - 1]
  }

  lemma ProductAppend(s: seq<int>, x: int)
    ensures Product(s + [x]) == Product(s) * x
  {
    assert (s + [x])[..|s|] == s;
  }

  /** Factors lists exactly the numbers of the range other than r. */
  lemma {:induction false} FactorsMembers(a: int, hi: int, r: int)
    ensures forall i :: i in Factors(a, hi, r) <==> a <= i < hi && i != r
    decreases hi - a
  {
    if hi > a {
      FactorsMembers(a, hi - 1, r);
    }
  }

  /** ... in increasing order. */
  lemma {:induction false} FactorsIncreasing(a: int, hi: int, r: int)
    ensures forall i, j :: 0 <= i < j < |Factors(a, hi, r)| ==> Factors(a, hi, r)[i] < Factors(a, hi, r)[j]
    decreases hi - a
  {
    if hi > a {
      var s := Factors(a, hi - 1, r);
      FactorsIncreasing(a, hi - 1, r);
      FactorsMembers(a, hi - 1, r);
      forall i | 0 <= i < |s|
        ensures s[i] < hi - 1
      {
        assert s[i] in s;
      }
    }
  }

  /** Leaving one term of the run out leaves k factors out of k + 1. */
  lemma {:induction false} FactorsCount(a: int, hi: int, r: int)
    requires a <= hi
    ensures |Factors(a, hi, r)| == if a <= r < hi then hi - a - 1 else hi - a
    decreases hi - a
  {
    if hi > a {
      FactorsCount(a, hi - 1, r);
    }
  }

  /** The loop over range(a, a + k + 1) that multiplies every term but r. */
  method RunProduct(a: int, k: nat, r: int) returns (product: int)
    ensures product == Product(Factors(a, a + k + 1, r))
  {
    product := 1;
    for i := a to a + k + 1
      invariant product == Product(Factors(a, i, r))
    {
      assert Factors(a, i + 1, r) == Factors(a, i, r) + (if i != r then [i] else []);
      if i != r {
        ProductAppend(Factors(a, i, r), i);
        product := product * i;
      } else {
        assert Factors(a, i, r) + [] == Factors(a, i, r);
      }
    }
  }

  /** The tuple (product, k, a, r) of solve. */
  datatype Split = Split(product: int, k: nat, a: int, r: int)

  /** The tuple solve builds for k. */
  function Candidate(n: int, k: nat): Split
    requires k >= 1
  {
    var a := First(n, k);
    var r := Excess(n, k);
    Split(Product(Factors(a, a + k + 1, r)), k, a, r)
  }

  /** Every tuple solve builds describes a decomposition of n: the k + 1
      terms from a minus r add up to n, r is one of them, and the product
      is that of the k other terms (FactorsMembers lists them). */
  lemma CandidateFacts(n: int, k: nat, c: Split)
    requires k >= 1 && c == Candidate(n, k)
    ensures c.k == k && RunSum(c.a, k) - c.r == n && c.a <= c.r < c.a + k
    ensures c.product == Product(Factors(c.a, c.a + k + 1, c.r)) && |Factors(c.a, c.a + k + 1, c.r)| == k
  {
    ExcessInRun(n, k);
    FactorsCount(c.a, c.a + k + 1, c.r);
  }

  /** Going from k - 1 to k multiplies the product by at least d. */
  predicate Improves(d: int, n: int, k: nat)
    requires k >= 2
  {
    Candidate(n, k).product >= Candidate(n, k - 1).product * d
  }

  /** Every step from 1 up to k improved. */
  predicate Improving(d: int, n: int, k: nat)
  {
    forall j :: 2 <= j <= k ==> Improves(d, n, j)
  }

  /** Keeping the tuple of k extends the run of improvements to k. */
  lemma KeepStep(d: int, n: int, k: nat, kept: Option<Split>)
    requires k >= 1 && Improving(d, n, k - 1)
    requires kept.None? <==> k == 1
    requires kept.Some? ==> kept.value == Candidate(n, k - 1)
    requires kept.None? || Candidate(n, k).product >= kept.value.product * Pow(d, k - kept.value.k)
    ensures Improving(d, n, k)
  {
    if k >= 2 {
      assert Pow(d, 1) == d;
      assert Improves(d, n, k);
    }
  }

  /** solve(d, n): try k = 1, 2, ... and keep the tuple of k while its
      product is at least d times the one kept; stop at the first k that
      falls short and return the tuple kept. The loop runs at most `fuel`
      times; None means the fuel ran out first. */
  method Solve(d: int, n: int, fuel: nat) returns (best: Option<Split>)
    ensures best.Some? ==> best.value.k >= 1 && best.value == Candidate(n, best.value.k)
    ensures best.Some? ==> Improving(d, n, best.value.k) && !Improves(d, n, best.value.k + 1)
    ensures best.None? ==> Improving(d, n, fuel)
  {
    var k: nat := 1;
    var kept: Option<Split> := None;
    while k <= fuel
      invariant 1 <= k <= fuel + 1
      invariant kept.None? <==> k == 1
      invariant kept.Some? ==> kept.value == Candidate(n, k - 1)
      invariant Improving(d, n, k - 1)
    {
      var a := (2 * (n + k - 1) - k * (k + 1)) / (2 * k);
      var r := (k + 1) * (2 * a + k) / 2 - n;
      var product := RunProduct(a, k, r);
      assert Split(product, k, a, r) == Candidate(n, k);
      if kept.None? || product >= kept.value.product * Pow(d, k - kept.value.k) {
        KeepStep(d, n, k, kept);
        kept := Some(Split(product, k, a, r));
      } else {
        assert Pow(d, 1) == d;
        return kept;
      }
      k := k + 1;
    }
    return None;
  }
}
